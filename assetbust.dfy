/** The build-time cache buster of scripts/cache_bust.py: in every HTML file
    of the built site, `?v=<hash>` is inserted before the closing quote of
    the `.css` `href` of a `<link>` tag, and then before the closing quote
    of the `.js` `src` of a `<script>` tag.

    A file is given already cut into chunks: plain text, and quoted
    attribute values together with the text of their tag from the opening
    `<` up to and including the opening quote. The hash is an input. */
module AssetCacheBust {
  import opened Strings

  /** One of the two rewrites: the text that opens the tag, the attribute
      that holds the asset's URL, and the asset's extension. */
  datatype Rule = Rule(tag: string, attr: string, ext: string)

  /** `(<link[^>]+href=["\'])([^"\']+\.css)(["\'])` */
  const CssRule := Rule("<link", "href=", ".css")

  /** `(<script[^>]+src=["\'])([^"\']+\.js)(["\'])` */
  const JsRule := Rule("<script", "src=", ".js")

  /** A piece of an HTML file: text, or a quoted attribute value with the
      text before it in its tag and its closing quote. */
  datatype Chunk = Plain(text: string) | Attribute(open: string, value: string, close: char)

  function Text(c: Chunk): string {
    match c
    case Plain(t) => t
    case Attribute(open, value, close) => open + value + [close]
  }

  /** The text of a whole file. */
  function Flatten(cs: seq<Chunk>): string {
    if cs == [] then [] else Text(cs[0]) + Flatten(cs[1..])
  }

  /** The first group: the tag, at least one character that is not `>`, the
      attribute name with its `=`, and a quote. */
  predicate OpensFor(open: string, r: Rule) {
    && |open| >= |r.tag| + 1 + |r.attr| + 1
    && StartsWith(open, r.tag)
    && (forall k :: |r.tag| <= k < |open| - 1 - |r.attr| ==> open[k] != '>')
    && open[|open| - 1 - |r.attr|..|open| - 1] == r.attr
    && IsQuote(open[|open| - 1])
  }

  /** The second group: at least one character, then the extension, and no
      quote anywhere. */
  predicate ValueFor(value: string, r: Rule) {
    && |value| > |r.ext|
    && EndsWith(value, r.ext)
    && forall k :: 0 <= k < |value| ==> !IsQuote(value[k])
  }

  /** The whole pattern of `r` matches this chunk; the closing quote need
      not be the opening one. */
  predicate Eligible(c: Chunk, r: Rule)
    ensures Eligible(c, r) ==>
              c.Attribute? && |c.open| > |r.attr| && |c.value| >= |r.ext| &&
              var t := Text(c);
              && OccursAt(t, 0, r.tag)
              && OccursAt(t, |c.open| - 1 - |r.attr|, r.attr) && IsQuote(t[|c.open| - 1])
              && OccursAt(t, |t| - 1 - |r.ext|, r.ext) && IsQuote(t[|t| - 1])
  {
    if c.Attribute? && OpensFor(c.open, r) && ValueFor(c.value, r) && IsQuote(c.close) then
      var t := Text(c);
      assert t[..|c.open|] == c.open;
      assert t[|c.open|..|t| - 1] == c.value;
      true
    else false
  }

  /** `f"?v={build_hash}"` */
  function QueryParam(hash: string): string {
    "?v=" + hash
  }

  /** `\1\2{query_param}\3` on one chunk: an eligible attribute gets `param`
      inserted just before its closing quote, with the tag text, the value
      and the quote otherwise unchanged; every other chunk stays as it is. */
  function BustChunk(c: Chunk, r: Rule, param: string): (out: Chunk)
    ensures Eligible(c, r) ==>
              && out.Attribute? && out.open == c.open && out.close == c.close
              && StartsWith(out.value, c.value) && out.value[|c.value|..] == param
              && Text(out) == Text(c)[..|Text(c)| - 1] + param + [c.close]
    ensures !Eligible(c, r) ==> out == c
  {
    if Eligible(c, r) then
      var out := Attribute(c.open, c.value + param, c.close);
      assert Text(c)[..|Text(c)| - 1] == c.open + c.value;
      assert (c.value + param)[..|c.value|] == c.value;
      out
    else c
  }

  /** One `re.sub` over the file: every chunk is rewritten on its own. */
  function BustAll(cs: seq<Chunk>, r: Rule, param: string): (out: seq<Chunk>)
    ensures |out| == |cs|
    ensures forall i :: 0 <= i < |cs| ==> out[i] == BustChunk(cs[i], r, param)
  {
    if cs == [] then [] else [BustChunk(cs[0], r, param)] + BustAll(cs[1..], r, param)
  }

  /** The number of chunks that the rule rewrites. */
  function CountEligible(cs: seq<Chunk>, r: Rule): nat {
    if cs == [] then 0 else (if Eligible(cs[0], r) then 1 else 0) + CountEligible(cs[1..], r)
  }

  /** A pass lengthens the file by the parameter once per rewritten
      attribute. */
  lemma {:induction false} BustAllLength(cs: seq<Chunk>, r: Rule, param: string)
    ensures |Flatten(BustAll(cs, r, param))| == |Flatten(cs)| + |param| * CountEligible(cs, r)
  {
    if cs != [] {
      var c, rest := cs[0], cs[1..];
      BustAllLength(rest, r, param);
      var out := BustAll(cs, r, param);
      assert out[1..] == BustAll(rest, r, param);
      assert Flatten(out) == Text(out[0]) + Flatten(out[1..]);
      assert Flatten(cs) == Text(c) + Flatten(rest);
      BustChunkLength(c, r, param);
      var e := if Eligible(c, r) then 1 else 0;
      var n := CountEligible(rest, r);
      assert CountEligible(cs, r) == e + n;
      MulAdd(|param|, e, n);
      assert |param| * e == if e == 1 then |param| else 0;
    }
  }

  /** A rewritten chunk is longer by the parameter; any other keeps its length. */
  lemma BustChunkLength(c: Chunk, r: Rule, param: string)
    ensures |Text(BustChunk(c, r, param))| == |Text(c)| + if Eligible(c, r) then |param| else 0
  {
  }

  lemma MulAdd(p: nat, a: nat, b: nat)
    ensures p * (a + b) == p * a + p * b
  {
  }

  /** No chunk is rewritten by both passes: a `<link` tag is not a
      `<script` tag. */
  lemma RulesDisjoint(c: Chunk)
    ensures Eligible(c, CssRule) ==> !Eligible(c, JsRule)
  {
    if Eligible(c, CssRule) {
      assert c.open[1] == 'l';
    }
  }

  /** A value that has been given a digit hash no longer ends with an
      extension, so neither pass rewrites it again. */
  lemma BustedNotEligible(open: string, value: string, close: char, hash: string)
    requires AllDigits(hash)
    ensures !Eligible(Attribute(open, value + QueryParam(hash), close), CssRule)
    ensures !Eligible(Attribute(open, value + QueryParam(hash), close), JsRule)
  {
    var v := value + QueryParam(hash);
    assert v[|v| - 1] == (if hash == [] then '=' else hash[|hash| - 1]);
    assert v[|v| - 1] != ".css"[3];
  }

  /** What one HTML file becomes: the `.css` pass, then the `.js` pass. */
  function BustFile(cs: seq<Chunk>, hash: string): (out: seq<Chunk>)
    ensures |out| == |cs|
  {
    BustAll(BustAll(cs, CssRule, QueryParam(hash)), JsRule, QueryParam(hash))
  }

  /** Each chunk of a file is rewritten by at most one of the passes. */
  lemma BustFileAt(cs: seq<Chunk>, hash: string, i: nat)
    requires i < |cs|
    ensures |BustFile(cs, hash)| == |cs|
    ensures BustFile(cs, hash)[i] == if Eligible(cs[i], CssRule) then BustChunk(cs[i], CssRule, QueryParam(hash))
                                     else BustChunk(cs[i], JsRule, QueryParam(hash))
  {
    RulesDisjoint(cs[i]);
    var c := cs[i];
    if Eligible(c, CssRule) {
      var b := BustChunk(c, CssRule, QueryParam(hash));
      assert StartsWith(b.open, "<link");
      assert b.open[1] == 'l';
      assert !StartsWith(b.open, "<script");
    }
  }

  /** With a digit hash, no attribute of the output matches either
      pattern any more: every one that matched has been given the
      parameter, and no other has changed. */
  lemma BustFileNoneEligible(cs: seq<Chunk>, hash: string)
    requires AllDigits(hash)
    ensures forall i :: 0 <= i < |cs| ==>
              !Eligible(BustFile(cs, hash)[i], CssRule) && !Eligible(BustFile(cs, hash)[i], JsRule)
  {
    forall i | 0 <= i < |cs|
      ensures !Eligible(BustFile(cs, hash)[i], CssRule) && !Eligible(BustFile(cs, hash)[i], JsRule)
    {
      BustFileAt(cs, hash, i);
      var c := cs[i];
      if Eligible(c, CssRule) || Eligible(c, JsRule) {
        BustedNotEligible(c.open, c.value, c.close, hash);
      }
    }
  }

  /** With a digit hash, running the script again on its own output, cut
      into the same chunks, changes nothing more. */
  lemma BustFileIdempotent(cs: seq<Chunk>, hash: string)
    requires AllDigits(hash)
    ensures BustFile(BustFile(cs, hash), hash) == BustFile(cs, hash)
  {
    var once := BustFile(cs, hash);
    forall i | 0 <= i < |cs|
      ensures BustFile(once, hash)[i] == once[i]
    {
      BustFileAt(cs, hash, i);
      BustFileAt(once, hash, i);
      var c := cs[i];
      if Eligible(c, CssRule) || Eligible(c, JsRule) {
        BustedNotEligible(c.open, c.value, c.close, hash);
      }
    }
  }

  /** The `.css` pass leaves the `.js` pass as many attributes as before. */
  lemma {:induction false} CssPassKeepsJsCount(cs: seq<Chunk>, hash: string)
    ensures CountEligible(BustAll(cs, CssRule, QueryParam(hash)), JsRule) == CountEligible(cs, JsRule)
  {
    if cs != [] {
      CssPassKeepsJsCount(cs[1..], hash);
      var c := cs[0];
      RulesDisjoint(c);
      if Eligible(c, CssRule) {
        var b := BustChunk(c, CssRule, QueryParam(hash));
        assert b.open[1] == 'l';
        assert !StartsWith(b.open, "<script");
      }
      assert BustAll(cs, CssRule, QueryParam(hash))[1..] == BustAll(cs[1..], CssRule, QueryParam(hash));
    }
  }

  /** A file grows by the parameter once per `.css` link and once per
      `.js` script. */
  lemma BustFileLength(cs: seq<Chunk>, hash: string)
    ensures |Flatten(BustFile(cs, hash))|
            == |Flatten(cs)| + |QueryParam(hash)| * (CountEligible(cs, CssRule) + CountEligible(cs, JsRule))
  {
    var p := QueryParam(hash);
    var css := BustAll(cs, CssRule, p);
    BustAllLength(cs, CssRule, p);
    CssPassKeepsJsCount(cs, hash);
    BustAllLength(css, JsRule, p);
    TwoPassLength(Flatten(cs), Flatten(css), Flatten(BustFile(cs, hash)), |p|,
                  CountEligible(cs, CssRule), CountEligible(cs, JsRule));
  }

  /** Two passes that add `p` characters `m` and then `n` times add them
      `m + n` times. */
  lemma TwoPassLength(s0: string, s1: string, s2: string, p: nat, m: nat, n: nat)
    requires |s1| == |s0| + p * m && |s2| == |s1| + p * n
    ensures |s2| == |s0| + p * (m + n)
  {
    MulAdd(p, m, n);
  }

  /** `<link href="a.css"` matches the `.css` pattern. */
  lemma LinkEligible()
    ensures Eligible(Attribute("<link href=\"", "a.css", '"'), CssRule)
  {
    var open := "<link href=\"";
    assert open[..5] == "<link" && open[6..11] == "href=";
    assert "a.css"[1..] == ".css";
  }

  /** `<script src='b.js'` matches the `.js` pattern. */
  lemma ScriptEligible()
    ensures Eligible(Attribute("<script src='", "b.js", '\''), JsRule)
  {
    var open := "<script src='";
    assert open[..7] == "<script" && open[8..12] == "src=";
    assert "b.js"[1..] == ".js";
  }

  /** A stylesheet link and a script include, each rewritten once. */
  lemma Example(hash: string)
    ensures var link := Attribute("<link href=\"", "a.css", '"');
            var script := Attribute("<script src='", "b.js", '\'');
            var p := QueryParam(hash);
            BustFile([link, Plain(">"), script], hash)
            == [Attribute(link.open, "a.css" + p, '"'), Plain(">"), Attribute(script.open, "b.js" + p, '\'')]
  {
    var link := Attribute("<link href=\"", "a.css", '"');
    var script := Attribute("<script src='", "b.js", '\'');
    LinkEligible();
    ScriptEligible();
    RulesDisjoint(script);
    var cs := [link, Plain(">"), script];
    BustFileAt(cs, hash, 0);
    BustFileAt(cs, hash, 1);
    BustFileAt(cs, hash, 2);
  }

  /** `get_build_hash`: `%Y%m%d%H%M%S` of the build time, for a four-digit
      year: fourteen digits, each field zero-padded. */
  function BuildHash(year: nat, month: nat, day: nat, hour: nat, minute: nat, second: nat): (h: string)
    requires 1000 <= year <= 9999 && month < 100 && day < 100 && hour < 100 && minute < 100 && second < 100
    ensures |h| == 14 && AllDigits(h)
    ensures DecimalValue(h[..4]) == year && DecimalValue(h[4..6]) == month && DecimalValue(h[6..8]) == day
    ensures DecimalValue(h[8..10]) == hour && DecimalValue(h[10..12]) == minute && DecimalValue(h[12..]) == second
  {
    var h := FourDigits(year) + TwoDigits(month) + TwoDigits(day) + TwoDigits(hour) + TwoDigits(minute) + TwoDigits(second);
    assert h[..4] == FourDigits(year);
    assert h[4..6] == TwoDigits(month) && h[6..8] == TwoDigits(day) && h[8..10] == TwoDigits(hour);
    assert h[10..12] == TwoDigits(minute) && h[12..] == TwoDigits(second);
    h
  }

  /** `%02d` of a number below 100. */
  function TwoDigits(n: nat): (s: string)
    requires n < 100
    ensures |s| == 2 && AllDigits(s) && DecimalValue(s) == n
  {
    var s := [DigitChar(n / 10)] + [DigitChar(n % 10)];
    DecimalAppend([], DigitChar(n / 10));
    DecimalAppend([DigitChar(n / 10)], DigitChar(n % 10));
    s
  }

  /** `%04d` of a number below 10000. */
  function FourDigits(n: nat): (s: string)
    requires n < 10000
    ensures |s| == 4 && AllDigits(s) && DecimalValue(s) == n
  {
    var hi := TwoDigits(n / 100);
    var lo := TwoDigits(n % 100);
    DecimalAppend(hi, lo[0]);
    DecimalAppend(hi + [lo[0]], lo[1]);
    assert hi + [lo[0]] + [lo[1]] == hi + lo;
    assert DecimalValue(lo) == 10 * DecimalValue(lo[..1]) + (lo[1] as int - '0' as int);
    assert DecimalValue(lo[..1]) == lo[0] as int - '0' as int by {
      assert lo[..1][..0] == [];
    }
    hi + lo
  }

  /** `add_cache_bust_to_files`: every HTML file of the site is replaced by
      its busted form, with one parameter for the whole run. */
  method AddCacheBustToFiles(files: array<seq<Chunk>>, hash: string)
    modifies files
    ensures forall i :: 0 <= i < files.Length ==> files[i] == BustFile(old(files[i]), hash)
  {
    var param := QueryParam(hash);
    var i := 0;
    while i < files.Length
      invariant 0 <= i <= files.Length
      invariant forall k :: 0 <= k < i ==> files[k] == BustFile(old(files[k]), hash)
      invariant forall k :: i <= k < files.Length ==> files[k] == old(files[k])
    {
      var content := files[i];
      content := BustAll(content, CssRule, param);
      content := BustAll(content, JsRule, param);
      files[i] := content;
      i := i + 1;
    }
  }
}
