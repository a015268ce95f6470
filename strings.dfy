/** The Option datatype shared by the modules of this project. */
module Wrappers {

  datatype Option<+T> = None | Some(value: T)
}

/** String helpers shared by the browser scripts and the build scripts:
    Python's whitespace class and `str.strip()`, prefix, suffix and
    substring tests, and decimal rendering of naturals (what JavaScript's
    `'' + n` gives). */
module Strings {

  /** The characters for which Python's `str.isspace` holds; they are what
      `str.strip()` removes and what `\s` matches in a `str` pattern. */
  predicate IsPyWhitespace(c: char) {
    ('\t' <= c <= '\r') || ('\U{1C}' <= c <= '\U{1F}') || c == ' '
    || c == '\U{85}' || c == '\U{A0}' || c == '\U{1680}' || ('\U{2000}' <= c <= '\U{200A}')
    || c == '\U{2028}' || c == '\U{2029}' || c == '\U{202F}' || c == '\U{205F}'
    || c == '\U{3000}'
  }

  /** `s` with its leading characters in `ws` removed. */
  function TrimStart(s: string, ws: char -> bool): (r: string)
    ensures |r| <= |s| && r == s[|s| - |r|..]
    ensures forall k :: 0 <= k < |s| - |r| ==> ws(s[k])
    ensures r == [] || !ws(r[0])
    decreases |s|
  {
    if |s| > 0 && ws(s[0]) then TrimStart(s[1..], ws) else s
  }

  /** `s` with its trailing characters in `ws` removed. */
  function TrimEnd(s: string, ws: char -> bool): (r: string)
    ensures |r| <= |s| && r == s[..|r|]
    ensures forall k :: |r| <= k < |s| ==> ws(s[k])
    ensures r == [] || !ws(r[|r| - 1])
    decreases |s|
  {
    if |s| > 0 && ws(s[|s| - 1]) then TrimEnd(s[..|s| - 1], ws) else s
  }

  /** `r` is the infix of `s` starting at `i`, and everything around it in
      `s` is a `ws` character. */
  predicate IsStripOf(s: string, r: string, i: nat, ws: char -> bool) {
    && i + |r| <= |s|
    && r == s[i..i + |r|]
    && (forall k :: 0 <= k < i ==> ws(s[k]))
    && (forall k :: i + |r| <= k < |s| ==> ws(s[k]))
  }

  /** `s` with the characters in `ws` removed at both ends; it neither
      begins nor ends with one of them. */
  function Strip(s: string, ws: char -> bool): (r: string)
    ensures |r| <= |s|
    ensures r == [] || (!ws(r[0]) && !ws(r[|r| - 1]))
  {
    TrimEnd(TrimStart(s, ws), ws)
  }

  /** The stripped string is the infix of `s` between runs of `ws`
      characters on either side. */
  lemma StripIsInfix(s: string, ws: char -> bool)
    ensures exists i: nat :: IsStripOf(s, Strip(s, ws), i, ws)
  {
    var t := TrimStart(s, ws);
    StripBounds(s, t, Strip(s, ws), ws);
  }

  /** The trimmed string sits in `s` with only `ws` characters around it. */
  lemma StripBounds(s: string, t: string, r: string, ws: char -> bool)
    requires |t| <= |s| && t == s[|s| - |t|..] && (forall k :: 0 <= k < |s| - |t| ==> ws(s[k]))
    requires |r| <= |t| && r == t[..|r|] && (forall k :: |r| <= k < |t| ==> ws(t[k]))
    ensures IsStripOf(s, r, |s| - |t|, ws)
  {
    var i := |s| - |t|;
    forall k | i + |r| <= k < |s|
      ensures ws(s[k])
    {
      assert s[k] == t[k - i];
    }
    assert s[i..i + |r|] == t[..|r|];
  }

  /** Python's `s.strip()`: no longer than `s`, and neither beginning
      nor ending with whitespace (StripIsInfix places it in `s`). */
  function PyStrip(s: string): (r: string)
    ensures |r| <= |s|
    ensures r == [] || (!IsPyWhitespace(r[0]) && !IsPyWhitespace(r[|r| - 1]))
    ensures (forall k :: 0 <= k < |s| ==> IsPyWhitespace(s[k])) ==> r == []
  {
    StripIsInfix(s, IsPyWhitespace);
    Strip(s, IsPyWhitespace)
  }

  /** The two quote characters of Python string literals and HTML
      attribute values. */
  predicate IsQuote(c: char) {
    c == '\'' || c == '"'
  }

  predicate StartsWith(s: string, prefix: string) {
    |prefix| <= |s| && s[..|prefix|] == prefix
  }

  predicate EndsWith(s: string, suffix: string) {
    |suffix| <= |s| && s[|s| - |suffix|..] == suffix
  }

  /** JavaScript's `s.includes(sub)`: `sub` occurs in `s` at some position;
      a substring is never longer than the string that holds it. */
  predicate Contains(s: string, sub: string)
    ensures Contains(s, sub) ==> |sub| <= |s|
    decreases |s|
  {
    StartsWith(s, sub) || (|s| > 0 && Contains(s[1..], sub))
  }

  /** `x` occurs in `s` at position `i`. */
  predicate OccursAt(s: string, i: nat, x: string) {
    i + |x| <= |s| && s[i..i + |x|] == x
  }

  /** `Contains` is the usual notion of a substring: `sub` is the slice of
      `s` at some position. */
  lemma {:induction false} ContainsIff(s: string, sub: string)
    ensures Contains(s, sub) <==> exists i: nat :: OccursAt(s, i, sub)
    decreases |s|
  {
    if StartsWith(s, sub) {
      assert OccursAt(s, 0, sub);
    } else if |s| > 0 {
      ContainsIff(s[1..], sub);
      if Contains(s[1..], sub) {
        var j: nat :| OccursAt(s[1..], j, sub);
        assert s[j + 1..j + 1 + |sub|] == s[1..][j..j + |sub|];
        assert OccursAt(s, j + 1, sub);
      }
      if exists i: nat :: OccursAt(s, i, sub) {
        var i: nat :| OccursAt(s, i, sub);
        assert i != 0;
        assert s[1..][i - 1..i - 1 + |sub|] == s[i..i + |sub|];
        assert OccursAt(s[1..], i - 1, sub);
      }
    }
  }

  /** Appending text keeps every substring a substring. */
  lemma {:induction false} ContainsAppend(s: string, t: string, sub: string)
    requires Contains(s, sub)
    ensures Contains(s + t, sub)
    decreases |s|
  {
    if StartsWith(s, sub) {
      assert (s + t)[..|sub|] == s[..|sub|];
    } else {
      ContainsAppend(s[1..], t, sub);
      assert (s + t)[1..] == s[1..] + t;
    }
  }

  /** Every character of a substring is a character of the string. */
  lemma {:induction false} ContainsChar(s: string, sub: string, c: char)
    requires Contains(s, sub) && c in sub
    ensures c in s
    decreases |s|
  {
    if StartsWith(s, sub) {
      assert c in s[..|sub|];
    } else {
      ContainsChar(s[1..], sub, c);
    }
  }

  /** How many UTF-16 code units `c` takes: two for a character outside
      the Basic Multilingual Plane (a surrogate pair), one otherwise. */
  function Utf16Units(c: char): nat {
    if c as int >= 0x1_0000 then 2 else 1
  }

  /** JavaScript's `s.length`: the number of UTF-16 code units of `s`. */
  function Utf16Length(s: string): (n: nat)
    ensures |s| <= n <= 2 * |s|
  {
    if s == [] then 0 else Utf16Length(s[..|s| - 1]) + Utf16Units(s[|s| - 1])
  }

  /** The UTF-16 length of a concatenation is the sum of the lengths. */
  lemma {:induction false} Utf16LengthAppend(s: string, t: string)
    ensures Utf16Length(s + t) == Utf16Length(s) + Utf16Length(t)
    decreases |t|
  {
    if t != [] {
      var t' := t[..|t| - 1];
      Utf16LengthAppend(s, t');
      assert (s + t)[..|s + t| - 1] == s + t';
      assert (s + t)[|s + t| - 1] == t[|t| - 1];
      assert Utf16Length(s + t) == Utf16Length(s + t') + Utf16Units(t[|t| - 1]);
    } else {
      assert s + t == s;
    }
  }

  /** The UTF-16 length is the number of characters exactly when every
      character lies in the Basic Multilingual Plane. */
  lemma {:induction false} Utf16LengthBmp(s: string)
    ensures Utf16Length(s) == |s| <==> forall k :: 0 <= k < |s| ==> s[k] as int < 0x1_0000
    decreases |s|
  {
    if s != [] {
      var s' := s[..|s| - 1];
      Utf16LengthBmp(s');
      if forall k :: 0 <= k < |s| ==> s[k] as int < 0x1_0000 {
        assert forall k :: 0 <= k < |s'| ==> s'[k] == s[k];
      } else {
        var k :| 0 <= k < |s| && s[k] as int >= 0x1_0000;
        if k < |s'| {
          assert s'[k] == s[k];
        }
      }
    }
  }

  predicate IsDigit(c: char) {
    '0' <= c <= '9'
  }

  predicate AllDigits(s: string) {
    forall k :: 0 <= k < |s| ==> IsDigit(s[k])
  }

  function DigitChar(d: nat): (c: char)
    requires d < 10
    ensures IsDigit(c) && c as int - '0' as int == d
  {
    (d + '0' as int) as char
  }

  /** The decimal rendering of a natural number, as JavaScript's string
      concatenation and `Date.now()` produce it: digits only, no sign, no
      leading zero. */
  function NatToDecimal(n: nat): (s: string)
    ensures |s| >= 1 && AllDigits(s)
    ensures s[0] == '0' ==> n == 0
    decreases n
  {
    if n < 10 then [DigitChar(n)] else NatToDecimal(n / 10) + [DigitChar(n % 10)]
  }

  /** The value of a string of decimal digits. */
  function DecimalValue(s: string): nat
    requires AllDigits(s)
  {
    if s == [] then 0 else 10 * DecimalValue(s[..|s| - 1]) + (s[|s| - 1] as int - '0' as int)
  }

  /** Appending a digit multiplies the value by ten and adds the digit. */
  lemma DecimalAppend(s: string, c: char)
    requires AllDigits(s) && IsDigit(c)
    ensures AllDigits(s + [c])
    ensures DecimalValue(s + [c]) == 10 * DecimalValue(s) + (c as int - '0' as int)
  {
    assert (s + [c])[..|s|] == s;
  }

  /** Reading back a rendered natural gives the natural. */
  lemma {:induction false} DecimalRoundTrip(n: nat)
    ensures DecimalValue(NatToDecimal(n)) == n
    decreases n
  {
    var s := NatToDecimal(n);
    if n >= 10 {
      DecimalRoundTrip(n / 10);
      assert s[..|s| - 1] == NatToDecimal(n / 10);
    }
  }

  /** Distinct naturals have distinct decimal renderings. */
  lemma DecimalInjective(m: nat, n: nat)
    requires m != n
    ensures NatToDecimal(m) != NatToDecimal(n)
  {
    DecimalRoundTrip(m);
    DecimalRoundTrip(n);
  }
}
