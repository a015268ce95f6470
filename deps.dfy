/** The dependency validator of scripts/validate_dependencies.py: every
    MkDocs plugin that needs a package must have it pinned in
    requirements.txt, every `{{ read_csv('...') }}` reference in the
    markdown sources must name a file under docs/, and the site must build.
    The script's exit status is 0 exactly when every check passes.

    File contents are inputs (a file is absent or a sequence of lines, a
    markdown file is its text), existence under docs/ is a set of paths,
    the YAML configuration is already loaded, and the outcome of the
    `mkdocs build` subprocess is a parameter. */
module Dependencies {
  import opened Wrappers
  import opened Strings

  /** Which plugins need which package; `None` for one built into MkDocs. */
  const PluginPackages: map<string, Option<string>> := map[
    "search" := None,
    "git-revision-date" := Some("mkdocs-git-revision-date-plugin"),
    "table-reader" := Some("mkdocs-table-reader-plugin")]

  // ---------------------------------------------------------------------------
  // requirements.txt

  /** The class `[a-zA-Z0-9\-_]` of package-name characters. */
  predicate IsNameChar(c: char) {
    ('a' <= c <= 'z') || ('A' <= c <= 'Z') || ('0' <= c <= '9') || c == '-' || c == '_'
  }

  predicate IsName(s: string) {
    s != [] && forall k :: 0 <= k < |s| ==> IsNameChar(s[k])
  }

  /** The length of the longest prefix of `s` made of name characters. */
  function NameSpan(s: string): (n: nat)
    ensures n <= |s|
    ensures forall k :: 0 <= k < n ==> IsNameChar(s[k])
    ensures n < |s| ==> !IsNameChar(s[n])
    decreases |s|
  {
    if s != [] && IsNameChar(s[0]) then 1 + NameSpan(s[1..]) else 0
  }

  /** `re.match(r'^([a-zA-Z0-9\-_]+)==(.+)$', line)` on a stripped line: the
      name is the whole leading run of name characters (no `=` can be in
      it), it is followed by `==`, and the version is everything after that,
      non-empty and without a line feed. */
  function MatchRequirement(line: string): (m: Option<(string, string)>)
    ensures m.Some? ==> && line == m.value.0 + "==" + m.value.1
                        && IsName(m.value.0) && '=' !in m.value.0
                        && m.value.1 != [] && '\n' !in m.value.1
  {
    var n := NameSpan(line);
    if n > 0 && |line| > n + 2 && line[n..n + 2] == "==" && '\n' !in line[n + 2..] then
      assert line == line[..n] + "==" + line[n + 2..];
      Some((line[..n], line[n + 2..]))
    else
      None
  }

  /** Every line of the `name==version` form matches, with that name and
      that version. */
  lemma MatchRequirementComplete(name: string, version: string)
    requires IsName(name) && version != [] && '\n' !in version
    ensures MatchRequirement(name + "==" + version) == Some((name, version))
  {
    var line := name + "==" + version;
    var n := NameSpan(line);
    assert line[|name|] == '=';
    assert n == |name|;
    assert line[n..n + 2] == "==";
    assert line[..n] == name;
    assert line[n + 2..] == version;
  }

  /** A version that itself starts with `=` stays in the version: the name
      stops at the first `=`. */
  lemma TripleEquals()
    ensures MatchRequirement("foo===1") == Some(("foo", "=1"))
  {
    MatchRequirementComplete("foo", "=1");
    assert "foo" + "==" + "=1" == "foo===1";
  }

  /** What one line of requirements.txt is, once stripped. */
  datatype Line = Skipped | Requirement(name: string, version: string) | Unparsable(text: string)

  /** The body of the `for line in f` loop on a stripped line: blank and
      `#` lines are skipped silently, a `name==version` line is a
      requirement, and anything else is reported as a warning. */
  function Classify(line: string): (l: Line)
    ensures l.Skipped? <==> line == [] || line[0] == '#'
    ensures l.Requirement? ==> MatchRequirement(line) == Some((l.name, l.version))
    ensures l.Unparsable? ==> l.text == line && MatchRequirement(line).None?
  {
    if line == [] || line[0] == '#' then Skipped
    else match MatchRequirement(line)
      case Some((name, version)) => Requirement(name, version)
      case None => Unparsable(line)
  }

  /** What each line of the file is, once stripped. */
  function Parsed(lines: seq<string>): seq<Line> {
    seq(|lines|, i requires 0 <= i < |lines| => Classify(PyStrip(lines[i])))
  }

  /** The packages mapping after the loop over the classified lines: each
      requirement sets its name to its version. */
  function Requirements(parsed: seq<Line>): map<string, string> {
    if parsed == [] then map[]
    else
      var rest := Requirements(parsed[..|parsed| - 1]);
      match parsed[|parsed| - 1]
      case Requirement(name, version) => rest[name := version]
      case _ => rest
  }

  /** The warnings printed by the loop over the classified lines, in order. */
  function Warnings(parsed: seq<Line>): seq<string> {
    if parsed == [] then []
    else
      var rest := Warnings(parsed[..|parsed| - 1]);
      match parsed[|parsed| - 1]
      case Unparsable(text) => rest + [text]
      case _ => rest
  }

  predicate DeclaresAt(parsed: seq<Line>, i: nat, name: string)
    requires i < |parsed|
  {
    parsed[i].Requirement? && parsed[i].name == name
  }

  /** A name is in the mapping exactly when some line declares it, and then
      its version is the one of the last line that declares it. */
  lemma {:induction false} RequirementsSpec(parsed: seq<Line>, name: string)
    ensures name in Requirements(parsed) <==> exists i :: 0 <= i < |parsed| && DeclaresAt(parsed, i, name)
    ensures name in Requirements(parsed) ==>
              exists i :: && 0 <= i < |parsed| && DeclaresAt(parsed, i, name)
                          && Requirements(parsed)[name] == parsed[i].version
                          && forall j :: i < j < |parsed| ==> !DeclaresAt(parsed, j, name)
  {
    if parsed != [] {
      var n := |parsed| - 1;
      var init := parsed[..n];
      RequirementsSpec(init, name);
      var last := parsed[n];
      assert Requirements(parsed) == if last.Requirement? then Requirements(init)[last.name := last.version]
                                     else Requirements(init);
      if DeclaresAt(parsed, n, name) {
        assert Requirements(parsed)[name] == parsed[n].version;
      } else {
        assert name in Requirements(parsed) <==> name in Requirements(init);
        if name in Requirements(init) {
          var i :| && 0 <= i < n && DeclaresAt(init, i, name)
                   && Requirements(init)[name] == init[i].version
                   && forall j :: i < j < n ==> !DeclaresAt(init, j, name);
          assert DeclaresAt(parsed, i, name);
          assert Requirements(parsed)[name] == parsed[i].version;
          forall j | i < j < |parsed|
            ensures !DeclaresAt(parsed, j, name)
          {
            if j < n {
              assert !DeclaresAt(init, j, name);
              assert init[j] == parsed[j];
            }
          }
        }
        if exists i :: 0 <= i < |parsed| && DeclaresAt(parsed, i, name) {
          var i :| 0 <= i < |parsed| && DeclaresAt(parsed, i, name);
          assert DeclaresAt(init, i, name);
        }
      }
    }
  }

  /** Exactly the lines that are neither blank, comments nor requirements
      are warned about. */
  lemma {:induction false} WarningsSpec(parsed: seq<Line>)
    ensures |Warnings(parsed)| <= |parsed|
    ensures forall w :: w in Warnings(parsed) <==> exists i :: 0 <= i < |parsed| && parsed[i] == Unparsable(w)
  {
    if parsed != [] {
      var n := |parsed| - 1;
      var init := parsed[..n];
      WarningsSpec(init);
      var extra := if parsed[n].Unparsable? then [parsed[n].text] else [];
      assert Warnings(parsed) == Warnings(init) + extra;
      forall w ensures (w in Warnings(parsed) <==> exists i :: 0 <= i < |parsed| && parsed[i] == Unparsable(w)) {
        if w in Warnings(init) {
          var i :| 0 <= i < n && init[i] == Unparsable(w);
          assert parsed[i] == Unparsable(w);
        } else if w in extra {
          assert parsed[n] == Unparsable(w);
        }
        if exists i :: 0 <= i < |parsed| && parsed[i] == Unparsable(w) {
          var i :| 0 <= i < |parsed| && parsed[i] == Unparsable(w);
          if i < n {
            assert init[i] == Unparsable(w);
          }
        }
      }
    }
  }

  /** One more line extends both folds by what that line is. */
  lemma FoldStep(parsed: seq<Line>, i: nat)
    requires i < |parsed|
    ensures Requirements(parsed[..i + 1]) == match parsed[i]
              case Requirement(name, version) => Requirements(parsed[..i])[name := version]
              case _ => Requirements(parsed[..i])
    ensures Warnings(parsed[..i + 1]) == match parsed[i]
              case Unparsable(text) => Warnings(parsed[..i]) + [text]
              case _ => Warnings(parsed[..i])
  {
    assert parsed[..i + 1][..i] == parsed[..i];
  }

  /** `load_requirements`: `None` when the file is missing; otherwise the
      mapping from every declared name to its last declared version, and
      the warnings for the lines that are neither blank, comments nor
      requirements. */
  method LoadRequirements(file: Option<seq<string>>) returns (packages: Option<map<string, string>>, warnings: seq<string>)
    ensures file.None? ==> packages.None? && warnings == []
    ensures file.Some? ==> && packages == Some(Requirements(Parsed(file.value)))
                           && warnings == Warnings(Parsed(file.value))
  {
    if file.None? {
      return None, [];
    }
    var lines := file.value;
    ghost var parsed := Parsed(lines);
    var found: map<string, string> := map[];
    warnings := [];
    var i := 0;
    while i < |lines|
      invariant 0 <= i <= |lines|
      invariant found == Requirements(parsed[..i])
      invariant warnings == Warnings(parsed[..i])
    {
      FoldStep(parsed, i);
      var line := Classify(PyStrip(lines[i]));
      assert line == parsed[i];
      match line {
        case Requirement(name, version) =>
          found := found[name := version];
        case Unparsable(line) =>
          warnings := warnings + [line];
        case Skipped =>
      }
      i := i + 1;
    }
    assert parsed[..i] == parsed;
    packages := Some(found);
  }

  // ---------------------------------------------------------------------------
  // Plugins

  /** An entry of the `plugins` list of mkdocs.yml: a name, a mapping (its
      keys, in order), or some other YAML value. */
  datatype PluginEntry = PluginString(name: string) | PluginMapping(keys: seq<string>) | PluginOther

  /** The loaded mkdocs.yml: a mapping with its `plugins` list (empty when
      the key is missing or null), or some other YAML value. */
  datatype ConfigDoc = ConfigMapping(plugins: seq<PluginEntry>) | ConfigOther

  /** What a check does: return a verdict, or raise an exception. */
  datatype CheckResult = Returned(passed: bool) | Raised

  /** `plugin if isinstance(plugin, str) else list(plugin.keys())[0]`:
      `None` where that expression raises (an empty mapping, a value that
      is neither a string nor a mapping). */
  function PluginName(entry: PluginEntry): (name: Option<string>)
    ensures entry.PluginString? ==> name == Some(entry.name)
    ensures entry.PluginMapping? ==> (name.Some? <==> entry.keys != []) && (name.Some? ==> name.value == entry.keys[0])
    ensures entry.PluginOther? ==> name.None?
  {
    match entry
    case PluginString(n) => Some(n)
    case PluginMapping(keys) => if keys == [] then None else Some(keys[0])
    case PluginOther => None
  }

  /** A plugin is fine unless it is known to need a package that the
      requirements do not pin. */
  predicate PluginSatisfied(name: string, requirements: map<string, string>) {
    name in PluginPackages && PluginPackages[name].Some? ==> PluginPackages[name].value in requirements
  }

  /** The verdict on a plugin list once requirements.txt is loaded: an
      exception when some entry has no name, otherwise `True` exactly when
      every plugin is satisfied (so `True` for an empty list). */
  function PluginListVerdict(plugins: seq<PluginEntry>, requirements: map<string, string>): CheckResult {
    if exists k :: 0 <= k < |plugins| && PluginName(plugins[k]).None? then Raised
    else Returned(forall k :: 0 <= k < |plugins| ==> PluginSatisfied(PluginName(plugins[k]).value, requirements))
  }

  /** What `check_plugins` promises: `False` when mkdocs.yml is missing (or
      empty) or requirements.txt is missing, an exception when the
      configuration is not a mapping, and otherwise the verdict on its
      plugin list. */
  function PluginsVerdict(config: Option<ConfigDoc>, requirementsFile: Option<seq<string>>): CheckResult {
    if config.None? || requirementsFile.None? then Returned(false)
    else if config.value.ConfigOther? then Raised
    else PluginListVerdict(config.value.plugins, Requirements(Parsed(requirementsFile.value)))
  }

  /** The loop of `check_plugins` over the plugin list. */
  method CheckPluginList(plugins: seq<PluginEntry>, requirements: map<string, string>) returns (r: CheckResult)
    ensures r == PluginListVerdict(plugins, requirements)
  {
    if plugins == [] {
      return Returned(true);
    }
    var allOk := true;
    var i := 0;
    while i < |plugins|
      invariant 0 <= i <= |plugins|
      invariant forall k :: 0 <= k < i ==> PluginName(plugins[k]).Some?
      invariant allOk == forall k :: 0 <= k < i ==> PluginSatisfied(PluginName(plugins[k]).value, requirements)
    {
      var name := PluginName(plugins[i]);
      if name.None? {
        return Raised;
      }
      if name.value in PluginPackages {
        var package := PluginPackages[name.value];
        if package.Some? && package.value !in requirements {
          allOk := false;
        }
      }
      i := i + 1;
    }
    return Returned(allOk);
  }

  /** `check_plugins`. */
  method CheckPlugins(config: Option<ConfigDoc>, requirementsFile: Option<seq<string>>) returns (r: CheckResult)
    ensures r == PluginsVerdict(config, requirementsFile)
  {
    if config.None? {
      return Returned(false);
    }
    var requirements, _ := LoadRequirements(requirementsFile);
    if requirements.None? {
      return Returned(false);
    }
    if config.value.ConfigOther? {
      return Raised;
    }
    r := CheckPluginList(config.value.plugins, requirements.value);
  }

  /** An empty plugin list passes, and so does a list of named built-in and
      unknown plugins, in string or mapping form, whatever the requirements. */
  lemma PluginsWithoutPackagesPass(plugins: seq<PluginEntry>, lines: seq<string>)
    requires forall k :: 0 <= k < |plugins| ==>
               PluginName(plugins[k]).Some? &&
               (PluginName(plugins[k]).value !in PluginPackages || PluginPackages[PluginName(plugins[k]).value].None?)
    ensures PluginsVerdict(Some(ConfigMapping(plugins)), Some(lines)) == Returned(true)
  {
  }

  /** The plugin is known to need a package that no line of the file
      declares. */
  predicate NeedsMissing(name: string, parsed: seq<Line>) {
    && name in PluginPackages && PluginPackages[name].Some?
    && forall i :: 0 <= i < |parsed| ==> !DeclaresAt(parsed, i, PluginPackages[name].value)
  }

  /** When every entry has a name, the check fails exactly when some plugin
      needs a package that no line of requirements.txt declares. */
  lemma PluginsFailIff(plugins: seq<PluginEntry>, lines: seq<string>)
    requires forall j :: 0 <= j < |plugins| ==> PluginName(plugins[j]).Some?
    ensures PluginsVerdict(Some(ConfigMapping(plugins)), Some(lines)) == Returned(false)
            <==> exists k :: 0 <= k < |plugins| && NeedsMissing(PluginName(plugins[k]).value, Parsed(lines))
  {
    PluginListFailIff(plugins, Parsed(lines));
  }

  /** The same on the classified lines. */
  lemma PluginListFailIff(plugins: seq<PluginEntry>, parsed: seq<Line>)
    requires forall j :: 0 <= j < |plugins| ==> PluginName(plugins[j]).Some?
    ensures PluginListVerdict(plugins, Requirements(parsed)) == Returned(false)
            <==> exists k :: 0 <= k < |plugins| && NeedsMissing(PluginName(plugins[k]).value, parsed)
  {
    forall k | 0 <= k < |plugins|
      ensures PluginSatisfied(PluginName(plugins[k]).value, Requirements(parsed))
              <==> !NeedsMissing(PluginName(plugins[k]).value, parsed)
    {
      SatisfiedIff(PluginName(plugins[k]).value, parsed);
    }
  }

  /** A plugin is satisfied exactly when it does not need a package that no
      line declares. */
  lemma SatisfiedIff(name: string, parsed: seq<Line>)
    ensures PluginSatisfied(name, Requirements(parsed)) <==> !NeedsMissing(name, parsed)
  {
    if name in PluginPackages && PluginPackages[name].Some? {
      RequirementsSpec(parsed, PluginPackages[name].value);
    }
  }

  /** A `table-reader` entry fails the check when no line declares its
      package. */
  lemma MissingPackageFails(plugins: seq<PluginEntry>, lines: seq<string>, k: nat)
    requires forall j :: 0 <= j < |plugins| ==> PluginName(plugins[j]).Some?
    requires k < |plugins| && plugins[k] == PluginString("table-reader")
    requires forall i :: 0 <= i < |lines| ==> !DeclaresAt(Parsed(lines), i, "mkdocs-table-reader-plugin")
    ensures PluginsVerdict(Some(ConfigMapping(plugins)), Some(lines)) == Returned(false)
  {
    PluginsFailIff(plugins, lines);
    assert NeedsMissing(PluginName(plugins[k]).value, Parsed(lines));
  }

  // ---------------------------------------------------------------------------
  // CSV references

  /** The end of the run of `\s` characters of `s` that starts at `i`. */
  function SkipSpace(s: string, i: nat): (j: nat)
    requires i <= |s|
    ensures i <= j <= |s|
    ensures forall k :: i <= k < j ==> IsPyWhitespace(s[k])
    ensures j < |s| ==> !IsPyWhitespace(s[j])
    decreases |s| - i
  {
    if i < |s| && IsPyWhitespace(s[i]) then SkipSpace(s, i + 1) else i
  }

  /** The end of the run of `[^'"]` characters of `s` that starts at `i`. */
  function SkipNonQuote(s: string, i: nat): (j: nat)
    requires i <= |s|
    ensures i <= j <= |s|
    ensures forall k :: i <= k < j ==> !IsQuote(s[k])
    ensures j < |s| ==> IsQuote(s[j])
    decreases |s| - i
  {
    if i < |s| && !IsQuote(s[i]) then SkipNonQuote(s, i + 1) else i
  }

  /** `p` holds no quote character. */
  predicate QuoteFree(p: string) {
    forall k :: 0 <= k < |p| ==> !IsQuote(p[k])
  }

  /** A match of `\{\{\s*read_csv\(['"]([^'"]+)['"]\)\s*\}\}` that starts at
      position `i` of `s`: the captured path and where the match ends. The
      path is non-empty and holds no quote, and the match begins with `{{`
      and ends with `}}` (MatchCsvAtSound places every other part). */
  function MatchCsvAt(s: string, i: nat): (m: Option<(string, nat)>)
    requires i <= |s|
    ensures m.Some? ==>
              && i + 4 <= m.value.1 <= |s|
              && m.value.0 != []
              && QuoteFree(m.value.0)
              && OccursAt(s, i, "{{") && OccursAt(s, m.value.1 - 2, "}}")
  {
    if !OccursAt(s, i, "{{") then None
    else
      var a := SkipSpace(s, i + 2);
      if !OccursAt(s, a, "read_csv(") then None
      else
        var q := a + 9;
        if q >= |s| || !IsQuote(s[q]) then None
        else
          var e := SkipNonQuote(s, q + 1);
          if e == q + 1 || e + 1 >= |s| || s[e + 1] != ')' then None
          else
            var b := SkipSpace(s, e + 2);
            if !OccursAt(s, b, "}}") then None
            else Some((s[q + 1..e], b + 2))
  }

  /** `csv_pattern.findall` from position `i`: at each position a match is
      taken and the search goes on after it, or the search moves one
      character on. Every path found is non-empty and holds no quote. */
  function FindAllFrom(s: string, i: nat): (paths: seq<string>)
    requires i <= |s|
    ensures forall k :: 0 <= k < |paths| ==> paths[k] != [] && QuoteFree(paths[k])
    ensures 4 * |paths| <= |s| - i
    decreases |s| - i
  {
    if i == |s| then []
    else match MatchCsvAt(s, i)
      case Some((path, end)) => [path] + FindAllFrom(s, end)
      case None => FindAllFrom(s, i + 1)
  }

  /** Every path `findall` returns from `i` on is the capture of a match of
      the pattern at some position `j >= i`. */
  lemma {:induction false} FindAllFromMatched(s: string, i: nat, k: nat)
    requires i <= |s| && k < |FindAllFrom(s, i)|
    ensures exists j :: i <= j <= |s| && MatchCsvAt(s, j).Some? && MatchCsvAt(s, j).value.0 == FindAllFrom(s, i)[k]
    decreases |s| - i
  {
    if i < |s| {
      var m := MatchCsvAt(s, i);
      if m.Some? {
        var rest := FindAllFrom(s, m.value.1);
        assert FindAllFrom(s, i) == [m.value.0] + rest;
        if k > 0 {
          FindAllFromMatched(s, m.value.1, k - 1);
        }
      } else {
        assert FindAllFrom(s, i) == FindAllFrom(s, i + 1);
        FindAllFromMatched(s, i + 1, k);
      }
    }
  }

  /** The CSV paths referenced in the text of one markdown file, in order. */
  function CsvReferences(content: string): (paths: seq<string>)
    ensures forall k :: 0 <= k < |paths| ==> paths[k] != [] && QuoteFree(paths[k])
    ensures 4 * |paths| <= |content|
    ensures !Contains(content, "{{") ==> paths == []
  {
    assert content[0..] == content;
    NoBracesNoMatch(content, 0);
    FindAllFrom(content, 0)
  }

  /** Without `{{` from position `i` on, no match starts there. */
  lemma {:induction false} NoBracesNoMatch(s: string, i: nat)
    requires i <= |s|
    ensures !Contains(s[i..], "{{") ==> FindAllFrom(s, i) == []
    decreases |s| - i
  {
    if i < |s| && !Contains(s[i..], "{{") {
      assert !OccursAt(s, i, "{{");
      assert s[i..][1..] == s[i + 1..];
      NoBracesNoMatch(s, i + 1);
    }
  }

  /** When each part of the pattern is found where the previous one ends,
      the match at `i` captures the text between the quotes and ends after
      the closing braces. */
  lemma MatchCsvAtFound(s: string, i: nat, a: nat, e: nat, b: nat)
    requires i <= |s| && OccursAt(s, i, "{{")
    requires SkipSpace(s, i + 2) == a && OccursAt(s, a, "read_csv(") && a + 9 < |s| && IsQuote(s[a + 9])
    requires SkipNonQuote(s, a + 10) == e && a + 10 < e && e + 1 < |s| && s[e + 1] == ')'
    requires SkipSpace(s, e + 2) == b && OccursAt(s, b, "}}")
    ensures MatchCsvAt(s, i) == Some((s[a + 10..e], b + 2))
  {
    var q := a + 9;
    assert !(q >= |s| || !IsQuote(s[q]));
    assert SkipNonQuote(s, q + 1) == e;
    assert !(e == q + 1 || e + 1 >= |s| || s[e + 1] != ')');
    assert SkipSpace(s, e + 2) == b && OccursAt(s, b, "}}");
  }

  /** What a match at `i` consists of: `{{`, whitespace, `read_csv(` and a
      quote, then the captured path, then a quote, `)`, whitespace and the
      `}}` that end the match. */
  lemma MatchCsvAtSound(s: string, i: nat)
    requires i <= |s| && MatchCsvAt(s, i).Some?
    ensures OccursAt(s, i, "{{") &&
            var a := SkipSpace(s, i + 2);
            && OccursAt(s, a, "read_csv(") && a + 10 < |s| && IsQuote(s[a + 9])
            && var e := SkipNonQuote(s, a + 10);
               && a + 10 < e && e + 1 < |s| && IsQuote(s[e]) && s[e + 1] == ')'
               && MatchCsvAt(s, i).value.0 == s[a + 10..e]
               && OccursAt(s, SkipSpace(s, e + 2), "}}")
               && MatchCsvAt(s, i).value.1 == SkipSpace(s, e + 2) + 2
  {
    var a := SkipSpace(s, i + 2);
    var e := SkipNonQuote(s, a + 10);
    var b := SkipSpace(s, e + 2);
    assert MatchCsvAt(s, i) == Some((s[a + 10..e], b + 2));
  }

  /** A reference written the usual way is found. */
  lemma CsvReferenceExample()
    ensures CsvReferences("{{ read_csv('a') }}") == ["a"]
  {
    var s := "{{ read_csv('a') }}";
    ExampleSkips(s);
    MatchCsvAtFound(s, 0, 3, 14, 17);
    assert s[13..14] == "a";
  }

  /** Where the parts of the example reference begin and end. */
  lemma ExampleSkips(s: string)
    requires s == "{{ read_csv('a') }}"
    ensures OccursAt(s, 0, "{{") && OccursAt(s, 3, "read_csv(") && IsQuote(s[12]) && s[15] == ')' && OccursAt(s, 17, "}}")
    ensures SkipSpace(s, 2) == 3 && SkipNonQuote(s, 13) == 14 && SkipSpace(s, 16) == 17
  {
    assert s[2] == ' ' && s[3] == 'r' && s[13] == 'a' && s[14] == '\'' && s[16] == ' ' && s[17] == '}';
  }

  predicate AllPresent(paths: seq<string>, present: set<string>) {
    forall k :: 0 <= k < |paths| ==> paths[k] in present
  }

  /** What `check_csv_files` promises: `False` when docs/ is missing;
      otherwise `True` exactly when every path referenced in every markdown
      file names an existing file under docs/ (so `True` when there are no
      markdown files or no references). */
  function CsvVerdict(docsExists: bool, markdownFiles: seq<string>, docsFiles: set<string>): bool {
    docsExists && forall f :: 0 <= f < |markdownFiles| ==> AllPresent(CsvReferences(markdownFiles[f]), docsFiles)
  }

  /** `check_csv_files`: every reference of every markdown file is checked,
      even after one is found missing. */
  method CheckCsvFiles(docsExists: bool, markdownFiles: seq<string>, docsFiles: set<string>) returns (ok: bool)
    ensures ok == CsvVerdict(docsExists, markdownFiles, docsFiles)
  {
    if !docsExists {
      return false;
    }
    var allOk := true;
    if markdownFiles == [] {
      return true;
    }
    var f := 0;
    while f < |markdownFiles|
      invariant 0 <= f <= |markdownFiles|
      invariant allOk == forall g :: 0 <= g < f ==> AllPresent(CsvReferences(markdownFiles[g]), docsFiles)
    {
      var matches := CsvReferences(markdownFiles[f]);
      ghost var before := allOk;
      var m := 0;
      while m < |matches|
        invariant 0 <= m <= |matches|
        invariant allOk == (before && forall k :: 0 <= k < m ==> matches[k] in docsFiles)
      {
        if matches[m] !in docsFiles {
          allOk := false;
        }
        m := m + 1;
      }
      f := f + 1;
    }
    return allOk;
  }

  // ---------------------------------------------------------------------------
  // The build check and main

  /** How the `mkdocs build --strict` subprocess ended. */
  datatype BuildOutcome = BuildSucceeded | BuildFailed | BuildTimedOut | MkdocsNotFound

  /** `check_mkdocs_build`: a missing `mkdocs` command is not a failure. */
  function BuildVerdict(outcome: BuildOutcome): (passed: bool)
    ensures passed <==> outcome == BuildSucceeded || outcome == MkdocsNotFound
  {
    match outcome
    case BuildSucceeded => true
    case BuildFailed => false
    case BuildTimedOut => false
    case MkdocsNotFound => true
  }

  /** Everything the checks read from the project. */
  datatype Project = Project(
    config: Option<ConfigDoc>, requirementsFile: Option<seq<string>>,
    docsExists: bool, markdownFiles: seq<string>, docsFiles: set<string>,
    build: BuildOutcome)

  datatype CheckName = PluginDependencies | CsvFileReferences | MkdocsBuild

  /** The `checks` list of `main`, in order. */
  const Checks: seq<CheckName> := [PluginDependencies, CsvFileReferences, MkdocsBuild]

  function Outcome(check: CheckName, p: Project): CheckResult {
    match check
    case PluginDependencies => PluginsVerdict(p.config, p.requirementsFile)
    case CsvFileReferences => Returned(CsvVerdict(p.docsExists, p.markdownFiles, p.docsFiles))
    case MkdocsBuild => Returned(BuildVerdict(p.build))
  }

  /** `check_func()` for one entry of `checks`. */
  method RunCheck(check: CheckName, p: Project) returns (r: CheckResult)
    ensures r == Outcome(check, p)
  {
    match check {
      case PluginDependencies =>
        r := CheckPlugins(p.config, p.requirementsFile);
      case CsvFileReferences =>
        var ok := CheckCsvFiles(p.docsExists, p.markdownFiles, p.docsFiles);
        r := Returned(ok);
      case MkdocsBuild =>
        r := Returned(BuildVerdict(p.build));
    }
  }

  /** How `main` ends: with an exit status, or with an exception that
      escapes it (and ends the script with a traceback). */
  datatype MainOutcome = ExitStatus(code: int) | Uncaught

  /** `main` (the validation run): runs every check in turn, whatever the earlier ones returned,
      and exits with 0 exactly when all of them passed and 1 when one
      failed; an exception in a check escapes `main`. */
  method Validate(p: Project) returns (outcome: MainOutcome, results: map<CheckName, bool>)
    ensures outcome == Uncaught <==> exists k :: 0 <= k < |Checks| && Outcome(Checks[k], p).Raised?
    ensures outcome == ExitStatus(0) <==> forall k :: 0 <= k < |Checks| ==> Outcome(Checks[k], p) == Returned(true)
    ensures outcome == ExitStatus(1) <==>
              && (forall k :: 0 <= k < |Checks| ==> Outcome(Checks[k], p).Returned?)
              && (exists k :: 0 <= k < |Checks| && Outcome(Checks[k], p) == Returned(false))
    ensures outcome.ExitStatus? ==>
              && results.Keys == (set k | 0 <= k < |Checks| :: Checks[k])
              && forall k :: 0 <= k < |Checks| ==> results[Checks[k]] == Outcome(Checks[k], p).passed
  {
    results := map[];
    var i := 0;
    while i < |Checks|
      invariant 0 <= i <= |Checks|
      invariant forall k :: 0 <= k < i ==> Outcome(Checks[k], p).Returned?
      invariant results.Keys == (set k | 0 <= k < i :: Checks[k])
      invariant forall k :: 0 <= k < i ==> results[Checks[k]] == Outcome(Checks[k], p).passed
    {
      var r := RunCheck(Checks[i], p);
      if r.Raised? {
        return Uncaught, results;
      }
      results := results[Checks[i] := r.passed];
      i := i + 1;
    }
    var allPassed := forall c :: c in results ==> results[c];
    outcome := if allPassed then ExitStatus(0) else ExitStatus(1);
  }
}
