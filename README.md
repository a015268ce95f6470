# Verified model of the site's table, cache-busting and validation scripts

This project models in Dafny the small, self-contained rules of four
scripts of a documentation site built with MkDocs:

- **Table activation** (`docs/js/datatables-init.js`). For every table on the
  page that the table-widget library has not activated yet, the script:
  - gives the table an id if it has none;
  - picks column-width hints from the header count;
  - calls the library with a fixed configuration, including a render
    callback that wraps long cells;
  - if that call does not throw, marks each body row where the first
    column's value changes with `group-boundary`.
- **Fetch cache busting** (`docs/js/cache-bust.js`). When the page loads,
  `window.fetch` is replaced by a wrapper. The wrapper appends `?_=<ts>` or
  `&_=<ts>` to every string URL that contains the page's origin, using a
  timestamp taken once when it is installed. When the theme's `app`
  global is defined and has a `nav`, its `app.nav.addCacheBuster` flag is
  also set.
- **Dependency validation** (`scripts/validate_dependencies.py`):
  - parsing `requirements.txt`;
  - the plugin-to-package check;
  - the extraction and existence check of `{{ read_csv('...') }}` references;
  - the pass/fail aggregation of `main`, with its exit status.
- **Build-time asset cache busting** (`scripts/cache_bust.py`). In every
  HTML file, `?v=<hash>` is inserted before the closing quote of the `.css`
  `href` of a `<link>` tag, and then of the `.js` `src` of a `<script>` tag.

Files:

| file | module | models |
|---|---|---|
| `strings.dfy` | `Wrappers`, `Strings` | `Option`; Python's `str.strip()` and whitespace class; the quote characters; substring tests; JavaScript's UTF-16 string length; decimal rendering of naturals |
| `datatables.dfy` | `DataTables` | `docs/js/datatables-init.js` |
| `fetchbust.dfy` | `FetchCacheBust` | `docs/js/cache-bust.js` |
| `deps.dfy` | `Dependencies` | `scripts/validate_dependencies.py` |
| `assetbust.dfy` | `AssetCacheBust` | `scripts/cache_bust.py` |

Modelling choices:

- **Tables and rows.**
  - The page's tables are an `array<Table>` of records, updated in place by
    the `forEach` loop (`DataTables.ForEach`).
  - A row is its first cell's trimmed text, if it has a `td`, together with
    its class set.
- **The table library.** It is abstract: a predicate `throws` says which
  tables its call throws for. A successful call shows as the library's
  `dataTable` class on the table. Every call is logged with its selector and
  configuration.
- **The fetch wrapper.** The page is a class `Page` holding:
  - its origin;
  - the installed wrappers, as their timestamps;
  - the requests that reached the browser's own `fetch`;
  - the theme's `app` global.
- **The validator's inputs.**
  - A file is absent (`None`) or present with its lines or its text.
  - Existence under `docs/` is a set of paths.
  - The YAML configuration arrives already loaded.
  - The outcome of the `mkdocs build` subprocess is a parameter.
  - A check that raises is `Raised`; such an exception escapes `main`.
- **The asset rewrite.** There is no regex engine. An HTML file arrives cut
  into chunks: plain text, and quoted attribute values, each with the text
  of its tag from `<` up to the opening quote, and its closing quote.
  Eligibility (`AssetCacheBust.Eligible`) is what the pattern demands of
  such a chunk.

## Model

| member | source | states |
|---|---|---|
| Strings.Strip | scripts/validate_dependencies.py:48 | the stripped line is no longer than the line, and is empty or neither begins nor ends with whitespace |
| Strings.StripIsInfix | scripts/validate_dependencies.py:48 | the stripped line is the infix of the line with only whitespace before and after it |
| Strings.PyStrip | scripts/validate_dependencies.py:48 | `line.strip()` over Python's whitespace class: no longer than the line, neither beginning nor ending with whitespace, and empty for a line of only whitespace |
| Strings.NatToDecimal | docs/js/cache-bust.js:11 | a number turned into text is a non-empty run of digits with no leading zero |
| Strings.DecimalRoundTrip | docs/js/cache-bust.js:11 | reading the rendered digits back gives the number |
| Strings.DecimalInjective | docs/js/datatables-init.js:16 | different numbers render as different digit strings |
| Strings.Contains | docs/js/cache-bust.js:9-10 | `url.includes(sub)`: a substring is never longer than the string that holds it |
| Strings.ContainsIff | docs/js/cache-bust.js:9-10 | `includes` holds iff the substring occurs at some position of the string |
| Strings.ContainsAppend | docs/js/cache-bust.js:9 | appending text to a URL keeps every substring it had |
| Strings.ContainsChar | docs/js/cache-bust.js:9 | every character of a substring occurs in the string |
| DataTables.NarrowCols | docs/js/datatables-init.js:20-35 | hints exist iff there are 7 or 11 header cells; every hinted column exists and no column is hinted twice |
| DataTables.NarrowColsExact | docs/js/datatables-init.js:23-35 | 7 columns give exactly `[0,1]` 8% and `[2,3]` 6%; 11 give exactly `[0]` 7% and `[4,5,6]` 5%; any other count gives none |
| DataTables.ColumnDefs | docs/js/datatables-init.js:59-71 | the definitions are the hints followed by exactly one catch-all left-align definition, which is last |
| DataTables.TableConfig | docs/js/datatables-init.js:39-72 | the option object has those definitions, no paging, no default order, responsive layout, no auto width, no horizontal scroll, info, and the CSV and Excel export buttons |
| Strings.Utf16Length | docs/js/datatables-init.js:65 | JavaScript's `length` counts UTF-16 code units: at least one and at most two per character |
| Strings.Utf16LengthAppend | docs/js/datatables-init.js:65 | the length of a concatenation is the sum of the lengths |
| Strings.Utf16LengthBmp | docs/js/datatables-init.js:65 | the length equals the number of characters iff no character lies outside the Basic Multilingual Plane |
| DataTables.Render | docs/js/datatables-init.js:63-69 | data changes iff the type is `display`, the data is a string and its JavaScript length (UTF-16 code units) is more than 100; then the result is the wrap prefix, the data, and `</div>` |
| DataTables.RenderAtThreshold | docs/js/datatables-init.js:65 | text of exactly 100 UTF-16 code units is returned unchanged |
| DataTables.RenderBmp | docs/js/datatables-init.js:65 | for text inside the Basic Multilingual Plane, display wraps it iff it has more than 100 characters |
| DataTables.RenderAstral | docs/js/datatables-init.js:65 | 99 letters and one emoji make length 101, so the text is wrapped |
| DataTables.LastValueAppend | docs/js/datatables-init.js:77-83 | a row with a cell records its value; a row without one keeps the previous value |
| DataTables.MarkFromAt | docs/js/datatables-init.js:75-85 | the carried-value pass marks row `k` exactly by the value recorded by all the rows before it |
| DataTables.MarkBoundariesSpec | docs/js/datatables-init.js:74-85 | the pass keeps the row count and marks row `k` iff it has a cell, the previous recorded value is non-empty, and its value differs from that value |
| DataTables.MarkGroupBoundaries | docs/js/datatables-init.js:74-85 | the loop with the mutable previous value produces exactly those marks and nothing else |
| DataTables.LastValueNoCells | docs/js/datatables-init.js:75 | before any row with a cell, the recorded value is still `''` |
| DataTables.FirstCellNotBoundary | docs/js/datatables-init.js:78-81 | the first row that has a cell is never marked |
| DataTables.NoCellKeepsValue | docs/js/datatables-init.js:77-78 | a row without a `td` leaves the previous value unchanged and is never marked |
| DataTables.EmptyCellResets | docs/js/datatables-init.js:79-83 | a row whose trimmed cell is empty resets the value to `''`, so the next row is not marked |
| DataTables.GroupExample | docs/js/datatables-init.js:76-85 | first cells A, A, B, B, B, C mark exactly the third and the sixth row |
| DataTables.AssignedId | docs/js/datatables-init.js:15-17 | an existing id is kept; an empty one becomes `datatable-` followed by the position |
| DataTables.AssignedIdsDistinct | docs/js/datatables-init.js:15-17 | tables without an id at different positions get different ids |
| DataTables.ActivateTable | docs/js/datatables-init.js:9-89 | an activated table is untouched and no call is made; otherwise the id is assigned and one call is made with `#id` and the configuration for its header count; on a throw nothing else changes; on success rows are marked as the boundary pass says |
| DataTables.ActivateOne | docs/js/datatables-init.js:9-89 | the callback's imperative steps produce exactly that outcome |
| DataTables.ResultsAt | docs/js/datatables-init.js:8 | the tables after `forEach` are as many as before, and table `i` is what the step made of it |
| DataTables.ResultsLength | docs/js/datatables-init.js:8 | `forEach` neither drops nor adds tables |
| DataTables.ForEach | docs/js/datatables-init.js:8-90 | the in-place loop leaves every table as the step makes it, from the table as it was, and logs the calls in order |
| DataTables.ActivateTables | docs/js/datatables-init.js:6-90 | the activator's loop over the page's table array leaves exactly the tables and the call log described above |
| DataTables.CallLogLength | docs/js/datatables-init.js:38-89 | the library is called once per table not yet activated, whether or not an earlier call threw |
| DataTables.ActivateAllAt | docs/js/datatables-init.js:38-89 | each table's outcome depends on that table and its position only, so a throw affects no later table |
| DataTables.RunTwice | docs/js/datatables-init.js:9-17 | a second run keeps every id and leaves every activated table as it is |
| FetchCacheBust.Separator | docs/js/cache-bust.js:10 | the separator is `&` iff the URL already has a `?`, and `?` otherwise |
| FetchCacheBust.Marker | docs/js/cache-bust.js:10-11 | the text put before the timestamp is the separator followed by `_=` |
| FetchCacheBust.Rewrite | docs/js/cache-bust.js:9-12 | a string URL containing the origin becomes itself plus the separator, `_=` and the timestamp, 3 + digits longer; any other target passes unchanged |
| FetchCacheBust.RewriteSameOrigin | docs/js/cache-bust.js:9-11 | a same-origin URL is rewritten to URL + marker + timestamp |
| FetchCacheBust.Busted | docs/js/cache-bust.js:9-11 | the rewritten URL still contains the origin and now has a `?` |
| FetchCacheBust.RewriteTwice | docs/js/cache-bust.js:10-11 | the rewrite is not idempotent: rewriting again appends `&_=` and the timestamp a second time |
| FetchCacheBust.NoSchemeNotRewritten | docs/js/cache-bust.js:9 | a URL without a `:`, such as the relative path `/data.csv`, cannot contain an origin with a scheme and is never rewritten |
| FetchCacheBust.PrefixContained | docs/js/cache-bust.js:9 | a URL built from the origin contains the origin |
| FetchCacheBust.RewriteExamples | docs/js/cache-bust.js:9-11 | `<origin>/data.csv` gets `?_=<ts>` and `<origin>/data.csv?x=1` gets `&_=<ts>` |
| FetchCacheBust.FlagCacheBuster | docs/js/cache-bust.js:17-19 | the flag is set iff `app` is defined and has a `nav`; otherwise `app` is unchanged |
| FetchCacheBust.Page.constructor | docs/js/cache-bust.js:7 | a fresh page has the browser's own `fetch`, no wrapper and no request sent |
| FetchCacheBust.Page.ContentLoaded | docs/js/cache-bust.js:2-19 | the listener installs one wrapper with the timestamp of that moment, flags the theme and sends nothing |
| FetchCacheBust.Page.Fetch | docs/js/cache-bust.js:8-14 | a call reaches the browser's `fetch` exactly once, with the target every wrapper rewrote and the options unchanged; the wrappers stay as they are |
| FetchCacheBust.Through | docs/js/cache-bust.js:7-13 | through any chain of wrappers a string URL stays a string and only grows at its end, and a target that is not a same-origin string reaches `fetch` unchanged |
| FetchCacheBust.OneWrapper | docs/js/cache-bust.js:4-13 | with the one wrapper, every call is rewritten with the same timestamp, the one taken at installation |
| FetchCacheBust.ThroughTwo | docs/js/cache-bust.js:7-13 | with two wrappers, the outer one rewrites first and hands its result to the inner one |
| FetchCacheBust.TwoWrappers | docs/js/cache-bust.js:2-14 | if the listener ran twice, a same-origin URL would carry both timestamps |
| FetchCacheBust.FetchTwiceClient | docs/js/cache-bust.js:4-14 | two fetches of the same URL after one page load send the same busted URL |
| Dependencies.NameSpan | scripts/validate_dependencies.py:51 | the name group is the longest leading run of `[a-zA-Z0-9\-_]` characters |
| Dependencies.MatchRequirement | scripts/validate_dependencies.py:51-53 | a match splits the line into a non-empty name free of `=`, then `==`, then a non-empty version without a line feed |
| Dependencies.MatchRequirementComplete | scripts/validate_dependencies.py:51-53 | every `name==version` line with such a name and version matches with exactly that name and version |
| Dependencies.TripleEquals | scripts/validate_dependencies.py:51 | `foo===1` gives name `foo` and version `=1` |
| Dependencies.Classify | scripts/validate_dependencies.py:48-55 | a stripped line is skipped iff it is empty or starts with `#`; otherwise it is a requirement when it matches, and a warning about the line when it does not |
| Dependencies.RequirementsSpec | scripts/validate_dependencies.py:45-53 | a name is in the mapping iff some line declares it, and then its version comes from the last line that declares it |
| Dependencies.WarningsSpec | scripts/validate_dependencies.py:54-55 | the warnings are exactly the unparsable lines, never more than there are lines |
| Dependencies.FoldStep | scripts/validate_dependencies.py:47-55 | one more line extends the mapping and the warnings by what that line is |
| Dependencies.LoadRequirements | scripts/validate_dependencies.py:38-57 | a missing file gives `None`; otherwise the loop produces exactly the mapping and warnings above |
| Dependencies.PluginName | scripts/validate_dependencies.py:97 | the name is the entry itself for a string and the first key for a mapping; an empty mapping or another value raises |
| Dependencies.CheckPluginList | scripts/validate_dependencies.py:89-113 | the loop raises on an entry without a name, and otherwise passes iff every plugin is built-in, unknown, or has its package in the requirements |
| Dependencies.CheckPlugins | scripts/validate_dependencies.py:76-113 | `False` when mkdocs.yml or requirements.txt is missing, an exception when the configuration is not a mapping, and otherwise the list verdict |
| Dependencies.PluginsWithoutPackagesPass | scripts/validate_dependencies.py:89-104 | an empty list, or a list of named built-in and unknown plugins in string or mapping form, passes whatever the requirements |
| Dependencies.SatisfiedIff | scripts/validate_dependencies.py:100-109 | a plugin is satisfied iff it does not need a package that no line declares |
| Dependencies.PluginListFailIff | scripts/validate_dependencies.py:95-113 | a list of named plugins fails iff some plugin needs a package that no line declares |
| Dependencies.PluginsFailIff | scripts/validate_dependencies.py:80-113 | with both files present, the check fails iff some plugin needs a package that no line of requirements.txt declares |
| Dependencies.MissingPackageFails | scripts/validate_dependencies.py:100-109 | a `table-reader` plugin with no line declaring its package makes the check fail |
| Dependencies.SkipSpace | scripts/validate_dependencies.py:125 | `\s*` consumes exactly the whitespace run at that position |
| Dependencies.SkipNonQuote | scripts/validate_dependencies.py:125 | `[^'"]` repeated consumes exactly the run of non-quote characters at that position |
| Dependencies.MatchCsvAt | scripts/validate_dependencies.py:125 | a match starts with `{{`, ends with `}}`, and captures a non-empty path with no quote |
| Dependencies.MatchCsvAtFound | scripts/validate_dependencies.py:125 | when every part of the pattern follows the previous one, the match captures the text between the quotes |
| Dependencies.MatchCsvAtSound | scripts/validate_dependencies.py:125 | conversely, a match is `{{`, whitespace, `read_csv(` and a quote, then the captured path as it stands in the text, then a quote, `)`, whitespace and `}}`, where the match ends |
| Dependencies.FindAllFrom | scripts/validate_dependencies.py:139 | every path `findall` returns is non-empty and has no quote, and there is at most one per four characters searched |
| Dependencies.FindAllFromMatched | scripts/validate_dependencies.py:125-139 | every path `findall` returns is the capture of a match of the pattern at some position of the searched text |
| Dependencies.CsvReferences | scripts/validate_dependencies.py:137-139 | the references of one file's text: non-empty, without quotes, at most one per four characters, and none at all in text without `{{` |
| Dependencies.NoBracesNoMatch | scripts/validate_dependencies.py:139 | from a position after which no `{{` occurs, `findall` finds nothing |
| Dependencies.CsvReferenceExample | scripts/validate_dependencies.py:125-139 | `{{ read_csv('a') }}` yields exactly the path `a` |
| Dependencies.CheckCsvFiles | scripts/validate_dependencies.py:115-155 | `False` when docs/ is missing; otherwise `True` iff every path referenced in every markdown file exists under docs/, so `True` with no markdown files or no references |
| Dependencies.BuildVerdict | scripts/validate_dependencies.py:157-183 | the build check passes iff the build succeeded or the `mkdocs` command is missing |
| Dependencies.RunCheck | scripts/validate_dependencies.py:200-201 | each entry of the check list runs its own check |
| Dependencies.Validate | scripts/validate_dependencies.py:185-216 | every check runs regardless of earlier failures; exit status 0 iff every check passed, 1 iff none raised and one failed, and an exception escapes otherwise; the results map holds each check's verdict |
| AssetCacheBust.Eligible | scripts/cache_bust.py:34-41 | a chunk the pattern matches has the tag at its start, the attribute name right before the opening quote, and the extension right before the closing quote |
| AssetCacheBust.BustChunk | scripts/cache_bust.py:33-44 | an eligible attribute keeps its tag text, value and closing quote and gets the parameter inserted right before the quote; any other chunk is unchanged |
| AssetCacheBust.BustAll | scripts/cache_bust.py:33-37 | one substitution pass rewrites every chunk on its own and keeps their number |
| AssetCacheBust.BustChunkLength | scripts/cache_bust.py:35 | a rewritten chunk grows by the parameter; any other keeps its length |
| AssetCacheBust.BustAllLength | scripts/cache_bust.py:33-37 | a pass lengthens the file by the parameter once per rewritten attribute |
| AssetCacheBust.RulesDisjoint | scripts/cache_bust.py:34-41 | no attribute is eligible for both the `<link` and the `<script` rule |
| AssetCacheBust.BustedNotEligible | scripts/cache_bust.py:34-41 | a value that already carries `?v=` and a digit hash no longer ends in the extension, so neither rule applies |
| AssetCacheBust.BustFile | scripts/cache_bust.py:32-44 | the `.css` pass and then the `.js` pass over one file keep its number of chunks |
| AssetCacheBust.BustFileAt | scripts/cache_bust.py:32-44 | each chunk of a file is rewritten by the pass whose rule it matches, and by at most one |
| AssetCacheBust.BustFileNoneEligible | scripts/cache_bust.py:32-44 | with a digit hash, no chunk of the output, cut as the input was, is eligible for either rule: no attribute rewritten once is rewritten again |
| AssetCacheBust.BustFileIdempotent | scripts/cache_bust.py:32-44 | with a digit hash, running the rewrite again on its own output, cut into the same chunks, changes nothing more |
| AssetCacheBust.CssPassKeepsJsCount | scripts/cache_bust.py:33-44 | the `.css` pass leaves the `.js` pass as many eligible attributes as before |
| AssetCacheBust.BustFileLength | scripts/cache_bust.py:33-44 | a file grows by the parameter's length times the number of rewritten `.css` links and `.js` scripts |
| AssetCacheBust.LinkEligible | scripts/cache_bust.py:34 | `<link href="a.css"` matches the stylesheet pattern |
| AssetCacheBust.ScriptEligible | scripts/cache_bust.py:41 | `<script src='b.js'` matches the script pattern |
| AssetCacheBust.Example | scripts/cache_bust.py:33-44 | a link and a script in one file each get the parameter once, and the text between them is unchanged |
| AssetCacheBust.BuildHash | scripts/cache_bust.py:13-15 | `%Y%m%d%H%M%S` is fourteen digits whose fields read back as year, month, day, hour, minute and second |
| AssetCacheBust.TwoDigits | scripts/cache_bust.py:15 | a zero-padded two-digit field reads back as its number |
| AssetCacheBust.FourDigits | scripts/cache_bust.py:15 | a four-digit year field reads back as the year |
| AssetCacheBust.AddCacheBustToFiles | scripts/cache_bust.py:18-47 | every HTML file in the array is replaced by its rewritten form, using one parameter for the whole run |

## Left out

- The `DOMContentLoaded` events, the 500 ms `setTimeout`, `console.error`, and all console output. They are timing and logging with no rule of substance.
- The DOM query APIs (`querySelectorAll`, `querySelector('td')`, `textContent`). A table arrives as a record and a row as its cell text.
- JavaScript's `String.prototype.trim` on the first cell. Rows hold the text already trimmed, because JavaScript's whitespace set is not part of this model.
- The table library itself: its layout, export buttons and sorting. Only its outcome (throws or activates) and the call it receives are modelled.
- jQuery's `$('#' + id)` lookup. With duplicate ids, or ids holding selector characters, it finds another element; the model records the selector string only.
- DataTables.Render: array cell data, which also has a `length`, is modelled as data without one and is never wrapped. Cell data in this site is text.
- `Date.now()` and `datetime.now()`. The timestamp and the build time are parameters.
- Request and URL objects passed to `fetch`. They are opaque targets that are passed on untouched.
- The browser's `fetch` internals and its promise. Only the arguments it receives are modelled.
- YAML loading, including the loader that turns unknown tags into `None`. The loaded configuration is an input.
- `os.chdir`, file reads and writes, `rglob`, and text decoding. Files are inputs given as lines or text.
- The `mkdocs build` subprocess and its timeout. Its outcome is a parameter.
- Exceptions from the build check other than the timeout and the missing command.
- Path arithmetic for `docs_dir / csv_path`: absolute paths and `..` segments. A reference is present when its path is in the given set of files under docs/.
- Splitting files into lines. Lines are given, so Python's universal-newline handling is not modelled.
- Plugin entries keyed by non-string YAML values. Plugin names are strings.
- How an HTML file is cut into the chunks that the `re.sub` patterns see. The chunking is an input, and no regex engine is modelled.
- AssetCacheBust.BustFileNoneEligible: the lemma speaks of the output cut into the input's chunks. A second run cuts the output again, and on the `data-href` tag described under `AssetCacheBust.BustFileIdempotent` below, `a.css` then matches the `.css` pattern.
- AssetCacheBust.BustFileIdempotent: the lemma assumes the output is cut into chunks as the input was. That fails when one tag has two attributes whose names end in `href=` (or `src=`). For `<link data-href="a.css" href="b.css">` the greedy `[^>]+` makes the first run rewrite only `b.css`; in the second run `b.css?v=H` no longer matches, the engine falls back to `data-href="a.css"`, and `a.css` gets the parameter too. So the script is not idempotent on such tags, and the model does not capture it.
- AssetCacheBust.BuildHash: requires a four-digit year. `strftime('%Y')` for years below 1000 depends on the platform.
- `sys.exit`, the order of the printed summary, and the printed count of HTML files.
