# A verified model of the web-crawler template

The template runs a configurable web crawler in five stages:

1. fetch the list pages;
2. parse them into detail items;
3. fetch and parse every detail page into records;
4. save the records as CSV or Excel;
5. quit the browser driver.

A site-specific crawler class, named in the configuration, supplies the four crawl operations. The template contributes:

- the orchestrator `main()` in `run.py`, which catches and logs the failures of the crawler's operations, of `save` and of the driver quit, each within its stage;
- the base class's `save` decision in `core/crawler.py`;
- the declarative field extractor `extract_fields` in `core/parser.py`, with its `||` fallback chains;
- the helpers `ensure_parent_dir`, `rate_limit` and `retry` in `core/utils.py`.

The model has one Dafny module per source file:

| module | file | what it holds |
|---|---|---|
| `Run` | `run.dfy` | the orchestrator |
| `Crawler` | `crawler.dfy` | the base crawler |
| `Parser` | `parser.dfy` | the extractor |
| `Utils` | `utils.dfy` | the helpers |
| `Strings` | `strings.dfy` | the Python string operations the code relies on: `rfind`, ASCII `lower`, `strip`, `lstrip('.')` and splitting on a double bar |
| `PosixPath` | `posix_path.dfy` | `os.path.splitext` and `os.path.dirname` as they behave on POSIX |
| `Common` | `common.dfy` | `Option`, `Outcome` (a value or a raised exception) and Python truthiness of optional strings |

How the crawler, the document and the helpers are represented:

- **The crawler is an oracle.** A `Run.Strategy` fixes in advance what each crawler operation returns or raises. The outcome of `fetch_detail` and `parse_detail` is keyed by the item's position in the parsed list.
- **A run is a trace.** `Run.Main` produces the records collected plus the effects performed, in order: directory creation, crawler calls, the debug-page write, the `save` call with its outcome, and the driver quit.
- **The parsed HTML document is its `select_one` capability.** It is a function from a selector to the first matching element. Each element carries its normalised text and its attributes.
- **The decorators return what happened.** `rate_limit` yields its sleeps and calls as events. `retry` yields the caller-visible outcome, the number of calls and the log lines.

Four behaviours of the code that are easy to misread, and which the model follows:

- **Save failures do not end the run.** `save` raises `ValueError` for a missing path (`core/crawler.py:53-54`), as its docstring announces (`core/crawler.py:49-51`). It also raises `ValueError` for an unsupported format (`core/crawler.py:70-71`), which the docstring does not mention. `run.py:129-135` catches and logs every exception from `save`, and still quits the driver. `Run.Crawl` therefore always finishes, and the rejection is only visible in the `SaveCall` effect's outcome.
- **`main` never passes a missing output path.** `main` falls back to `data/output.csv` (`run.py:56`), so `save` never sees a missing path from `main` (`Run.SaveAttemptedOnce`).
- **A missing path is rejected before the data is looked at.** `save` checks the path first (`core/crawler.py:53-54`), so it raises even when there are no results to write (`Crawler.Save`).
- **A failed configuration or crawler does not raise out of `main`.** `main` logs a configuration that fails to load or a crawler that cannot be built, and returns normally (`run.py:50-54`, `run.py:59-63`). The model records the second case as `Run.Aborted`. Other statements of `main` are outside any `try` and can still raise out of it; see `Run.Crawl` under "## Left out".

## Model

| member | source | states |
|---|---|---|
| Crawler.Init | core/crawler.py:16-18 | a falsy configuration becomes the empty map, another is kept; results start empty |
| Crawler.Extension | core/crawler.py:64 | the format-selecting extension contains no dot, slash or upper-case letter; a path without a dot has the empty extension |
| Crawler.NormalisedSuffix | core/crawler.py:64 | lower-casing a `splitext` suffix and stripping its dot leaves no dot, slash or upper-case letter |
| Crawler.DottedSuffix | core/crawler.py:64 | `lower().lstrip('.')` of a suffix made of one dot and then no dots removes exactly that dot |
| Crawler.ExtensionAt | core/crawler.py:64 | where `splitext` splits at a dot, the extension is the text after that dot, lower-cased |
| Crawler.ExtensionOfSuffix | core/crawler.py:64 | for a stem whose last component holds a non-dot character, followed by a dot and a suffix free of dots and slashes, the extension is that suffix lower-cased |
| Crawler.FormatFor | core/crawler.py:66-71 | `csv` or the empty extension selects CSV, exactly `xls`/`xlsx` select Excel, anything else none (both directions) |
| Crawler.Save | core/crawler.py:48-73 | falsy path raises whatever the results; empty results write nothing but still prepare the parent directory; otherwise the parent directory is prepared and the table is written in the extension's format or the extension is rejected, each as an if-and-only-if |
| Crawler.SaveOfSuffix | core/crawler.py:56-71 | with records, a path ending in a dotted suffix is written in the format that suffix names once lower-cased, or that suffix is rejected |
| Crawler.SaveDecision | core/crawler.py:56-71 | with records and a path, the outcome is fixed by the directory prepared and the format the extension selects: written in it, or that extension rejected |
| Crawler.SaveUpperCaseCsv | core/crawler.py:56-67 | with records, `data/OUT.CSV` is written as CSV after creating `data` |
| Crawler.SaveBareUpperCaseCsv | core/crawler.py:56-67 | with records, `OUT.CSV` is written as CSV and no directory is created |
| Crawler.SaveExcel | core/crawler.py:56-69 | with records, `a/b.xlsx` is written as Excel after creating `a` |
| Crawler.SaveRejectsJson | core/crawler.py:56-71 | with records, `out.json` is rejected as the unsupported format `json` |
| Crawler.ExtensionIgnoresCase | core/crawler.py:64 | paths equal up to letter case have the same extension |
| Crawler.SaveIgnoresCase | core/crawler.py:64-71 | `save` writes, with the same format, or rejects, for both of two paths differing only in letter case |
| Utils.EnsureParentDir | core/utils.py:11-24 | empty path creates nothing; a path ending in `/` or `\` creates itself; any other path with a slash creates exactly its dirname, which is non-empty; a bare file name creates nothing |
| Utils.EnsureParentDirOfFile | core/utils.py:21-24 | for `d/name` the directory created is exactly `d` |
| Utils.RateLimit | core/utils.py:26-39 | the wrapped function runs exactly once, last; when `seconds` is positive it is preceded by exactly one sleep of `seconds`, otherwise by nothing; its value or exception passes through unchanged |
| Utils.Attempts | core/utils.py:51-58 | the attempts from `attempt` on: every earlier attempt raised a caught exception, the last one did not unless attempts ran out, the caller sees the last call's outcome, and one warning per failed attempt plus a final error when all failed |
| Utils.Retry | core/utils.py:42-60 | at most `times` calls, stopping at the first return or uncaught exception; the last call's outcome reaches the caller; the log holds the numbered warnings and the final error; with `times <= 0` no call happens and a TypeError is raised |
| Utils.RetryFirstSuccess | core/utils.py:51-53 | the first successful attempt is returned and no later attempt runs |
| Utils.RetryExhausted | core/utils.py:54-58 | when every attempt fails with a caught exception, all `times` run and the last exception is re-raised |
| Utils.RetryUncaughtPropagates | core/utils.py:52-54 | an exception not listed escapes at once from the attempt that raised it |
| Utils.RetryTwoFailuresThenSuccess | core/utils.py:42-60 | two timeouts then a page: three attempts return the page, two re-raise the timeout |
| Parser.NonEmptyAt | core/parser.py:43 | the positions of the non-empty strings: increasing, each non-empty, and every non-empty string's position among them |
| Parser.RuleTruthy | core/parser.py:24 | the truth value `if not rule` tests: false for a missing rule, an empty string, an empty list or tuple, and a falsy value of another type |
| Parser.Compact | core/parser.py:43 | the non-empty strings in order: the `i`-th is the string at the `i`-th non-empty position |
| Parser.StripNonEmpty | core/parser.py:43 | the `i`-th part is the `i`-th piece that is not blank, stripped; no part is empty |
| Parser.StripNonEmptyConcat | core/parser.py:43 | the comprehension distributes over concatenation of the pieces |
| Parser.StripNonEmptySingle | core/parser.py:43 | one piece is kept, stripped, exactly when it is not blank |
| Parser.CompactConcat | core/parser.py:43 | keeping the non-empty strings distributes over concatenation |
| Parser.CompactAllNonEmpty | core/parser.py:43 | strings that are all non-empty are all kept, in order |
| Parser.StripNonEmptyKeepsStripped | core/parser.py:43 | pieces already stripped and non-empty come back unchanged |
| Parser.StripNonEmptyPartsClean | core/parser.py:43 | parts kept from bar-free pieces are stripped and bar-free |
| Parser.FallbackParts | core/parser.py:42-45 | without a double bar the rule itself is the one candidate; with one, the candidates are the pieces of the split that are not blank, stripped, in order, each non-empty, already stripped and free of double bars |
| Parser.FirstYielding | core/parser.py:48-54 | index of the first candidate with non-empty text; no earlier candidate yields |
| Parser.ExtractText | core/parser.py:47-55 | `None` exactly when no candidate yields non-empty text; otherwise the text of the first candidate that does, later candidates unconsulted |
| Parser.ExtractAttribute | core/parser.py:29-37 | the attribute of the element matched by the one selector, present exactly when that element exists and has it |
| Parser.ExtractRule | core/parser.py:23-59 | falsy rule gives `None`; a pair gives the attribute; a text rule gives the fallback chain's text; any other shape gives `None` |
| Parser.ExtractFields | core/parser.py:8-61 | exactly one entry per configured field, each its rule's value; none when the selectors are `None` |
| Parser.NoMatchGivesNone | core/parser.py:18 | a document in which no selector matches gives `None` for every rule shape |
| Parser.SingleSelector | core/parser.py:44-54 | a text rule without a double bar, single bars included, is looked up as written: its element's text when non-empty, else `None` |
| Parser.NamespaceSelector | core/parser.py:44-54 | the namespace selector `svg` bar `a` is looked up as one selector, not split |
| Parser.ChainOfPieces | core/parser.py:42-43 | a rule of bar-free selectors joined by double bars is tried as exactly those selectors, stripped, empty ones dropped, in order |
| Parser.CleanChain | core/parser.py:42-43 | two or more bar-free, stripped, non-empty selectors joined by double bars are tried as exactly those selectors |
| Parser.ChainFallsThrough | core/parser.py:47-55 | in a chain of three selectors `a`, `b`, `c` with `a` matching empty text and `b` matching text, the value is `b`'s text |
| Parser.DocumentedExample | core/parser.py:14-16 | the docstring's example extracts the title text and the link's `href` |
| Strings.Lower | core/crawler.py:64 | `lower()` keeps the length and maps each character on its own |
| Strings.LowerKeepsPunctuation | core/crawler.py:64 | `lower()` neither creates nor removes a dot or a slash |
| Strings.LowerIdempotent | core/crawler.py:64 | lower-casing twice is lower-casing once |
| Strings.RFind | run.py:42 | `str.rfind` as used by `rsplit('.', 1)`, and inside `splitext` and `dirname`: the index of the last occurrence, or -1 when there is none |
| Strings.TrimDots | core/crawler.py:64 | `lstrip('.')` removes a prefix made only of dots and leaves a suffix not starting with one |
| Strings.SplitBarsJoin | core/parser.py:43 | joining the pieces of the double-bar split with double bars gives back the rule |
| Strings.SplitBarsPiecesHaveNoBars | core/parser.py:43 | no piece of the double-bar split contains a double bar |
| Strings.FirstPieceHasNoBars | core/parser.py:43 | the first piece contains no double bar |
| Strings.SplitBarsCutsLeftmost | core/parser.py:43 | every piece but the last is either empty or ends in a character other than a bar: the split cuts at the leftmost double bar, so `a` followed by three bars and `b` splits into `a` and a bar followed by `b` |
| Strings.FirstPieceStartsAfterBars | core/parser.py:43 | a non-empty first piece starts with the rule's first character |
| Strings.SplitBarsWithoutBar | core/parser.py:43 | a rule without a double bar splits into itself alone |
| Strings.SplitBarsAfter | core/parser.py:43 | a piece without a double bar and not ending in a bar, followed by a double bar, is the first piece, and the rest is split on its own |
| Strings.JoinBarsSplit | core/parser.py:43 | pieces without a double bar, all but the last not ending in a bar, come back unchanged when joined with double bars and split again; with `SplitBarsJoin`, `SplitBarsPiecesHaveNoBars` and `SplitBarsCutsLeftmost` this makes the split the only cut of the rule with those properties |
| Strings.SplitBars | core/parser.py:43 | splitting the rule on the double bar gives at least one piece; which pieces is fixed by the lemmas `SplitBarsJoin`, `SplitBarsPiecesHaveNoBars`, `SplitBarsCutsLeftmost` and `JoinBarsSplit` |
| Strings.HasBars | core/parser.py:42 | the double-bar membership test: two adjacent bars somewhere in the rule |
| Strings.Strip | core/parser.py:43 | `strip()` is empty exactly when the piece is all whitespace, and otherwise begins and ends with non-whitespace |
| Strings.StripIsSlice | core/parser.py:43 | `strip()` keeps a contiguous slice of its input, with only whitespace before and after it |
| Strings.StripIdempotent | core/parser.py:43 | stripping twice is stripping once |
| Strings.StripKeepsNoBars | core/parser.py:43 | stripping a piece without a double bar creates none |
| PosixPath.Splitext | core/crawler.py:64 | the root and extension rejoin to the path; the extension is a dot followed by neither dot nor slash |
| PosixPath.SplitextFindsExtension | core/crawler.py:64 | the extension is non-empty exactly when the last component has a dot after a non-dot character, and it then starts at the path's last dot |
| PosixPath.SplitextOfSuffix | core/crawler.py:64 | a stem whose last component holds a non-dot character, followed by a dotted suffix, splits into exactly that stem and suffix |
| PosixPath.SplitextAt | core/crawler.py:64 | where the last dot follows the last slash with a non-dot character between them, the split is at that dot |
| PosixPath.SplitextLower | core/crawler.py:64 | lower-casing the path lower-cases its extension: splitting and `lower()` commute |
| PosixPath.RFindLower | core/crawler.py:64 | lower-casing moves neither the last dot nor the last slash |
| PosixPath.TrimSlashes | core/utils.py:22 | `rstrip('/')` removes a suffix made only of slashes and leaves a prefix not ending in one |
| PosixPath.Dirname | core/utils.py:22 | the directory is a prefix of the path, empty for a path without a slash |
| PosixPath.DirnameWithSlash | core/utils.py:22 | a path with a slash has a non-empty dirname ending at or before its last slash, with only slashes in between |
| PosixPath.DirnameOfJoin | core/utils.py:22 | `dirname(d + "/" + name) == d` |
| PosixPath.DirnameAtRoot | core/utils.py:22 | a file directly under the root has `/` as its dirname |
| Run.OutputPath | run.py:56 | `output_path`, else `output`, else `data/output.csv`; never empty |
| Run.DebugPath | run.py:90 | `debug_page`, else `data/debug_page1.html`; never empty |
| Run.SplitClassPath | run.py:42 | `rsplit(".", 1)` fails without a dot; the module and class names rejoin to the full name and the class name holds no dot |
| Run.Instantiate | run.py:38-45 | missing or empty `crawler_class` raises KeyError, one without a dot ValueError, otherwise the module/class lookup decides |
| Run.ListPages | run.py:69-75 | a list passes through, a truthy non-list becomes one page, a falsy value or an exception none |
| Run.ListItems | run.py:80-86 | `None` or an exception from `parse_list` gives no items, a list is kept |
| Run.DebugDump | run.py:88-96 | the debug page is written exactly when there are pages but no items, with the first page, after preparing its directory |
| Run.ProcessItem | run.py:101-127 | a non-string item makes no call; `parse_detail` runs exactly when the fetch returned a non-empty page; a dict adds one record, a list all of its records, anything else or any exception none |
| Run.Steps | run.py:101-127 | the loop over a range of items makes only fetch and parse calls for items in that range |
| Run.StepsSplit | run.py:101-127 | the loop's records and calls over a range are those of its two halves, concatenated |
| Run.StepsAgree | run.py:101-127 | two crawlers that behave alike on every item of a range collect the same records and make the same calls |
| Run.StepsInOrder | run.py:101 | the items are visited in list order: no call for an item follows a call for a later item |
| Run.DetailLoop | run.py:101-127 | the loop with its `continue`s appends exactly the items' contributions, in item order, after the records already present |
| Run.ItemIsolation | run.py:106-120 | changing how one item behaves changes only that item's contribution |
| Run.ThirdFetchFails | run.py:106-110 | with five items of which the third fails to fetch, the records of the other four are collected in order |
| Run.Crawl | run.py:65-143 | a run with a constructed crawler always completes, with the crawler's own records (or none) followed by every item's contribution |
| Run.InitialResults | run.py:65-66 | the crawler's own `results`, or an empty list when it has none |
| Run.CrawlTrace | run.py:56-143 | the effects of a completed run in stage order; it has no contract of its own, and `Run.TraceLayout` states where each stage's effects sit |
| Run.TraceLayout | run.py:56-143 | a run's effects: output directory, list fetch and parse; then the debug dump and the detail calls; then the output directory again and `save`; the driver quit last |
| Run.CrawlOrder | run.py:68-135 | the list is fetched and parsed before any page call; the debug page and every detail call come after that and before `save`; the debug page precedes every detail call; detail calls follow item order |
| Run.TraceOrder | run.py:68-135 | the ordering of `Run.CrawlOrder` holds for any detail calls that follow item order |
| Run.Main | run.py:48-143 | the run stops early exactly when instantiation raises, having only prepared the output directory; a missing `crawler_class` stops it with KeyError; otherwise it crawls to completion |
| Run.DebugPageWritten | run.py:88-96 | a completed run writes the debug page once exactly when pages were fetched but no item parsed, and never otherwise |
| Run.SaveAttemptedOnce | run.py:129-135 | `save` is called exactly once, on the final records, never with a missing path; it raises exactly when the format is unsupported, and the run still completes |
| Run.QuitOnlyWithDriver | run.py:137-143 | the driver quit happens exactly when the crawler has a driver, as the last effect |

## Left out

- Command-line parsing, YAML loading and `load_config` (run.py:15-26): the configuration is a parameter of `Run.Main`. A configuration that fails to load makes `main` return before anything is modelled.
- Logging: the log lines are not modelled, except `retry`'s, which are part of its observable behaviour.
- `importlib` lookup and the crawler's constructor: these are the `Run.Registry` parameter.
- The site crawlers under `examples/`: they are crawler implementations and enter the model only as `Run.Strategy` oracles.
- The file system: directory creation and the debug-page and table writes are effects in the trace.
  - I/O errors from them are not modelled. This includes a failing debug-page write (run.py:95-96), which the code catches and logs.
  - `run.py`'s own `ensure_parent_dir` (run.py:29-35), which uses `Path(path).parent` and checks for existence, is the `MakeParentDir` effect.
- pandas serialisation: `Crawler.Save` decides the format and the directory, not the bytes of the CSV or Excel file.
- BeautifulSoup parsing and `get_text(separator=' ', strip=True)`: the document is the `Parser.Document` oracle, and each element's text is given already normalised.
- Multi-valued attributes: attributes such as `class`, which BeautifulSoup returns as lists, are modelled as strings.
- `time.sleep` is the `Slept` event. Its duration is a real number; floating point is not modelled.
- Exception matching: `except exceptions` matches by subclass, while `Utils.Caught` tests membership of the exception's class name in the given set. A hierarchy can be flattened into that set by the caller.
- `BaseException` subclasses that escape `except Exception` in `main` (such as `KeyboardInterrupt`) are not modelled.
- Configuration values are strings or absent: non-string values of `output_path`, `output`, `debug_page` or `crawler_class` are not modelled.
- Return values are restricted to the modelled shapes:
  - `parse_list` returns a list of items or `None`;
  - `fetch_list` returns a list, or a single page or `None`;
  - `fetch_detail` returns a page, and `None` is folded into the empty page (both take the same branch, run.py:112-114).
- Python's `str.lower()` and `str.strip()` are modelled on ASCII and Latin-1: `lower` maps only `A`-`Z`, and `strip` treats as whitespace the ASCII whitespace, U+001C-U+001F, U+0085 and U+00A0.
- `os.path` is modelled as on POSIX, where only `/` separates components. On Windows `\` would also separate.
- Parser.ExtractRule: the source checks a matched element with `if elem:`. A BeautifulSoup tag is always truthy, so the model reads "matched" as "present".
- Run.Crawl: the ordinal logged for each item (`enumerate(..., start=1)`) is not modelled. Detail calls are keyed by the item's position instead.
- Run.Crawl: `crawler.save(output)` (run.py:132) calls whatever `save` the constructed object has. The model always uses `BaseCrawler.save` (`Crawler.Save`), so a subclass that overrides `save`, or a crawler class not derived from `BaseCrawler`, is not modelled.
- Run.Strategy: `main` appends to the crawler's own `results` list (run.py:65-66, run.py:123-125). A crawler whose operations also change that list, for instance a `parse_detail` that appends to it, is not modelled: the strategy fixes only the initial list and what each call returns.
- Malformed selectors: `select_one` raises on a selector it cannot parse (core/parser.py:31, core/parser.py:49), and the exception leaves `extract_fields`. The `Parser.Document` oracle is total, so this case is not modelled.
- Parser.ExtractFields: the result is a `map`, which has no order. The output dict keeps the order of the selectors (core/parser.py:21-23), which pandas uses as the column order of the saved table; that order is not modelled.
- Utils.Retry: the defaults `times=3` and `exceptions=(Exception,)` (core/utils.py:42) are not modelled. Both are parameters, and catching every `Exception` subclass has no counterpart in the set of class names.
- Run.Crawl: the model's run always completes, because file-system effects always succeed and crawler results have the modelled shapes. In the code, these statements outside any `try` can raise out of `main`:
  - `ensure_parent_dir(output)` (run.py:57);
  - `ensure_parent_dir(debug_path)` (run.py:91), before the write that is caught (run.py:92-96);
  - `len(items)` (run.py:98, run.py:102), for a `parse_list` result without a length, such as a generator;
  - `crawler.results.append` and `extend` (run.py:123-125), for a `results` value that is not a list.
