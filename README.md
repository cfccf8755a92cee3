# lighthouse-ci-action in Dafny

This project models the core of a CI action that runs Lighthouse CI against a site. The core has three parts:

- **Input resolution** (`src/input_parser.js`, module `InputParser`). The action's named inputs become one argument record. The record holds:
  - the URL list, one URL per line, each line trimmed;
  - the upload opt-out;
  - optional values: a budget path, a number of runs, the server address, the API token, and a description of the rc-file.

  The run stops when exactly one of the server address and the token is given. It also stops when the rc-file cannot be used.
- **The main flow** (`src/index.js`, module `Pipeline`):
  - one `collect` call of the Lighthouse CI command line;
  - an optional `assert` call;
  - an optional `upload` call.

  Each call gets an argument list built from the input record. A failing collect aborts the run. A failing assert is reported and the run goes on. A failing upload aborts the run. `Pipeline.Run` makes the calls. The URL arguments for collect are built in a loop, in `Pipeline.BuildCollectArgs`; the other argument lists are built without one. `Run` is proved equal to the reference function `Pipeline.Expected`. The lemmas state properties of `Expected`: which stages run, in what order, with which arguments, and when the run fails.
- **The results summary** (`src/printer.js`, module `Printer`). Results files are kept when their names match `/lhr-\d+.json/`, and only the first result for each final URL is kept. Each kept result prints its URL, then one line per category, holding the title, a colon, padding out to a 25-column field, and the score. `Printer.LogSummary` is the loop with its `seen` list. It is proved equal to `Printer.Summary`, which filters, then deduplicates, then renders.

Module `Strings` holds the JavaScript string and number behaviour the core relies on:

- `split('\n')`, with its inverse `Join`;
- `trim()`, using the ECMAScript white-space and line-terminator set;
- the text form of an integer;
- `parseInt` with no radix: leading white space, an optional sign, a `0x` prefix, the longest digit prefix, and NaN when there is no digit.

Module `Wrappers` holds `Option` and `Result`. JavaScript truthiness is modelled explicitly:

- a text property is truthy when it is present and non-empty;
- a number is truthy when it is present, not NaN and not zero;
- a missing property inside a template literal shows as `undefined`.

Outside effects are parameters:

- the CI inputs are a map from input name to text;
- the rc-file system is a map from path to parsed JSON;
- the child process is a function from verb and arguments to exit status (`Pipeline.Runner`);
- the results directory is its listing of names paired with parsed results.

Behaviour of the code worth knowing:

- The code makes one `collect` call with every URL, not one call per URL.
- The code records no list of failed URLs.
- The code prints neither score glyphs nor colours.
- The code does not require the URL list to be non-empty. An empty `urls` input gives the list `[""]`.

## Model

| member | source | states |
|---|---|---|
| Strings.JoinSplit | src/input_parser.js:68 | Joining the pieces of `s.split(sep)` with `sep` gives back `s`. |
| Strings.SplitPiecesLackSeparator | src/input_parser.js:68 | No piece of a split contains the separator. |
| Strings.SplitCount | src/input_parser.js:68 | A split has one more piece than the input has separators. |
| Strings.TrimIsTrimmed | src/input_parser.js:68 | `trim()` leaves no white space at either end. |
| Strings.TrimKeepsMiddle | src/input_parser.js:68 | `trim()` keeps a contiguous middle of its input and removes only white space around it. |
| Strings.ParseIntOfIntToString | src/input_parser.js:97-99 | `parseInt` of the decimal text of any integer gives back that integer. |
| Strings.ParseIntDecimalExamples | src/input_parser.js:92-98 | The workflow default "3" reads as 3, and "0" reads as 0. |
| Strings.ParseIntPrefixExample | src/input_parser.js:98 | Leading white space is skipped and reading stops at the first non-digit: " 12abc" is 12. |
| Strings.ParseIntHexExample | src/input_parser.js:98 | A `0x` prefix after a sign switches to base 16: "-0x1f" is -31. |
| Strings.ParseIntEmptyIsNaN | src/input_parser.js:98 | A missing `runs` input reads as NaN. |
| Strings.ParseIntWordIsNaN | src/input_parser.js:98 | Text with no leading digit reads as NaN. |
| Strings.ParseIntBareHexPrefixIsNaN | src/input_parser.js:98 | "0x" with no hexadecimal digit after it reads as NaN, not 0. |
| InputParser.GetUrls | src/input_parser.js:66-69 | One URL per newline-separated line (newlines plus one), and every URL is trimmed. |
| InputParser.GetUrlsKeepsOrder | src/input_parser.js:66-69 | The lines join back to the raw input, no line holds a newline, and URL i is line i trimmed. |
| InputParser.GetUrlsOfTwoLines | src/input_parser.js:66-69 | Two lines separated by a newline give exactly their two trimmed texts, in order. |
| InputParser.TrimCarriageReturnExample | src/input_parser.js:68 | A carriage return left by a Windows line ending, and a leading space, are both trimmed off a URL. |
| InputParser.TrimExample | src/input_parser.js:68 | White space on both sides of a middle that is not white space at its ends is removed, and nothing else. |
| InputParser.SplitAtSeparator | src/input_parser.js:68 | Splitting `a + sep + b`, where neither side holds `sep`, gives `[a, b]`. |
| InputParser.GetRcFile | src/input_parser.js:86-88 | The rc-file path is absent exactly when the input is empty. |
| InputParser.CanUpload | src/input_parser.js:124-128 | Uploading is refused exactly when `no_upload` holds any text. |
| InputParser.ReadRcFile | src/input_parser.js:37-50 | The rc-file step succeeds exactly when the file can be read and is an object with an object `ci`. It names the error for an unreadable file, a missing `ci` and a non-object. It records `collect in ci` and `assert in ci`. |
| InputParser.GetArgs | src/input_parser.js:6-55 | The credential check comes first. The only failures are incomplete credentials and an unusable rc-file. A successful record satisfies `ValidArgs`, and each of its fields is given in terms of the getters `GetBudgetPath`, `GetNumberOfRuns`, `GetLhciServer`, `GetApiToken`, `GetRcFile`, `CanUpload` and `GetUrls` (src/input_parser.js:66-128): an optional field is present exactly when its getter's value is truthy. |
| InputParser.RunsZeroIsUnset | src/input_parser.js:18-20 | A `runs` of "0" leaves the number of runs unset, and the default "3" is kept. |
| Pipeline.BuildCollectArgs | src/index.js:14-31 | The loop builds exactly `CollectArgs`: the target arguments, then at most one run-count argument. |
| Pipeline.Run | src/index.js:7-78 | Running the flow with any runner makes exactly the calls, and reports exactly the failures, of `Expected`. |
| Pipeline.StaticDistDirExcludesUrls | src/index.js:16-22 | With a static directory, collect gets one `--static-dist-dir=` argument, first, and no `--url=` argument. |
| Pipeline.UrlsInInputOrder | src/index.js:18-22 | Otherwise collect starts with one `--url=<u>` per URL in input order, and no other argument is a `--url=` argument. |
| Pipeline.RcFileOverNumberOfRuns | src/index.js:25-31 | At most one of `--rc-file=` and `--numberOfRuns=` reaches collect. The rc-file wins, then a non-zero number; with neither there is none. |
| Pipeline.StagesInOrder | src/index.js:33-77 | Collect is always called first. The verbs called are collect, then assert if wanted, then upload if wanted, each at most once and only after collect succeeded. |
| Pipeline.CollectFailureAborts | src/index.js:33-36 | A failing collect is the only call, and it reports "LHCI 'collect' has encountered a problem." |
| Pipeline.AssertCalledIff | src/index.js:40-51 | Assert is called exactly when collect succeeded and a budget path or an rc-file assert section is given. Its one argument is the budget file if there is one, else the rc-file. |
| Pipeline.UploadCalledIff | src/index.js:61-71 | Upload is called, last, exactly when collect succeeded and either both credentials are given or uploading is allowed. |
| Pipeline.UploadTarget | src/index.js:65-69 | With a server address, upload gets `--target=lhci`, the server and the token. Otherwise it gets temporary public storage. |
| Pipeline.AssertFailureContinues | src/index.js:53-57 | A failing assert reports "Assertions have failed." first, and upload still runs when it is wanted. |
| Pipeline.UploadFailureFails | src/index.js:73-75 | A failing upload reports "LHCI 'upload' has encountered a problem." as the last failure. |
| Pipeline.SucceedsIffEveryCallSucceeds | src/index.js:33-77 | The run reports no failure exactly when every call it made exited with 0. |
| Pipeline.StubRunOutcome | src/index.js:98-99 | With the stubbed runner (collect 0, everything else 1), the run fails exactly when assert or upload is called, and with those messages. |
| Pipeline.ServerWithoutTokenExample | src/index.js:61-66 | A server with no token still selects the lhci target when uploading is allowed, and the token argument reads "undefined". |
| Pipeline.TwoUrlsExample | src/index.js:14-77 | Two URLs, every call succeeding: collect gets both `--url=` arguments, assert is skipped, and upload goes to temporary public storage. |
| Printer.Buffer | src/printer.js:46-60 | The padding is all spaces, of length width minus the message length minus one, and never negative. |
| Printer.BufferDefaultWidth | src/printer.js:49-51 | Leaving out the width is the same as asking for 25. |
| Printer.PaddedTitleWidth | src/printer.js:34 | Title, colon and padding fill 25 columns, or just title and colon when the title is longer. |
| Printer.CategoryLineColumn | src/printer.js:34 | A category line is a tab, the title, a colon, then spaces up to the score's column, then the score. |
| Printer.LhrFileNameTypical | src/printer.js:17-19 | "lhr-1234.json" matches the results-file pattern. |
| Printer.LhrFileNameAnyDot | src/printer.js:17 | The unescaped `.` lets "lhr-12json" match. |
| Printer.LhrFileNameUnanchored | src/printer.js:17 | The pattern is not anchored: "old-lhr-7.json.bak" matches. |
| Printer.LhrFileNameNeedsDigit | src/printer.js:17 | "lhr-.json" does not match: at least one digit is needed. |
| Printer.LhrFileNameNeedsPrefix | src/printer.js:17 | "report.json" does not match. |
| Printer.MatchingLhrsOnlyMatching | src/printer.js:18-19 | Every result considered comes from a file whose name matches, and every such file's result is considered. |
| Printer.FirstPerUrlSameUrls | src/printer.js:25-29 | Deduplication drops no final URL and adds none. |
| Printer.FirstPerUrlDistinct | src/printer.js:25-29 | Each final URL is kept at most once. |
| Printer.FirstPerUrlFirstWins | src/printer.js:25-29 | Every kept result is the first with its final URL, and every such first result is kept. |
| Printer.FirstPerUrlPrefix | src/printer.js:20-29 | Later results only append to the kept list; earlier decisions never change. |
| Printer.SeenOnlyGrows | src/printer.js:16-29 | The `seen` list after i files is a prefix of the list after j files, for i <= j. |
| Printer.RenderAt | src/printer.js:31-35 | Each kept result's block is its URL, followed by exactly one line per category in order. |
| Printer.NonMatchingFileIgnored | src/printer.js:19 | A file whose name does not match adds nothing to the summary. |
| Printer.RepeatedUrlIgnored | src/printer.js:25-26 | A file whose final URL an earlier matching file already had adds nothing to the summary. |
| Printer.NewUrlAppendsBlock | src/printer.js:27-35 | A matching file with a new final URL appends its block to the summary. |
| Printer.LogResult | src/printer.js:31-35 | The category loop prints the URL, then one category line per category, in order. |
| Printer.LogSummary | src/printer.js:10-38 | The loop with its `seen` list prints exactly `Summary`: filter, then first per URL, then render. |

## Left out

- Calls into `@actions/core` are not modelled: groups, `setFailed` and logging the input record. Failures are modelled as returned messages, and `process.exit(1)` in getArgs as a `Failure` result.
- `core.getInput` trims its value and reads an environment variable. Here an input is its text in a map, and "" when it was not given. The trimming is in the library, which is not part of this model.
- File-system reads (`readFileSync`, `readdirSync`, `path.join`) and `JSON.parse` are replaced by maps from path to parsed value and by a listing of name and result pairs. For the rc-file, a file that cannot be read or parsed is a path missing from the map.
- The `in` operator is modelled for objects and arrays with own keys only. Keys inherited from `Object.prototype` are not modelled; the action asks only for `ci`, `collect` and `assert`. The order of object keys, and the order a `for ... in` loop visits categories in, is taken to be the result's category sequence.
- Printer.LogSummary: every listed file whose name matches is assumed to be readable and to parse. The source reads it at the results path joined to the name with no separator between them. A read or parse error would be thrown out of logSummary after the earlier blocks were printed, without closing the group; this is not modelled.
- Strings.ParseInt: computes with unbounded integers. JavaScript's double-precision rounding of very long digit strings is not modelled, and neither is `-0`.
- Strings.IntToString: gives plain decimal digits for every integer. JavaScript prints numbers of 1e21 and above in exponent form, and rounds integers beyond 2^53; neither is modelled.
- Printer.Buffer: string length is counted in characters, not UTF-16 code units.
- Printer.IsLhrFileName: the pattern's `.` matches one character here. Without the `u` flag, JavaScript's `.` matches one UTF-16 code unit, so a name with a character outside the Basic Multilingual Plane in that position, such as `lhr-1😀json`, matches here but not in the source.
- Scores are kept as the text they print as; number-to-text conversion for scores is not modelled.
- `src/input.js`, which turns the argument record into the record `main` reads, is not part of this model. `Pipeline.ActionInput` has one field per property `main` reads.
- In `runChildCommand`, the code after the stubbed `return` (`spawnSync` and writing a newline) is unreachable and is left out. The stub itself is `Pipeline.StubRunner`. The CLI path lookup, process arguments and `process.uptime()` are left out too.
- The promise chain of `main` (`.catch` to `setFailed`, then the final log line) is modelled by the run's failure list.
