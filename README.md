# text-classification scripts, modelled in Dafny

This project models the data-preparation scripts of the text-classification
repository:

- `scripts/transform-json-to-txt-data.js` converts a JSON training file
  (`{data: [{text, labels}, ...]}`) into the classifier's line format. Each line is
  `__label__a __label__b text \n`. The lines are split between a `.train` file and
  a `.valid` file by a validation percentage taken from the command line.
- `scripts/experiments/experiment-2.js` crawls the paginated tag listing of
  stackoverflow.com in a headless browser. It appends each page's tags to
  `outputs/tags.txt`.
- `scripts/experiments/experiment-1.js` requests the addresses of 1000 random
  sites. It takes the text of each answer's `h1` elements with runs of two or
  more whitespace characters collapsed to one space, and appends each non-empty title to an unlabeled JSON
  data file.

Modules:

- `Wrappers` holds `Option` and `Result`.
- `TrainingData` holds the shared `{text, labels}` entry.
- `JsStrings` holds the JavaScript built-ins the scripts depend on:
  - `String.prototype.replace` with a string pattern. Only the first occurrence is replaced, and `$$`, `$&`, `` $` `` and `$'` are expanded in the replacement.
  - `Array.prototype.join`.
  - repeated `+=`.
- `TransformJsonToTxt` models the converter:
  - the label and line format;
  - `Number(args[1] || 0)` and the two guards on the percentage;
  - the output names made with `.replace('.json', ...)`;
  - the `Math.round` split counts;
  - the two `+=` loops, as a method with loop invariants;
  - the whole script, as `Convert`.
- `TagCrawl` models the tag crawler:
  - `replaceHandle`, `makeCompleteUrl` and the page percentage;
  - the recursive walk over the pager, written as a loop in the class `TagCrawl`. The class holds the tags file, the visited URLs, the click count, the page counters and the state of the promise.
- `RandomSiteTitles` models the title collector:
  - the regular expression `/\s\s+/g` with its replacement by `' '`, as `Collapse`;
  - the collector's state, as the class `TitleCollector` with its counters and data. The recursion through `finally` is a loop;
  - `makeRandomText`, as a `for` loop.

Things outside the model are parameters:

- The browser, HTTP requests and HTML parsing are replaced by their results. These are a status per visit, a status and a tag list per click, and an optional `h1` text per request.
- The loaded JSON file is an `Option<seq<Entry>>`.
- `Math.random()` is the sequence of values it would return.
- A written file is a field or a result holding its content.

Behaviour of the code that the model follows:

- The three scripts modelled here contain no checkpointing, resumption or browser recycling. The code only has the recursive walk, so the model has that and nothing more.
- An entry without labels gives the line `" text \n"`, with a leading space. Every line ends with a space before the newline.
- The converter accepts a negative percentage, since only NaN and values above 100 are rejected. The training count then exceeds the number of entries n exactly when n·|p| >= 50. In that case the first loop's read of `data[n].labels` throws, the `catch` logs it, and nothing is written; `Convert` returns `EntryMissing`. For smaller n·|p| every entry goes to training and the validation file is empty.
- The converter logs `Math.round(n * p / 100)` as the validation count, but the validation file gets `n - Math.round(n * (100 - p) / 100)` entries. The two can differ by one; see `LoggedCountDiffersFromWritten`.
- In the crawler, the branch for a status other than 200 calls `chalk.orange`, which does not exist. It throws before `reject` is reached, so the walk stops and the promise stays as it was. The crawler also keeps clicking after the page equal to the page count. It resolves the promise at that page and goes on until a page answers with another status, or until no further click can be made (the browser gives no more answers). The latter is a walk over a finite list of 200 answers, which ends with no halting status.
- Tags of consecutive pages are appended with no separator between pages.

## Model

| member | source | states |
|---|---|---|
| JsStrings.ReplaceFirst | scripts/transform-json-to-txt-data.js:28-29 | `String.prototype.replace` with a string pattern returns the string unchanged when the pattern does not occur |
| JsStrings.ReplaceFirstAt | scripts/experiments/experiment-2.js:27 | when the first occurrence of the pattern follows a prefix, exactly that occurrence is replaced by the expanded replacement; the rest is kept |
| JsStrings.ReplaceFirstLiteral | scripts/experiments/experiment-2.js:27 | a replacement without `$` is inserted as it is, at the first occurrence only |
| JsStrings.ExpandLiteral | scripts/experiments/experiment-2.js:27 | `Expand` leaves a replacement without `$` as it is |
| JsStrings.ExpandDollarSequences | scripts/experiments/experiment-2.js:27 | `$$`, `$&`, `` $` `` and `$'` stand for `$`, the match, the text before and the text after; `$1` without capture groups is kept |
| JsStrings.JoinStartsWithFirst | scripts/transform-json-to-txt-data.js:48 | `Join`, the model of `Array.prototype.join`: a non-empty join starts with the first part |
| JsStrings.JoinSnoc | scripts/experiments/experiment-2.js:59 | joining one more part appends the separator and that part |
| JsStrings.ConcatAppend | scripts/transform-json-to-txt-data.js:47-53 | repeated `+=` over two runs of parts gives the first run's text followed by the second's |
| TransformJsonToTxt.ParseCreateLabel | scripts/transform-json-to-txt-data.js:6-8 | the label `__label__<name>` gives back its name |
| TransformJsonToTxt.CreateParseLabel | scripts/transform-json-to-txt-data.js:6-8 | every string recognised as a label is the label of the name read from it |
| TransformJsonToTxt.LabelsParseBack | scripts/transform-json-to-txt-data.js:48 | every label of `labels.map(createLabel)` reads back as the name in the same position |
| TransformJsonToTxt.EntryLineShape | scripts/transform-json-to-txt-data.js:48 | `EntryLine`, the template of lines 48 and 52: a line ends with `" " + text + " \n"`; it is exactly that when the entry has no labels, and starts with the first label otherwise |
| TransformJsonToTxt.TextIsLines | scripts/transform-json-to-txt-data.js:47-53 | the content built by `+=` is the concatenation of the entries' lines in order |
| TransformJsonToTxt.TextAppend | scripts/transform-json-to-txt-data.js:47-53 | the content of two runs of entries is the content of the first followed by that of the second |
| TransformJsonToTxt.Partition | scripts/transform-json-to-txt-data.js:47-53 | training content followed by validation content is the content of all entries |
| TransformJsonToTxt.PartitionLines | scripts/transform-json-to-txt-data.js:47-53 | the training file has t lines and the validation file n - t, and together they are every entry's line exactly once, in order |
| TransformJsonToTxt.Decimal | scripts/transform-json-to-txt-data.js:11 | the decimal rendering of a number is a digit string without leading zeros |
| TransformJsonToTxt.DecimalValue | scripts/transform-json-to-txt-data.js:11 | the value of the digits of a decimal rendering is the number |
| TransformJsonToTxt.ToNumberOfDecimal | scripts/transform-json-to-txt-data.js:11 | `ToNumber`, the model of `Number`, reads back the integer that an unsigned, `+` or `-` decimal literal spells |
| TransformJsonToTxt.FileNameArgumentDefaults | scripts/transform-json-to-txt-data.js:10 | `FileNameArgument` (`args[0] \|\| 'data.json'`): a missing or empty name is `data.json`, any other name is used as given |
| TransformJsonToTxt.ValidatePercentage | scripts/transform-json-to-txt-data.js:13-21 | rejected as not a number exactly when NaN, as over 100 exactly when above 100, accepted with its value otherwise (negative values included) |
| TransformJsonToTxt.ArgumentDefaults | scripts/transform-json-to-txt-data.js:11-21 | `PercentageArgument` (`Number(args[1] \|\| 0)`) with the guards: a missing or empty argument is 0; `abc` is rejected as not a number, `101` as over 100; `-5` and `20` are accepted |
| TransformJsonToTxt.OutputNamesReplaceFirst | scripts/transform-json-to-txt-data.js:28-29 | `TrainFileName` and `ValidFileName`: only the first `.json` becomes `.train` or `.valid`; what follows it is kept, even another `.json` |
| TransformJsonToTxt.OutputNamesWithoutJson | scripts/transform-json-to-txt-data.js:28-29 | a name without `.json` is used unchanged for both outputs |
| TransformJsonToTxt.DefaultOutputNames | scripts/transform-json-to-txt-data.js:10-29 | with no name given, the outputs are `data.train` and `data.valid` |
| TransformJsonToTxt.TrainingCount | scripts/transform-json-to-txt-data.js:41 | the training count is n(100 - p)/100 rounded half up; it lies in [0, n] for 0 <= p <= 100 |
| TransformJsonToTxt.ValidationAmountLogged | scripts/transform-json-to-txt-data.js:42 | the logged validation count is np/100 rounded half up |
| TransformJsonToTxt.SplitEdges | scripts/transform-json-to-txt-data.js:41 | 0% puts every entry in training and 100% puts none there |
| TransformJsonToTxt.LoggedCountsOvercountByAtMostOne | scripts/transform-json-to-txt-data.js:41-45 | for every integer percentage, negative ones included, the two logged counts add up to n or n + 1 |
| TransformJsonToTxt.LoggedCountDiffersFromWritten | scripts/transform-json-to-txt-data.js:41-53 | one entry at 50% is logged as 1 training and 1 validation entry, while the validation file gets no line |
| TransformJsonToTxt.NegativePercentageOverruns | scripts/transform-json-to-txt-data.js:13-48 | -1% passes the guards and asks for 101 training entries out of 100 |
| TransformJsonToTxt.NegativePercentageOverrunsExactly | scripts/transform-json-to-txt-data.js:41-48 | for p < 0 the training count is at least n, and exceeds n exactly when n·\|p\| >= 50 |
| TransformJsonToTxt.BuildContents | scripts/transform-json-to-txt-data.js:47-53 | the loops finish exactly when t <= n, and then the training content is that of entries [0, t) and the validation content that of [t, n) |
| TransformJsonToTxt.Convert | scripts/transform-json-to-txt-data.js:10-75 | the script's outcome: the percentage error, an unreadable source, a missing entry when t > n, or the two names and contents |
| TagCrawl.ReplaceHandleWithoutPlaceholder | scripts/experiments/experiment-2.js:26-28 | `ReplaceHandle`: a string without `{{name}}` is returned unchanged |
| TagCrawl.ReplaceHandleFirst | scripts/experiments/experiment-2.js:26-28 | only the first `{{name}}` is replaced, by a value without `$` as it is |
| TagCrawl.FirstListingPath | scripts/experiments/experiment-2.js:89 | the first listing path is `tags?page=1&tab=popular` |
| TagCrawl.CompleteUrlRoundTrip | scripts/experiments/experiment-2.js:34-36 | `MakeCompleteUrl`: for a host without `/`, the URL `http://host/path` splits back into the host and the path (empty when absent) |
| TagCrawl.RootUrl | scripts/experiments/experiment-2.js:44 | the site is opened at `http://stackoverflow.com/` |
| TagCrawl.FirstListingUrl | scripts/experiments/experiment-2.js:89 | the first listing page is the root URL followed by `tags?page=1&tab=popular` |
| TagCrawl.Percentage | scripts/experiments/experiment-2.js:68 | the page percentage is 100 c / l rounded half up (for a negative l as well), and is undefined exactly when l is 0 |
| TagCrawl.PercentageBounds | scripts/experiments/experiment-2.js:68 | during the walk up to the page count the percentage is in [0, 100], and it is 100 at the last page |
| TagCrawl.OkPrefix | scripts/experiments/experiment-2.js:64-85 | the walk processes exactly the leading pages that answer 200 |
| TagCrawl.TagBlocksAppend | scripts/experiments/experiment-2.js:54-62 | appending two runs of pages appends their tag blocks one after the other |
| TagCrawl.NoSeparatorBetweenPages | scripts/experiments/experiment-2.js:59 | the last tag of a page runs into the first tag of the next page |
| TagCrawl.PromiseResolvesAtLastPage | scripts/experiments/experiment-2.js:71-73 | a pending promise is resolved exactly when the walk passes the page equal to the page count, and a resolved one stays resolved |
| TagCrawl.TagCrawl.SaveExtractedTags | scripts/experiments/experiment-2.js:54-62 | the file is created empty if absent, then the tags joined by newlines are appended |
| TagCrawl.TagCrawl.Resolve | scripts/experiments/experiment-2.js:72 | resolving settles a pending promise only |
| TagCrawl.TagCrawl.Reject | scripts/experiments/experiment-2.js:95 | rejecting settles a pending promise only, with the status |
| TagCrawl.TagCrawl.Step | scripts/experiments/experiment-2.js:64-85 | one click: on 200 it saves the tags, resolves at the last page and moves to the next page; otherwise it stops the walk with nothing saved and the promise unchanged |
| TagCrawl.TagCrawl.Walk | scripts/experiments/experiment-2.js:64-85 | the recursion: the leading 200 pages are saved in order, one click more when a page ended the walk, and the promise is resolved exactly when the last page was among them |
| TagCrawl.TagCrawl.OpenWebsite | scripts/experiments/experiment-2.js:38-48 | the root URL is visited, and the site counts as open exactly on status 200 |
| TagCrawl.TagCrawl.ExtractTags | scripts/experiments/experiment-2.js:87-99 | the first listing page is visited; on 200 the page count is taken and the walk starts at page 1, otherwise the promise is rejected with the status and nothing else changes |
| TagCrawl.TagCrawl.Run | scripts/experiments/experiment-2.js:105-116 | a root other than 200 only records the visit; a listing other than 200 rejects the promise with its status and leaves file, clicks and pages as they were; otherwise the page count is taken and the walk from page 1 decides the rest |
| RandomSiteTitles.WhitespaceRun | scripts/experiments/experiment-1.js:110 | the length of the leading run of `\s` characters |
| RandomSiteTitles.Collapse | scripts/experiments/experiment-1.js:110 | the collapse never lengthens the text, and keeps a first character that is not whitespace |
| RandomSiteTitles.CollapseNoDoubleWhitespace | scripts/experiments/experiment-1.js:110 | after the replacement no two adjacent characters are whitespace |
| RandomSiteTitles.CollapseKeepsNonWhitespace | scripts/experiments/experiment-1.js:110 | the characters that are not whitespace are kept, in order |
| RandomSiteTitles.CollapseKeepsSingles | scripts/experiments/experiment-1.js:110 | a text without two adjacent whitespace characters is unchanged |
| RandomSiteTitles.CollapseFixedPoints | scripts/experiments/experiment-1.js:110 | a text is unchanged exactly when it has no two adjacent whitespace characters |
| RandomSiteTitles.CollapseIdempotent | scripts/experiments/experiment-1.js:110 | replacing twice gives the same as replacing once |
| RandomSiteTitles.CollapseEmpty | scripts/experiments/experiment-1.js:110-111 | the result is empty exactly when the text is, so only an empty `h1` text is skipped |
| RandomSiteTitles.CollapseAppend | scripts/experiments/experiment-1.js:110 | the replacement works piecewise across a cut just after a character that is not whitespace |
| RandomSiteTitles.CollapseRun | scripts/experiments/experiment-1.js:110 | a maximal run of two or more whitespace characters becomes exactly one space |
| RandomSiteTitles.CollapseLone | scripts/experiments/experiment-1.js:110 | a lone whitespace character, such as a single newline, is kept as it is |
| RandomSiteTitles.HarvestAppend | scripts/experiments/experiment-1.js:102-124 | the entries gathered from two runs of requests are those of the first run followed by those of the second |
| RandomSiteTitles.HarvestShape | scripts/experiments/experiment-1.js:108-114 | there is at most one entry per request, and every entry is unlabeled, non-empty and collapsed |
| RandomSiteTitles.HarvestOfFailures | scripts/experiments/experiment-1.js:115-119 | failed requests add no entries |
| RandomSiteTitles.TitleCollector.constructor | scripts/experiments/experiment-1.js:17-32 | the counters start at 0 and the data is the existing file's data, or empty when there is none |
| RandomSiteTitles.TitleCollector.TrackResponse | scripts/experiments/experiment-1.js:34-37 | the response count goes up by one and the new count is returned |
| RandomSiteTitles.TitleCollector.TrackThree | scripts/experiments/experiment-1.js:34-37 | successive responses are numbered 1, 2, 3 from a fresh state |
| RandomSiteTitles.TitleCollector.WriteFileContent | scripts/experiments/experiment-1.js:95-100 | one unlabeled entry is appended and the earlier entries are kept |
| RandomSiteTitles.TitleCollector.SaveToFile | scripts/experiments/experiment-1.js:81-93 | the whole current data is written to the output |
| RandomSiteTitles.TitleCollector.HandleResponse | scripts/experiments/experiment-1.js:105-119 | each response is counted, and a non-empty collapsed title is appended as an unlabeled entry |
| RandomSiteTitles.TitleCollector.RequestRandomSitesTitle | scripts/experiments/experiment-1.js:102-124 | one request per remaining unit of the amount; the counter ends at 1000 and is never exceeded; the titles are appended in order; the data is saved once at the end |
| RandomSiteTitles.CharacterIndex | scripts/experiments/experiment-1.js:65 | `Math.floor(Math.random() * 26)` is an index into the alphabet |
| RandomSiteTitles.CharactersAreLetters | scripts/experiments/experiment-1.js:62 | the alphabet is the lower-case letters |
| RandomSiteTitles.MakeRandomText | scripts/experiments/experiment-1.js:60-68 | exactly `length` lower-case letters, the i-th being the letter that the i-th random value selects |

## Left out

- The headless browser, HTTP requests, cheerio's HTML parsing and the `h1` selection are replaced by their results, given as parameters.
- File I/O is left out: `path.resolve`, `require` of the JSON file, the `fs-extra` writes and their callbacks, `JSON.stringify`, and `existsSync`. A written file is its content; write errors are left out.
- Console and chalk logging is left out, with the log lines' formatting. The walk neither computes nor logs the progress percentage; `TagCrawl.Percentage` models the formula of line 68 on its own.
- Asynchrony is left out: the promise chains, the ordering of asynchronous callbacks, and the `setInterval` that keeps the crawler alive. Each script is a sequence of steps.
- The crawler's `try`/`catch` retry at lines 74-79 of experiment-2.js is left out. Whatever the recursive call at line 75 throws, the `catch` branch first evaluates `chalk.orange(...)` at line 77, which throws in turn, so the retry at line 78 never runs. The walk then ends after the page just saved, which is a walk whose answers stop there.
- TransformJsonToTxt.ToNumber: only decimal integer literals with an optional sign are parsed. Other `Number` syntaxes (fractions, exponents, hexadecimal, surrounding blanks, `Infinity`) are treated as NaN.
- TransformJsonToTxt.TrainingCount: uses exact rational arithmetic with rounding half up. The binary floating-point error of `(100 - p) / 100` near a half is not modelled.
- TagCrawl.Percentage: uses exact rational arithmetic. The floating-point computation of `c / l * 100` is not modelled.
- A page count that is not a number (`Number` of the pager's text gives NaN) is not modelled; the page count is an integer parameter.
- `makeRandomUrl` and `chance.word` are left out. They only produce the address to request, which the model takes as given with each request's outcome.
- TagCrawl.ReplaceHandle: the destructuring defaults `{name = '', value = ''}` of experiment-2.js:26 are not modelled, since every call passes both fields. The number `1` passed as the value at line 89 is modelled as the string `"1"` that `replace` converts it to.
- JsStrings.Expand: `$<name>` and `$n` are copied literally. With a string pattern there are no capture groups, and none of the scripts' replacements contain them.
- A JSON file without a `data` array, or entries without `labels` or `text`, are not modelled. Entries are well-formed.
- `scripts/exmaple-training.js` and `scripts/clone-build-fasttext.js` are not part of this model.
