# Stock-dashboard scrapers: capture, normalisation and rows extraction in Dafny

This project models the pure decisions inside two Node scripts of a stock
dashboard and proves properties about them.

- `bar-chart-sector.js` drives a browser over a catalog of three Barchart
  pages. For each page it:
  - rewrites the `fields` query parameter of every intercepted quotes request;
  - captures the first response from the quotes endpoint, guarded by a single
    `captured` flag;
  - maps each upstream record to a ten-field record through `||` and `??`
    fallback chains;
  - writes the records to the page's file;
  - polls for the capture in 500 ms steps for at most 60 s.

  Every failure is caught per page, and a launched browser is always closed.
- `finviz-industry.js` accumulates an HTTP body chunk by chunk and extracts
  the embedded `var rows = [...];` array with a regular expression. When
  nothing matches, the script takes its error exit.

Modules:

| file | module | what it holds |
|---|---|---|
| `Wrappers.dfy` | `Wrappers` | `Option` |
| `JsValues.dfy` | `JsValues` | JavaScript values, truthiness, nullishness, `||`, `??`, `?.` and the reference meaning of `||`/`??` chains |
| `Normaliser.dfy` | `Normaliser` | the ten-field record and the `json.data.map(...)` normaliser |
| `Capture.dfy` | `Capture` | `includes`, the response listener as a two-state machine, and the flag-driven dispatcher |
| `QueryRewrite.dfy` | `QueryRewrite` | `URLSearchParams.set` (section 6.2 of the WHATWG URL Standard) and the `fields` rewrite |
| `Poll.dfy` | `Poll` | the bounded wait loop |
| `Cycle.dfy` | `Cycle` | `scrapeTarget` with its fault containment, and `runFullCycle` |
| `FinvizRows.dfy` | `FinvizRows` | body accumulation, and the rows regular expression as a declarative match predicate plus a scanner proved against it |

## Behaviour worth knowing

- The capture flag is set before the body is read. `captured = true` runs before the `try` (bar-chart-sector.js:41-43). The first matching response therefore consumes the capture even when its body fails to parse. The wait loop then ends at once, nothing is saved, and no "no capture" warning is logged.
- The normaliser is not total. `item.symbol` throws a TypeError for an item that is `null` or `undefined`. `json.data.map` throws when the payload is nullish or its `data` is not an array. Both errors land in the same `catch` as a parse failure (bar-chart-sector.js:67-69), so the model returns `None` for them.
- The fallback chains do not test "present" uniformly. `name` and `industry` take the first truthy value, so an empty string, `0` or `false` falls through. The numeric fields and `nextEarningsDate` take the first value that is not `null`/`undefined`. `symbol` and `percentChange` have no fallback and no default.

## Model

| member | source | states |
|---|---|---|
| Normaliser.NormaliseItem | bar-chart-sector.js:52-63 | fails exactly for a nullish item; otherwise `symbol` and `percentChange` are copied from the top level only, `name` is the first truthy of `symbolName`, `name`, `raw.symbolName`, `raw.name` else `'N/A'`, `industry` the first truthy of `industry`, `raw.industry` else `'N/A'`, and each numeric field the first non-nullish of top level and `raw` else `null` (`nextEarningsDate` else `'N/A'`) |
| Normaliser.NormaliseItems | bar-chart-sector.js:52 | the map succeeds exactly when no item is nullish, and then yields one record per item, same length, same order |
| Normaliser.NormalisePayload | bar-chart-sector.js:47-52 | a result exists exactly for a non-nullish payload whose `data` is an array with no nullish element; it then has one record per element, in order, each the normalisation of that element |
| Normaliser.NormalisedFieldsPopulated | bar-chart-sector.js:54-62 | `name` and `industry` are always truthy, the `??` fields are never `undefined`, `nextEarningsDate` is never nullish |
| Normaliser.NameFromRaw | bar-chart-sector.js:54 | with no truthy top-level `symbolName`/`name`, a truthy `raw.symbolName` becomes the name |
| Normaliser.ZeroKeptEmptyReplaced | bar-chart-sector.js:56-57 | a top-level `0` in a `??` field is kept, a top-level empty string in the `||` field falls through to `raw` |
| Normaliser.DefaultsWhenMissing | bar-chart-sector.js:53-62 | an item none of whose read keys holds a present value and whose `raw` is missing yields `'N/A'` name, industry and earnings date, `null` numerics, and its own nullish `symbol` and `percentChange` |
| JsValues.OrChainMeaning | bar-chart-sector.js:54-56 | the parenthesised `||` chains of `name` and `industry` mean "first truthy candidate, else the default" |
| JsValues.CoalesceChainMeaning | bar-chart-sector.js:57-62 | `a ?? b ?? last`, grouped as JavaScript groups it, `(a ?? b) ?? last`, means "first non-nullish candidate, else the default"; the other grouping means the same |
| JsValues.FirstTruthyPicksFirst | bar-chart-sector.js:54 | a `||` chain returns the candidate that is truthy with every earlier one falsy |
| JsValues.FirstPresentPicksFirst | bar-chart-sector.js:57 | a `??` chain returns the candidate that is present with every earlier one nullish, so a present falsy value wins |
| Capture.Contains | bar-chart-sector.js:41 | `url.includes(endpoint)` holds exactly when the endpoint occurs at some position of the URL |
| Capture.CapturedIsFinal | bar-chart-sector.js:41-42 | once captured, no later response changes the state, even when the capture saved nothing |
| Capture.FirstMatchWins | bar-chart-sector.js:40-71 | after any run of responses the state is the handling outcome of the first qualifying one |
| Capture.AwaitingIff | bar-chart-sector.js:41-42 | the listener stays awaiting exactly when no response qualifies |
| Capture.DispatchResponses | bar-chart-sector.js:40-71 | with the mutable flag at most one body is handled, namely the first qualifying one; the flag ends up raised exactly when some response qualifies; the state machine ends captured with that body's handling outcome, or awaiting when none is handled |
| QueryRewrite.SetParam | bar-chart-sector.js:32-35 | afterwards exactly one pair carries the name, with the new value; all other pairs are unchanged and in order; an existing first pair keeps its position with everything before it untouched; otherwise the pair is appended |
| QueryRewrite.RewriteFields | bar-chart-sector.js:30-35 | `fields` ends up as the single fixed ten-name list, readable by `get`, and every other parameter is unchanged |
| QueryRewrite.GetAfterSet | bar-chart-sector.js:32-35 | `get` of the name after `set` answers the set value |
| QueryRewrite.SetParamIdempotent | bar-chart-sector.js:32-35 | setting the same pair twice equals setting it once |
| Poll.WaitForCapture | bar-chart-sector.js:82-89 | `waited` is a multiple of 500 at most 60000 (at most 120 sleeps); on exit the flag is up or the deadline reached; the flag was down at every earlier tick; no capture is reported exactly when the flag is down at every tick up to 120 |
| Cycle.CapturedByMeansCaptured | bar-chart-sector.js:41-42 | the flag the wait loop reads is up exactly when the listener's state over the responses arrived so far is captured |
| Cycle.ScrapeTarget | bar-chart-sector.js:14-101 | a browser is closed exactly when it was launched; an error is logged exactly when a stage throws; without a fault the wait ends at the first capture or the deadline, the state is the listener's over the arrived responses, and the warning fires exactly when nothing was captured |
| Cycle.RunFullCycle | bar-chart-sector.js:103-118 | one run per target of the fixed three-page catalog, in catalog order, each meeting the scrape contract for its own environment regardless of failures elsewhere |
| FinvizRows.SkipSpaces | finviz-industry.js:19 | the greedy `\s*` run from a position: all whitespace, and followed by a non-whitespace character or the end |
| FinvizRows.HeadEnd | finviz-industry.js:19 | the head `var\s+rows\s*=\s*\[` matches at a position with its bracket at `b` exactly when the scanner returns `b` (the bracket position is unique) |
| FinvizRows.CloseFrom | finviz-industry.js:19 | the first `];` at or after a position, or none anywhere after it |
| FinvizRows.FindFrom | finviz-industry.js:19 | the search from a position returns a match whose bracketed part stops at the first `];`, with no match at any earlier start, or none when no match starts later |
| FinvizRows.MatchRows | finviz-industry.js:19-24 | no match (error exit) exactly when the pattern occurs nowhere; otherwise the leftmost, lazy match |
| FinvizRows.ExtractRows | finviz-industry.js:19-26 | the group text exists exactly when some match exists; it is the group of the leftmost match, which is lazy, so it sits in the body right after the head `var\s+rows\s*=\s*` and is followed there by `;`; it starts with `[`, ends with `]`, and holds no `];` before its end |
| FinvizRows.AccumulateBody | finviz-industry.js:10-14 | the body has the total length of the chunks and holds each chunk at its offset, in order |

## Left out

- Browser lifecycle (launch, `newPage`, `page.route`, `goto`, scroll, `waitForTimeout`, `close`): foreign library calls. The model keeps only which stage throws, in `Cycle.Fault`.
- Route glob matching (`**/core-api/v1/quotes/get**`) and `route.continue`: both are browser-library behaviour. The rewrite is modelled on the query of a request that was already intercepted.
- URL parsing, percent-encoding and `url.toString()`: the query is modelled as its parsed list of name-value pairs.
- `response.json()`, `JSON.parse` and `JSON.stringify`: parsing is an `Option` outcome. The property drop that `JSON.stringify` applies to `undefined` fields (such as a missing `symbol`) is not modelled.
- `fs.writeFileSync` and its failures: a capture whose normalisation succeeds counts as written. A write error would be caught and logged by the same `catch`.
- Console logging, including the key dumps of lines 47-50. Those reads can throw: `json.data` for a nullish payload, `Object.keys(json.data[0])` for a nullish first item or for a non-array `data` with a positive `length` and no `"0"` key. Each of these payloads also makes `json.data.map` throw, so the handler reaches the same `catch` with nothing saved.
- Real time and `setTimeout`: replaced by the tick counter and a caller-supplied flag per tick.
- Cycle.ScrapeTarget: the arrival tick of a response stands in for its real time. Tick `k` means the response arrived before the loop's check after `k` sleeps; a response arriving during a sleep belongs to the check that follows it. Tick 0 covers both navigation and the settle delay. On a navigation failure, every tick-0 arrival counts as seen. Responses that arrive after the wait loop ends but before the browser closes are not modelled.
- Cycle.ScrapeTarget: handling a claimed response is atomic at its arrival. In the source the flag is raised at line 42 before `response.json()` is awaited at line 44, so the wait loop can end and the `finally` can close the browser while the body read is pending. Such a read rejects into the catch at line 67; the model shows it only as a body of `None`. A write that does succeed can also happen after `scrapeTarget` has returned.
- Cycle.ScrapeTarget: a failure in `browser.close()` is ignored by the source and is not modelled. A launched browser counts as closed.
- `node-cron` scheduling, the immediate first run, and the `unhandledRejection` hook (bar-chart-sector.js:7-10, 120-130): scheduler and process plumbing. Overlapping cycles are not modelled.
- Floating-point numbers: they are opaque reals that are only tested for zero. JSON cannot produce `NaN`.
- Property reads through prototypes: the normaliser's own reads of an item (`symbol`, `name`, `raw`, …) name no prototype property, so a missing key yields `undefined`. The handler's reads of `length` (line 47) and `map` (line 52) are prototype reads; they are modelled only as the test "`data` is an array".
- Strings are sequences of Unicode scalar values, not UTF-16 code units. The regular expression only matches ASCII literals and the `\s` set, so this does not change which text matches.
- `finviz-industry.js` network I/O (`https.get`, the request error handler), `JSON.parse` of the extracted text, the output file, and `process.exit`. A `None` from `FinvizRows.ExtractRows` stands for the error exit.
- FinvizRows.AccumulateBody: chunks are taken as already-decoded strings. Node converts each `Buffer` chunk separately, so a multi-byte character split across two chunks would decode differently from the model.
