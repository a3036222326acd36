# Kenya Law case-listing scraper, modelled in Dafny

The scraper (one file, `index.js`) downloads five result pages of a court's
advanced search on kenyalaw.org and works through them in a fixed order:

- page 1 is a POSTed search form;
- pages 2 to 5 are GETs, each with the previous page as its Referer.

Each page is saved as `page-<k>.html` as soon as it arrives. The first
rejected request or non-ok status aborts everything after it. If all five
pages arrive, the case records of all five are extracted and written to
`case_metadata.json`. The records are in page order, and within a page in
document order. Each record is one `div.post` container. `trim()` cleans
every field, then `replace(label, '')` removes the first occurrence of the
field's label, then the field is trimmed again. The delivery date then goes
through a date formatter.

The project has five modules:

- `Wrappers` (`wrappers.dfy`): `Option` and `Result`.
- `JsString` (`jsstring.dfy`): the ECMAScript string operations the field
  cleanup is built from.
  - `Trim` uses the exact WhiteSpace and LineTerminator set.
  - `IndexOf` is the first occurrence.
  - `RemoveFirst` is `replace` with a string pattern and an empty
    replacement.
- `Status` (`status.dfy`): `checkStatusAndParse`. An ok status is 200 to 299,
  as in section 2.2.3 of the WHATWG Fetch Standard.
- `Extraction` (`extraction.dfy`): `extractMetadata`, page by page.
  - The HTML parser with its `div.post` selection is a parameter,
    `Selector`. It yields, per container, the texts of the eight selectors.
  - The date library is a parameter, `DateFormatter`.
- `Pipeline` (`pipeline.dfy`): `fetchFivePages`.

`fetchFivePages` takes the network as an input: `outcomes[k - 1]` is what the
k-th request delivers, either a rejection or a response. The method returns a
trace of what the scraper does that the outside world can see:

- `Requested(page, request)`;
- `SavedHtml(name, html)`;
- `SavedMetadata(name, records)`.

The method keeps the source's five unrolled stages and its `forEach` loop.
It is proved equal to `Run`, a specification function. The lemmas then
derive from `Run` what a run promises:

- which pages are requested;
- which files are written, in what order and with what content;
- that the metadata file is all or nothing;
- that nothing after the first failure matters.

The lemmas that only concern aggregation take the per-page extraction as an
abstract `PageExtractor`. `MetadataRecordAt` connects them to `BuildRecord`.

## Model

| member | source | states |
|---|---|---|
| JsString.Trim | index.js:52-59 | `trim()` never leaves whitespace at either end and never lengthens the string |
| JsString.TrimOfPadded | index.js:52-59 | `trim()` removes exactly the surrounding whitespace: any whitespace around a trimmed string is removed and nothing else |
| JsString.TrimIdempotent | index.js:53-59 | trimming a trimmed string changes nothing, so the second `trim()` of each field only matters after a label was removed |
| JsString.IndexOf | index.js:53-59 | the index found is an occurrence and no earlier index is one; `None` means the pattern occurs nowhere |
| JsString.RemoveFirstAbsent | index.js:53-59 | `replace(label, '')` of a text without the label returns it unchanged |
| JsString.RemoveFirstRestores | index.js:53-59 | `replace(label, '')` removes exactly one copy of the label, at its first occurrence: putting it back there restores the text |
| JsString.RemoveFirstIsSplice | index.js:53-59 | `replace(label, '')` is the text with the first occurrence cut out, or the text itself when there is none |
| JsString.RemoveFirst | index.js:53-59 | no contract of its own; characterised by `RemoveFirstAbsent`, `RemoveFirstRestores` and `RemoveFirstIsSplice` |
| Status.CheckStatusAndParse | index.js:40-43 | there is a result exactly when the status is ok (200..299); then it is the body, otherwise a status error carrying the status code |
| Extraction.CleanField | index.js:53-59 | a cleaned field never starts or ends with whitespace |
| Extraction.CleanLabelled | index.js:53-59 | a field whose trimmed text starts with its label yields the rest, trimmed; later copies of the label stay |
| Extraction.CleanWithoutLabel | index.js:53-59 | a field whose trimmed text lacks the label is only trimmed |
| Extraction.CleanMissing | index.js:53-59 | a selector that matched nothing yields an empty field |
| Extraction.CleanStableWithoutLabel | index.js:53-59 | cleaning a cleaned field again changes nothing, provided the label no longer occurs in it |
| Extraction.CleanNotIdempotent | index.js:55 | cleaning is not idempotent in general: "Judge: Judge: X" cleans to "Judge: X", which cleans to "X" |
| Extraction.RecordFieldsTrimmed | index.js:52-75 | every string field of a record is trimmed; the date is the formatter's output on the cleaned date text |
| Extraction.EmptyContainerKept | index.js:50-77 | a container in which nothing was found still yields a record, with all fields empty and the date formatted from "" |
| Extraction.TitleKeepsLabel | index.js:52 | a title without surrounding whitespace is kept exactly as found: it is trimmed but never label-stripped |
| Extraction.BuildRecord | index.js:52-75 | no contract of its own; characterised by `RecordFieldsTrimmed`, `EmptyContainerKept`, `TitleKeepsLabel` and, per field, `CleanLabelled`, `CleanWithoutLabel` and `CleanMissing` |
| Extraction.Records | index.js:50-79 | one record per container |
| Extraction.RecordsAt | index.js:50-79 | the i-th record is built from the i-th container: none dropped, none reordered |
| Extraction.ExtractMetadata | index.js:46-82 | the loop yields exactly one record per container, in document order, each built from its container |
| Pipeline.PageUrl | index.js:88-92 | no contract of its own; characterised by `PageUrls` and `RefererIsPreviousPage` |
| Pipeline.PageUrls | index.js:88-92 | the five page URLs are the search endpoint and its `page/10/` to `page/40/` offsets, letter for letter |
| Pipeline.RequestFor | index.js:95-197 | no contract of its own; characterised by `RefererIsPreviousPage` and `PageUrls` |
| Pipeline.RefererIsPreviousPage | index.js:95-197 | page 1 is POSTed to the search endpoint with the search-courts Referer; page k > 1 is a GET of its own URL whose Referer is the URL of page k - 1 |
| Pipeline.PageFileName | index.js:125-201 | page k is saved as `page-<k>.html` |
| Pipeline.FileNamesDistinct | index.js:29-201 | distinct pages go to distinct files, and no page overwrites the metadata file |
| Pipeline.LeadingSuccesses | index.js:115-201 | counts the successful stages before the first failing one: all those before succeed, the one it stops at fails |
| Pipeline.Bodies | index.js:204 | the HTML of the first n pages, one entry per page, in page order |
| Pipeline.FetchPage | index.js:116-125 | a stage always issues its request; it has HTML exactly when the request succeeded with an ok status, and only then saves the body; otherwise it fails with the rejection or the status code |
| Pipeline.Progress | index.js:115-201 | no contract of its own; characterised by `ProgressLength`, `ProgressAt`, `ProgressProjections`, `ProgressRequestAt` and `ProgressDependsOnPrefix` |
| Pipeline.AllRecords | index.js:208-213 | no contract of its own; characterised by `CollectMetadata`, `AllRecordsAppend`, `AllRecordsPageOrder` and `AllRecordsAt` |
| Pipeline.Run | index.js:115-218 | no contract of its own; characterised by `FetchFivePages`, `RunShape`, `RunProjections`, `AbortedRun`, `CompletedRun`, `MetadataAllOrNothing`, `RequestFollowsSave` and `LaterOutcomesIgnored` |
| Pipeline.FinalEffect | index.js:115-218 | no contract of its own; characterised by `RunAborted` and `RunCompleted` |
| Pipeline.StageDone | index.js:116-125 | a stage whose request succeeded appends its request and its save to the stages before it |
| Pipeline.RunAborted | index.js:115-218 | when request k is the first to fail, the run is the first k - 1 stages followed by request k, and nothing else |
| Pipeline.RunCompleted | index.js:115-215 | when all five requests succeed, the run is the five stages followed by the metadata file with the records of the five bodies |
| Pipeline.RunShape | index.js:115-218 | a run is the 2n effects of its n successful stages and one more: a request for page n + 1 exactly when n < 5 |
| Pipeline.ProgressLength | index.js:115-201 | n successful stages have 2n effects |
| Pipeline.ProgressStep | index.js:116-125 | stage n adds page n to the requests and page n with its body to the saved pages, and no metadata |
| Pipeline.ProgressRequests | index.js:115-201 | n successful stages request pages 1..n, in order |
| Pipeline.ProgressSaves | index.js:115-201 | n successful stages save pages 1..n, in order, each with its body |
| Pipeline.ProgressWritesNoMetadata | index.js:115-201 | no stage writes the metadata file |
| Pipeline.ProgressLast | index.js:115-201 | the last effect of n > 0 stages is the save of page n with its body |
| Pipeline.ProgressRequestAt | index.js:115-201 | the request for page p among the stages sits at position 2(p - 1), is the fixed request for p, and for p > 1 follows the save of page p - 1 |
| Pipeline.RunRequests | index.js:115-218 | a run requests pages 1..n, then page n + 1 exactly when n < 5 |
| Pipeline.RunSaves | index.js:115-218 | a run saves exactly the pages its successful stages saved |
| Pipeline.RunMetadata | index.js:204-218 | a run writes no metadata file after a failure, and exactly one, with the records of the five bodies, otherwise |
| Pipeline.FetchFivePages | index.js:85-219 | the run's effects are exactly `Run`: the stages up to the first failure, then either the failing request alone, or the metadata file |
| Pipeline.CollectMetadata | index.js:208-213 | the `forEach` loop yields the concatenated records of the pages, in page order |
| Pipeline.ProgressProjections | index.js:115-201 | n successful stages request pages 1..n, save pages 1..n in that order with their bodies, and write no metadata |
| Pipeline.RunProjections | index.js:115-218 | requests, saved pages and metadata files of a run, in terms of the number of leading successes |
| Pipeline.AbortedRun | index.js:115-218 | when request k + 1 is the first to fail, pages 1..k + 1 are requested and none after, pages 1..k are saved in order, and no metadata file is written |
| Pipeline.CompletedRun | index.js:115-215 | when all five succeed, pages 1..5 are requested and saved in order, and exactly one `case_metadata.json` holds the records of the five bodies |
| Pipeline.MetadataAllOrNothing | index.js:204-218 | the metadata file is written at most once, and exactly when all five requests succeed |
| Pipeline.ProgressAt | index.js:115-201 | stage k's request and save sit at positions 2(k-1) and 2(k-1)+1 |
| Pipeline.RequestFollowsSave | index.js:115-201 | every request is the fixed request for its page; the run starts with page 1; page p > 1 is requested only right after page p - 1 was saved |
| Pipeline.ProgressDependsOnPrefix | index.js:115-201 | the first n stages depend only on the first n outcomes |
| Pipeline.LaterOutcomesIgnored | index.js:115-218 | after the first failure, what later requests would have delivered does not change a single effect |
| Pipeline.AllRecordsAppend | index.js:210-213 | aggregating two lists of pages is aggregating each and concatenating |
| Pipeline.AllRecordsPageOrder | index.js:210-213 | a page's records come after those of every earlier page and before those of every later page |
| Pipeline.AllRecordsAt | index.js:210-213 | record j of page p sits at offset j after all records of the earlier pages |
| Pipeline.MetadataRecordAt | index.js:50-213 | that record of the metadata file is the record built from container j of page p |

## Left out

- HTTP transport is left out: cookies (`fetch-cookie`), the form fields,
  and all headers other than the Referer. A request is reduced to URL, verb
  and Referer.
- `response.text()` is taken to yield the body. A failure while reading the
  body is not modelled.
- The HTML parsing and CSS selection of cheerio, including `:contains` and
  the concatenation of several matched elements' text, is a `Selector`
  parameter.
- moment's date parsing and formatting is a `DateFormatter` parameter.
- `fs.writeFile` and its callbacks are left out, since the file system is not
  modelled.
  - A save is the event of issuing a write with a name and content.
  - Write completion, write errors and their order are not modelled.
  - Console logging is not modelled.
- `JSON.stringify` is left out. The metadata file holds the records as
  values, not their JSON text.
- The top-level `fetchFivePages()` call and the async scheduling are left
  out. The stages already run strictly one after another.
- The error message text `Status Code Error: <status>` is left out. The
  error keeps only the status code.
- Strings are sequences of code points, not of UTF-16 code units. This
  makes no difference here, because every label and whitespace character
  is in the Basic Multilingual Plane.

## Where the description of the system and the code differ

The code is followed in each case:

- **The error.** The system's description says the run surfaces a fetch
  failure and ends non-zero. In the code, `catch` logs the error and the
  function returns normally. `FetchFivePages` therefore has no error
  result.
- **Idempotence.** The description calls field normalisation idempotent.
  `replace` removes only the first occurrence of a label, so idempotence
  fails when the label is repeated (`CleanNotIdempotent`). It holds only
  once the label no longer occurs (`CleanStableWithoutLabel`).
- **Order of stages.** The description interleaves fetching and extraction
  page by page. The code fetches and saves all five pages first, then
  extracts. Extraction therefore never runs unless every page arrived.
