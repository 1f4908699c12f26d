# JiraDiffReporter — a Dafny model of its report pipeline

JiraDiffReporter is a console program (`Program.cs`). It pages through a Jira
search with the changelog expanded, then keeps the edits to each issue's summary
and description made inside a window of the last N days. It renders each edit as
an HTML line diff and lists the issues created in the same window. This project
models the deterministic parts of `Main` and `RenderDiffHtml` and proves what
they guarantee:

- `CommandLine` (command_line.dfy): the `-d`/`-days` scan over the arguments.
  It includes a model of `int.TryParse`.
- `Pagination` (pagination.dfy): the `while (startAt < total)` paging loop.
  The search endpoint is a function from the offset to the page it returns.
- `Changes` (changes.dfy): the LINQ query that turns an issue's history into
  changes.
- `Report` (report.dfy): the sections the report gets, one per issue with
  changes, and the list of new issues.
- `DiffHtml` (diff_html.dfy): `RenderDiffHtml`. The diff it renders is an input.
- `Html` (html.dfy): `WebUtility.HtmlEncode`, plus a decoder for the
  references it writes.
- `Jira` (jira.dfy): the DTO classes, as datatypes.
- `Numerals` and `Sequences`: helpers.

Timestamps are integers that stand for the local-time instants the program
compares. The cutoff (`DateTime.Now` minus the window) is a parameter.

Three behaviours of `Program.cs` matter for what is proved. The model keeps
each of them:

- Repeated edits of one field are not merged. Every tracked item of every
  history entry in the window becomes its own change and its own diff block.
  `Changes.RepeatedEditsNotMerged` shows two summary edits giving two changes.
- The paging loop has no guard against an empty page while `startAt < total`.
  Such a page is requested again forever. The model makes progress a
  precondition (`Pagination.Progresses`), and `Pagination.EmptyPageStalls`
  shows the stall.
- The extracted changes stay in history order and then item order. Nothing
  sorts them.

## Model

| member | source | states |
|---|---|---|
| CommandLine.ScanDays | Program.cs:21-31 | the loop, with the consumed value token skipped, ends with the window of the argument scan |
| CommandLine.DefaultWithoutFlag | Program.cs:21-31 | `WindowDays`: with no `-d`/`-days` followed by a number anywhere, the window stays 7 |
| CommandLine.LastFlagWins | Program.cs:22-30 | `WindowDays`: otherwise the value after the last flag that is followed by a number decides |
| CommandLine.ScanFromLastFlag | Program.cs:22-30 | `ScanFrom`: from any position, the last valid flag at or after it decides, whatever value was set before |
| CommandLine.ScanFromNoFlag | Program.cs:22-30 | `ScanFrom`: from any position with no valid flag after it, the value set so far stays |
| CommandLine.AppendNonNumber | Program.cs:24-26 | a trailing token that is not a number (a flag at the end, or a flag's non-numeric value) changes nothing |
| CommandLine.ScanAppendNonNumber | Program.cs:24-26 | scanning from any position is unaffected by a trailing non-number |
| CommandLine.AppendFlagAndNumber | Program.cs:24-28 | `-d`/`-days` followed by a number at the end sets the window to that number |
| CommandLine.FlagIsNotNumber | Program.cs:24-29 | `-d` and `-days` never parse as an `int`, so the token consumed by `i++` could never have been a flag |
| CommandLine.ParseFormat | Program.cs:26 | `int.TryParse` reads back every `int` written in decimal, negative ones included |
| CommandLine.ParseInt32Shape | Program.cs:26 | `ParseInt32`, the model of `int.TryParse`, succeeds only on text holding a digit, and fails on any character other than white space, NUL, a digit or a sign |
| CommandLine.TrimLeadingWhiteSpec | Program.cs:26 | the leading white space `int.TryParse` skips is removed entirely and nothing else: a suffix that does not start with white space |
| CommandLine.TrimTrailingWhiteSpec | Program.cs:26 | the trailing white space is removed entirely and nothing else: a prefix that does not end in white space |
| CommandLine.TrimTrailingNulSpec | Program.cs:26 | the trailing NUL characters are removed entirely and nothing else: a prefix that does not end in NUL |
| CommandLine.TrimmedKeeps | Program.cs:26 | trimming keeps every character other than white space and NUL, and adds none |
| Pagination.FetchAll | Program.cs:57-70 | the collected list is the in-order concatenation of the pages; `startAt` equals its length; on exit `startAt >= total`, with `total` taken from the last page, and `startAt` is where `OffsetAfter` ends |
| Pagination.CollectedSpans | Program.cs:60-69 | the issues collected from an offset start with that offset's page and end where the last page requested ends |
| Pagination.Step | Program.cs:67-69 | one pass takes the page's total, and `startAt` advances exactly when the page holds issues |
| Pagination.OffsetAfter | Program.cs:60-69 | `startAt` never decreases, however many passes the loop makes |
| Pagination.OffsetAfterEnds | Program.cs:60-69 | with progress, enough passes of one loop step end just past the issues collected, where `FetchAll` ends |
| Pagination.LastOffset | Program.cs:59-69 | the last page requested lies at or after the start, and its end reaches the total it reports |
| Pagination.EmptyPageStalls | Program.cs:60-69 | an empty page below its total leaves `startAt` unchanged after any number of passes, so the loop never ends |
| Pagination.ServesListProgresses | Program.cs:57-69 | a server that serves one list in non-empty in-order slices of any size, and nothing past its end, meets the progress precondition |
| Pagination.CollectedSuffix | Program.cs:60-69 | against such a server, the issues collected from any offset inside the list are the rest of the list |
| Pagination.CollectsWholeList | Program.cs:57-69 | against such a server, the loop collects exactly the whole list, in order, as many issues as the total |
| Changes.ChangeOf | Program.cs:92-97 | a change keeps the entry's time, the item's field, and its from and to values, with a missing value read as "" |
| Changes.ItemChanges | Program.cs:90-97 | one entry gives at most one change per item, each at the entry's time and for the summary or description |
| Changes.Extract | Program.cs:88-98 | every change extracted from a history is at or after the cutoff and for the summary or description |
| Changes.IssueChanges | Program.cs:88-98 | the same for the changes of one issue |
| Changes.ExtractSound | Program.cs:88-98 | every change is for the summary or description, at or after the cutoff, and comes from one item of one in-window entry |
| Changes.ItemChangesSound | Program.cs:90-97 | every change of one entry comes from one of its tracked items |
| Changes.ExtractComplete | Program.cs:88-98 | every tracked item of every in-window entry is extracted |
| Changes.ItemChangesComplete | Program.cs:90-97 | every tracked item of one entry is extracted |
| Changes.ExtractAppend | Program.cs:88-98 | extraction follows history order: earlier entries' changes come first |
| Changes.ItemChangesAppend | Program.cs:90-97 | within an entry, extraction follows item order |
| Changes.RepeatedEditsNotMerged | Program.cs:88-105 | two in-window edits of the summary give two changes, not one net change |
| DiffHtml.TagOf | Program.cs:133-138 | `ins` exactly for inserted lines, `del` exactly for deleted lines, `span` for every other kind |
| DiffHtml.RenderDiffHtml | Program.cs:128-143 | the loop returns `<div>`, then one element per line, then `</div>` |
| DiffHtml.RenderedRoundTrip | Program.cs:128-143 | `Rendered`: the markup reads back as one element per input line, in order, tagged by `TagOf` and holding that line's text |
| DiffHtml.ParseRendered | Program.cs:131-141 | the line elements up to `</div>` read back as the classified input lines |
| DiffHtml.ParsePiece | Program.cs:139 | one line's element reads back as its tag and its unescaped text |
| DiffHtml.PieceHtml | Program.cs:139 | one line's markup opens an element and ends in a line break |
| DiffHtml.Pieces | Program.cs:131-140 | the lines' markup is empty exactly when the diff has no lines |
| DiffHtml.PiecesSnoc | Program.cs:131-140 | appending a line appends its element |
| DiffHtml.Classified | Program.cs:131-139 | one block per line, carrying the line's tag and text |
| DiffHtml.FirstLt | Program.cs:139 | finds the first `<`, where an escaped text ends |
| Html.Encode | Program.cs:139 | escaped text contains no `<`, `>`, `"` or `'` |
| Html.EncodeChar | Program.cs:139 | exactly `&`, the markup characters and the numerically escaped ones start a reference; none leaves a markup character |
| Html.Decode | Program.cs:139 | decoding never lengthens the text, and text without `&` decodes to itself |
| Html.DecodeEncode | Program.cs:139 | escaping loses nothing: decoding gives the original text back |
| Html.DecodeEncodeChar | Program.cs:139 | each character's escape decodes to that character |
| Html.DecodeNamed | Program.cs:139 | `&lt;`, `&gt;`, `&amp;` and `&quot;` decode to their characters |
| Html.DecodeNumeric | Program.cs:139 | a numeric reference `&#N;` decodes to character N |
| Html.NumericReferenceOf | Program.cs:139 | a numeric reference is read up to its `;` |
| Numerals.Digits | Program.cs:139 | a decimal numeral is non-empty digits with no leading zero |
| Numerals.ValueOfDigits | Program.cs:139 | reading a numeral back gives the number |
| Numerals.DigitRun | Program.cs:139 | measures the maximal run of leading digits |
| Numerals.DigitRunOfNumeral | Program.cs:139 | a numeral followed by a non-digit is measured exactly |
| Report.ChangeLines | Program.cs:101-105 | one heading and one rendered diff per change, in order |
| Report.AppendChanges | Program.cs:101-105 | the inner loop appends exactly those lines |
| Report.NewEntries | Program.cs:115-116 | one entry per new issue, in order, with its key and summary |
| Report.AppendNewEntries | Program.cs:115-116 | the `ForEach` appends exactly those entries |
| Report.BuildReport | Program.cs:76-120 | the report is the preamble, the sections in fetch order, the new-issue list and the end of the document |
| Report.SectionOfIssue | Program.cs:99-105 | `Section`: an issue gets a section iff it has a change in the window, with a heading and then one heading and diff per change |
| Report.SectionsAppend | Program.cs:86-106 | `Sections`: the sections follow the fetch order of the issues |
| Report.NewIssuesExact | Program.cs:109-111 | the new issues are exactly the fetched issues created at or after the cutoff |
| Report.NewIssuesAppend | Program.cs:109-111 | the new issues keep the fetch order |
| Report.NewIssues | Program.cs:109-111 | at most as many issues as fetched, each created at or after the cutoff |
| Report.NewSection | Program.cs:112-118 | empty exactly when there are no new issues; otherwise a heading, then each issue's entry with its key and summary, in order, then the closing line |
| Report.Document | Program.cs:76-120 | the report opens with the preamble for the window and closes with the end of the document |
| Report.NewSectionPresent | Program.cs:112-118 | the new-issue list is emitted iff some fetched issue is new |
| Report.QuietOldIssueInvisible | Program.cs:86-118 | an issue with no changes in the window, created before the cutoff, leaves no trace in the report |

## Left out

- Configuration and credentials (Program.cs:34-47) are foreign library calls.
  So are the HTTP client, the Basic-auth header, URL encoding and JSON
  deserialisation (Program.cs:50-54, 62-66). A page is the result of the
  `search` parameter. HTTP failures and an unparsable page both throw in the
  code and are not modelled.
- Clock and time handling (Program.cs:73, 81, 89, 93, 103, 110) are left out.
  This covers `DateTime.Now`, `DateTime.Parse`, `ToLocalTime` and date
  formatting. Instants are integers and the cutoff is a parameter. A timestamp
  that does not parse throws in the code. The model has no such case.
  `DateTime.Now.AddDays(-tage)` (Program.cs:73) also throws when the window
  reaches outside the range of `DateTime`, for example with `-d 1000000`. So
  not every window `WindowDays` returns leads to a report.
- DiffPlex's line diff (Program.cs:83, 104) is an external library. The
  `differ` parameter of `Report` stands for it, so no diff round-trip is proved.
- Writing the file and the console message (Program.cs:123-125) are output
  only.
- The fixed text of the report is abstracted into the kind of each `Report.Line`
  (Program.cs:77-81, 100, 103, 114, 116-117, 120). This covers the style sheet,
  heading wording, date formats and the `basisUrl` links. The code writes the
  key and summary into the headings without escaping. The model keeps them as
  plain fields.
- Pagination.FetchAll: requires progress (an empty page only at or beyond its
  total, and no `int` overflow of `startAt`) at every offset, not only at the
  offsets the loop reaches. The C# `+=` would wrap around past `int.MaxValue`.
  That case is excluded rather than modelled.
- CommandLine.ParseInt32 uses the invariant culture's `+` and `-` signs. Other
  cultures' sign strings are not modelled.
- Html.Encode: lone UTF-16 surrogates cannot occur in a Dafny string.
  `WebUtility.HtmlEncode` writes them as U+FFFD, and that case is not modelled.
  A character outside the Basic Multilingual Plane is escaped as one numeric
  reference, as the library does for a valid surrogate pair.
- DiffPiece text that is null is not modelled. `HtmlEncode(null)` returns null,
  and the string interpolation writes it as empty text.
