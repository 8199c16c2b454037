# YouTube downloader front end — a Dafny model of its logic

The front end is a React application. On its download page you paste a YouTube
link, fetch the video's details, and download it as video or audio, by the
normal or the fast route. You can also ask the backend for an AI summary of the
video, which opens in a dialog that exports to a Word document. A history page
lists the backend's usage log a page at a time. From any row whose status is
exactly `success` you can reopen the stored summary.

Most of the code is rendering and `fetch` plumbing. This project models the
logic underneath it and proves properties of it:

| module | file | what it models |
|---|---|---|
| `Text` | text.dfy | The JavaScript built-ins the components rely on: number `toString`, `parseInt`, `padStart(2, '0')`, `trim`, ASCII `toLowerCase`/`toUpperCase` and first-occurrence `replace`. It also holds `Split`/`Join`, which the source does not call: they serve the model's own duration readers in the round-trip lemmas. |
| `Types` | types.dfy | The records of `src/types.ts`, `T \| null`, string truthiness and `\|\|`, and the outcome of one request. |
| `Duration` | duration.dfy | Splitting seconds into hours, minutes and seconds. The clock text (`1:02:03`) appears twice in the source and is defined once here. The Thai worded text (`1 ชั่วโมง 2 นาที 3 วินาที`) is the document's. Both have strict readers proved inverse to them. |
| `ExportDocx` | export_docx.dfy | The ordered paragraphs of the exported Word document and the sanitised file name. |
| `SummaryModal` | summary_modal.dfy | What the summary dialog shows, and its export flag. |
| `Downloader` | downloader.dfy | The download form as a state record. Each handler is split at its `await` into a start and a completion that receives the backend's reply. The model includes the UI guards on each event and an invariant every reachable state keeps. The view-count label is here too. |
| `History` | history.dfy | History paging, the status and route chips, mapping a stored summary into the dialog, and the dialog's close. |

The model makes no requests. A request's outcome is a parameter of type
`Reply`, with three cases:

- a parsed body;
- a response that is not ok, carrying its `error` field;
- an exception, carrying its message.

The moment at which a reply arrives is an event of the state machine.

## Model

| member | source | states |
|---|---|---|
| `Text.Trim` | src/components/YouTubeDownloader.tsx:81 | The trimmed link is empty exactly when every character is ECMAScript white space or a line terminator. Otherwise it neither starts nor ends with one. |
| `Text.Pad2RoundTrip` | src/components/YouTubeDownloader.tsx:66 | `padStart(2, '0')` of a number below 100 is exactly two digits and reads back as the number. |
| `Text.ValueOfDec` | src/components/YouTubeDownloader.tsx:77 | The decimal text of a natural number reads back as that number. That text is what `toString` prints for integers below 1e21. |
| `Text.RemoveFirstAt` | src/components/History.tsx:196 | `replace('/', '')` removes exactly the first slash and keeps everything after it, later slashes included. |
| `Text.ToLowerMatches` | src/components/History.tsx:112 | Lower-casing gives a lower-case word exactly for the spellings of that word in any mix of letter cases. |
| `Types.SourceKindOf` | src/utils/exportDocx.ts:112 | The transcript counts as a subtitle source exactly when its source text is `subtitle`. Any other text, the empty one included, counts as audio. |
| `Types.PresentSectionsSpec` | src/components/SummaryModal.tsx:175-266 | The highlights, papers and conclusion blocks are present exactly when their list or text is non-empty, and they are listed strictly in that order. |
| `Duration.Decompose` | src/utils/exportDocx.ts:13-16 | hours·3600 + minutes·60 + seconds equals the input, minutes and seconds are below 60, and hours are positive exactly from 3600 seconds on. |
| `Duration.DecomposeUnique` | src/components/YouTubeDownloader.tsx:61-63 | Any split with minutes and seconds below 60 is the one computed, so the split is unique. |
| `Duration.ClockShape` | src/components/YouTubeDownloader.tsx:60-69 | The clock has three `:`-fields exactly from an hour on. Minutes and seconds then have exactly two digits. Below an hour the last field has two digits and the minutes are the unpadded number. |
| `Duration.ClockRoundTrip` | src/components/SummaryModal.tsx:41-50 | Reading the clock text back gives the hours, minutes and seconds of the duration. |
| `Duration.ClockParseSound` | src/components/SummaryModal.tsx:41-50 | Every text the reader accepts is exactly the clock text of the duration it reads. The reader therefore accepts nothing the formatter cannot produce. |
| `Duration.ClockInjective` | src/components/YouTubeDownloader.tsx:60-69 | Different durations give different clock texts. |
| `Duration.WordedShape` | src/utils/exportDocx.ts:18-21 | The worded text has six words, starting with the hour count and the hour word, exactly from an hour on. Below an hour it has four words and no hour word. It always ends with the seconds word. |
| `Duration.WordedRoundTrip` | src/utils/exportDocx.ts:13-22 | Reading the worded text back gives the hours, minutes and seconds of the duration. |
| `Duration.WordedParseSound` | src/utils/exportDocx.ts:19-21 | Every text the worded reader accepts is the worded text of the duration it reads. |
| `Duration.WordedInjective` | src/utils/exportDocx.ts:18-21 | Different durations give different worded texts. |
| `ExportDocx.ExportDocument` | src/utils/exportDocx.ts:24-306 | The document length is 7 fixed paragraphs, plus 1 + 2n for n highlights when there are any, plus a heading, one title per paper and one bullet per finding when there are papers, plus 2 for a non-empty conclusion. |
| `ExportDocx.ExportFrame` | src/utils/exportDocx.ts:27-119 | For every summary the document opens with the banner, the divider, the title and the info line (author, duration, transcript source). It ends with the three footer paragraphs of lines 261-306. |
| `ExportDocx.ExportDuration` | src/utils/exportDocx.ts:101-105 | The duration on the info line reads back as the summary's duration split into hours, minutes and seconds. |
| `ExportDocx.ExportOutline` | src/utils/exportDocx.ts:121-259 | The section headings in the document are exactly the sections the summary has content for, in the order highlights, papers, conclusion. |
| `ExportDocx.ExportBullets` | src/utils/exportDocx.ts:206-224 | The document holds exactly one bullet per key finding, summed over all papers. |
| `ExportDocx.ExportHighlightNumbering` | src/utils/exportDocx.ts:138-165 | The i-th highlight's numbered title i+1 is paragraph 5+2i and its description is paragraph 6+2i, in list order. |
| `ExportDocx.PaperParas` | src/utils/exportDocx.ts:185-227 | The papers block has one paragraph per paper plus one per key finding, summed over the papers. |
| `ExportDocx.PaperParasAt` | src/utils/exportDocx.ts:185-226 | The block keeps list order. Paper i's `[source] title` line comes after the title lines and bullets of the papers before it. The next paragraphs are one bullet per key finding of paper i, and paper i+1 starts right after them. |
| `ExportDocx.SanitizeTitle` | src/utils/exportDocx.ts:328 | The length is min(\|title\|, 100). Character i is `-` where the title's character is one of ``/ \ ? % * : \| " < >`` and is unchanged elsewhere. No forbidden character remains. |
| `ExportDocx.SanitizeIdempotent` | src/utils/exportDocx.ts:328 | Sanitising a sanitised title changes nothing. |
| `ExportDocx.SanitizeFixedPoint` | src/utils/exportDocx.ts:328 | A title is left unchanged exactly when it has at most 100 characters and no forbidden one. |
| `ExportDocx.ExportFileName` | src/utils/exportDocx.ts:329 | The file name is the sanitised title followed by `-summary.docx`. Both parts can be read back from it, and its length is at most 100 plus the suffix. |
| `SummaryModal.ShownSections` | src/components/SummaryModal.tsx:137 | Blocks appear only while the body shows (`!loading && !error && summary`), and then they are the summary's present sections. |
| `SummaryModal.BodyExcludesOthers` | src/components/SummaryModal.tsx:108-137 | The body never shows with the progress or the error block. Without either of those it shows exactly when there is a summary. |
| `SummaryModal.ScreenMatchesExport` | src/components/SummaryModal.tsx:175-266 | The dialog shows the same sections, in the same order, as the exported document's headings. |
| `SummaryModal.SourceChipOf` | src/components/SummaryModal.tsx:165 | The chip says Subtitle exactly when the source is `subtitle`, and Audio otherwise. |
| `SummaryModal.ChipLabelSpec` | src/components/SummaryModal.tsx:165 | The two chip texts differ, so the label alone tells whether the source was `subtitle`. |
| `SummaryModal.BeginExport` | src/components/SummaryModal.tsx:61-64 | Without a summary the export does nothing and the flag stays as it was. With a summary only the flag changes, to true, and the export of that summary's document under its sanitised name starts. |
| `SummaryModal.FinishExport` | src/components/SummaryModal.tsx:65-70 | Whatever the outcome, the flag ends false and nothing else changes. |
| `SummaryModal.ExportCycle` | src/components/SummaryModal.tsx:61-71 | An export attempt with a summary, successful or failed, returns the dialog to its previous state with the flag down. Without a summary the handler returns before its `finally`, which `BeginExport` states. |
| `SummaryModal.ExportButtonGuards` | src/components/SummaryModal.tsx:311 | An enabled export button always starts an export, and while the export runs the button is disabled. |
| `SummaryModal.ExportWritesShownSummary` | src/components/SummaryModal.tsx:63 | When the body shows, the export writes a document whose sections are the ones on screen. |
| `Downloader.FailureText` | src/components/YouTubeDownloader.tsx:101-108 | A failed request leaves a non-empty error text: the body's `error` field, else the generic server text, for a response that is not ok; the exception's message, else the handler's own fallback, for an exception. |
| `Downloader.EditLink` | src/components/YouTubeDownloader.tsx:239-244 | Typing replaces the link and clears the error, the fetched information and the progress line. No other field changes. |
| `Downloader.PickFormat` | src/components/YouTubeDownloader.tsx:329-333 | A `null` choice leaves the state unchanged. Any other choice only sets the format, which is therefore always video or audio. |
| `Downloader.BeginFetchInfo` | src/components/YouTubeDownloader.tsx:80-90 | A blank link only sets the "enter a link" error, leaving loading and the information untouched. Otherwise loading starts with the error, information and progress cleared and nothing else changed. |
| `Downloader.FinishFetchInfo` | src/components/YouTubeDownloader.tsx:91-111 | Loading ends. Success stores the information. Failure stores the failure text and keeps the information. |
| `Downloader.RequestFor` | src/components/YouTubeDownloader.tsx:127-136 | The fast route carries no format. The normal route carries the current format. The file name is the title plus an extension that is `.mp3` exactly for a normal audio download and `.mp4` otherwise. |
| `Downloader.RunningProgress` | src/components/YouTubeDownloader.tsx:129-135 | The progress line names the fast, audio or video download exactly for that route and format. |
| `Downloader.BeginDownload` | src/components/YouTubeDownloader.tsx:114-136 | Without fetched information only the "fetch first" error is set: loading and progress are untouched. Otherwise loading starts with the error cleared, the request for the current link, title and format, and the matching progress line. |
| `Downloader.FinishDownload` | src/components/YouTubeDownloader.tsx:138-162 | Loading ends. Success shows the done line and starts a clearing timer. Failure sets the error text and clears the line. |
| `Downloader.TimerFires` | src/components/YouTubeDownloader.tsx:155 | A pending timer clears the progress line and nothing else. |
| `Downloader.BeginSummarize` | src/components/YouTubeDownloader.tsx:165-174 | A blank link only sets the form's error. Otherwise the dialog opens loading with the previous summary and error cleared, and nothing else changes. |
| `Downloader.FinishSummarize` | src/components/YouTubeDownloader.tsx:176-196 | Loading ends. Success stores the summary. Failure stores a non-empty error text. |
| `Downloader.CloseSummary` | src/components/YouTubeDownloader.tsx:199-203 | The dialog closes and forgets its summary and error. Nothing else changes. |
| `Downloader.Enabled` | src/components/YouTubeDownloader.tsx:245-407 | When each event is available. Typing needs `!loading` (line 245). Fetching needs `!loading` and a non-empty link (line 252). The format toggle and both download buttons exist only once information is fetched (line 283), and the download buttons also need `!loading` (lines 375 and 388). Summarizing needs the information, `!loading` and `!summaryLoading` (line 407). A reply needs its request in flight, closing needs an open dialog, and the progress timer needs a pending timer. |
| `Downloader.FormLockedWhileLoading` | src/components/YouTubeDownloader.tsx:245-407 | In a valid state, typing, fetching, downloading and summarizing are available only when no fetch or download is in flight, so those requests never overlap. The toggle and the download buttons are available only with fetched information for a non-blank link. |
| `Downloader.SummaryOverlapsDownload` | src/components/YouTubeDownloader.tsx:375-407 | From a valid state with fetched information and nothing loading, a summary request followed by a download is allowed. It gives a valid state with both requests in flight. Their replies give the same state in either order. |
| `Downloader.ProgressAlert` | src/components/YouTubeDownloader.tsx:272-278 | The progress alert shows exactly when there is progress. Its text includes the success word, which makes it the success alert, exactly when the download is done. |
| `Downloader.ValidPreserved` | src/components/YouTubeDownloader.tsx:80-203 | Every event the page makes available keeps the invariant. The invariant: loading holds exactly while a fetch or download is in flight; a fetch starts from a non-blank link with everything cleared; a download runs for the fetched video and the current link; errors shown are non-empty; a loading summary has neither result nor error; result and error never coexist. |
| `Downloader.RunValid` | src/components/YouTubeDownloader.tsx:45-56 | Every state reached from a valid state by a sequence of available events is valid. |
| `Downloader.ReachableValid` | src/components/YouTubeDownloader.tsx:45-56 | Every state reachable from the mount state is valid. |
| `Downloader.SummarizeLinkNeverBlank` | src/components/YouTubeDownloader.tsx:406-407 | The summarize button sits in the block shown only after a fetch, so when it is enabled the link is never blank. It always opens the dialog and leaves the form's error alone. |
| `Downloader.BlankFetchReachable` | src/components/YouTubeDownloader.tsx:251-252 | The fetch button checks only for an empty link, so a link of spaces enables it. The handler's blank branch then leaves only an error. |
| `Downloader.DialogShowsOneThing` | src/components/YouTubeDownloader.tsx:467-473 | In every valid state the dialog shows at most one of progress, error and summary. Its error shows exactly when there is one. An enabled export button means the summary is on screen. |
| `Downloader.CloseForgetsSummary` | src/components/YouTubeDownloader.tsx:199-203 | After a summary request ends and the dialog is closed, neither a summary nor an error is left to show. |
| `Downloader.ViewsLabelSpec` | src/components/YouTubeDownloader.tsx:71-78 | The label's last character is `M`, `K` or a digit exactly in those three ranges. Below 1000 the label is the canonical decimal of the count and reads back as it. |
| `History.RowOnOnePage` | src/components/History.tsx:50 | With `limit = rowsPerPage` and `offset = page * rowsPerPage`, row r is returned for exactly one page: page r / rowsPerPage. |
| `History.PagesAdjacent` | src/components/History.tsx:50 | Each page's request starts where the previous page's ends. |
| `History.Initial` | src/components/History.tsx:31-36 | On mount the page is loading the first page: offset 0, with an offered page size. |
| `History.BeginFetchHistory` | src/components/History.tsx:46-50 | Loading starts with the error cleared, and the request returns exactly the rows of the current page. |
| `History.FinishFetchHistory` | src/components/History.tsx:51-59 | Loading ends. Success replaces rows and total. A response that is not ok sets the fixed history error. An exception sets its message. On failure the previous rows stay. |
| `History.Repage` | src/components/History.tsx:62-64 | The effect refetches exactly when the page or the page size changed, and then requests that page with loading on and the error cleared. Nothing else changes: the rows on screen, the total and the dialog state stay. Without a change the state is untouched. |
| `History.ChangePage` | src/components/History.tsx:66-68 | The new page is requested at offset page·rowsPerPage, unless it is the current page, and then loading starts with the error cleared. Otherwise the state is unchanged. Only the page, loading and the error can change: rows, total and the dialog state stay. |
| `History.ChangeRowsPerPage` | src/components/History.tsx:70-73 | The page resets to 0, so a new size is requested from offset 0, with loading on and the error cleared. Without a change the state is unchanged. Only the page, the size, loading and the error can change. |
| `History.PageSizeParses` | src/components/History.tsx:71 | `parseInt` of an offered size's text gives that size. |
| `History.StatusChipSpec` | src/components/History.tsx:111-120 | The success chip appears exactly for `success` in any letter case, and the error chip likewise for `error`. Every other status gets a chip with its raw text. |
| `History.StatusChipLabelSpec` | src/components/History.tsx:111-120 | The success and error chips have different labels. A status that is neither word in any letter case is shown as its own text. |
| `History.ButtonNeedsExactStatus` | src/components/History.tsx:213 | Every row with the summary button has the success chip. `SUCCESS` gets the success chip but no button. |
| `History.EndpointLabelSpec` | src/components/History.tsx:196 | The label of `/name` is `name` upper-cased, even if `name` has further slashes. An endpoint without a slash is only upper-cased. |
| `History.EndpointColour` | src/components/History.tsx:199 | The chip is secondary exactly for `/summarize`. |
| `History.FromStored` | src/components/History.tsx:90-99 | Each field of the dialog's summary is the corresponding snake_case field of the stored row. |
| `History.StoredRoundTrip` | src/components/History.tsx:87-99 | The mapping loses nothing it reads. Mapping a summary's stored form back gives the summary. A row is restored from its mapped summary and the keys the mapping ignores. |
| `History.BeginViewSummary` | src/components/History.tsx:75-83 | The dialog opens loading with the previous summary and error cleared, and one summary is searched for by the row's URL. Nothing else changes. |
| `History.FinishViewSummary` | src/components/History.tsx:84-108 | Loading ends. A non-empty result selects the first stored summary, mapped. An empty result sets the not-found error and keeps the selection. A response that is not ok, or an exception, sets its error the same way. |
| `History.CloseDialog` | src/components/History.tsx:244 | Only `open` changes. |
| `History.EmptyResultNotFound` | src/components/History.tsx:101-103 | Viewing a row whose search finds nothing ends with the not-found error on screen and no summary selected. |
| `History.FoundSummaryShown` | src/components/History.tsx:87-100 | When the search finds rows, the dialog shows the first one, mapped, and its export is enabled. |
| `History.CloseKeepsSelection` | src/components/History.tsx:244 | After closing, the dialog still holds its summary and error. This differs from the download form, whose close clears both. |
| `History.DialogValidPreserved` | src/components/History.tsx:75-108 | Every view, reply and close keeps this: while the shared `summaryLoading` flag is set, neither a summary nor an error is set. So the dialog never shows its progress block together with the error or the summary. The flag is shared by all views, so this does not say which view a shown summary belongs to. |
| `History.LateReplyShown` | src/components/History.tsx:75-108 | Replies are not matched to their view. View row A, close, view row B, and let A's reply arrive first. The dialog opened for B then shows A's summary while B is still loading. If B's search then finds nothing, the not-found error shows while A's summary stays selected and the enabled export writes A's document. |

## Left out

- Network I/O is not modelled. This covers every `fetch`, JSON parsing, HTTP status codes, backend URLs and `encodeURIComponent`. A request is its parameters (`DownloadRequest`, `Query`, `SummarySearch`) and its outcome is a `Reply` value.
- Browser and library I/O is not modelled: the blob download through an object URL and a clicked anchor, `Packer.toBlob` and `saveAs`. The export is the `ExportJob` value (document and file name). A library failure is the `Failed` outcome.
- The `docx` styling is not modelled: fonts, sizes, colours, spacing, borders and emoji. Paragraphs are abstract values that keep their data (highlight number and title, paper source and title) rather than their rendered text.
- Key findings are not modelled as text. `src/types.ts:22` types them as records, while `src/utils/exportDocx.ts:216` uses each one directly as text, so a finding paragraph carries no text in the model.
- Downloader.FormatViews: the one-decimal rendering `toFixed(1)` is floating-point and is a function parameter. Only the choice of branch and suffix is stated.
- Locale formatting is not modelled: `toLocaleString` of the transcript length and `toLocaleDateString` of log dates.
- Timing is not modelled. The three-second progress timer is an event that may fire at any time after a successful download, so a timer left over from an earlier download may clear the line of a later one.
- React's scheduling is not modelled. On the download form no two fetch or download requests overlap (`FormLockedWhileLoading`), and no two summary requests overlap, because the summarize button needs `!summaryLoading` (`src/components/YouTubeDownloader.tsx:407`). A summary request may overlap a fetch or a download: those buttons check only `loading`. The two kinds write disjoint fields, so their replies commute (`SummaryOverlapsDownload`).
- On the history page the view button is never disabled, and its dialog can be closed while loading. Summary replies from overlapping views can therefore arrive in any order, and the page does not tell them apart. The pagination control is never disabled either, so usage-log requests for different pages can overlap. `FinishFetchHistory` takes whichever reply arrives, and the model does not match a reply to its page.
- The summary dialog is modal, so while it is open the form's controls cannot be reached. `Downloader.Enabled` does not model this and allows form events while the dialog is open. This admits more event sequences than the page does, so the invariant proved over them still holds for the page.
- History.DialogValidPreserved: the invariant covers only the shared loading flag. It does not promise that the summary on screen belongs to the row last viewed, because the page does not ensure that. `LateReplyShown` gives a sequence in which it does not.
- History.FromStored: the stored row is read with the keys `handleViewSummary` reads (`video_author`, `market_highlights` and the others). `src/types.ts:57-63` declares the row as `SummaryHistory`, with the summary as one JSON string under `summary`. The model follows the handler, not the declared type.
- React batches the "preparing" progress text with the state changes that replace it before the next render, so only the final progress value is modelled.
- Which page numbers the MUI pagination control offers is library behaviour. Any page number is accepted.
- Layout, theming, routing and icons are not modelled (`src/App.tsx`, `src/components/Header.tsx`). Neither is the video card's thumbnail, nor the error tooltip on history rows.
- Numbers are non-negative integers. Negative or fractional durations and view counts are not modelled. JavaScript numbers are doubles, and `toString` switches to exponent form from 1e21. The model's decimal text `Dec` (with `Text.ValueOfDec`) agrees with `toString` only below 1e21.
- Case mapping covers ASCII letters only.
- `substring(0, 100)` counts UTF-16 code units. The model counts characters, which agrees for text in the Basic Multilingual Plane.
- Null lists and a null conclusion are treated like empty ones, as every guard in the source does. A missing `data` list in the summaries reply is treated as an empty list.
- The rows-per-page handler applies `parseInt` to the option's text. The model takes the parsed number, and `History.PageSizeParses` shows the two agree for the offered sizes.
