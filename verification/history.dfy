/**
 The usage history page (src/components/History.tsx): a paged table of the
 backend's usage log, a chip per row for the outcome and the route, and a
 summary dialog fed from the summaries the backend stored.
 */
module History {
  import opened Text
  import opened Types
  import opened SummaryModal
  import opened ExportDocx

  /** The paging part of a usage-log request. */
  datatype Query = Query(limit: nat, offset: nat)

  /** The request for page `page` (counted from 0) at `rowsPerPage` rows. */
  function PageQuery(page: nat, rowsPerPage: nat): Query {
    Query(rowsPerPage, page * rowsPerPage)
  }

  /** Row `row` (counted from 0 over the whole log) is among the rows a
      request returns. */
  predicate OnPage(row: nat, q: Query) {
    q.offset <= row < q.offset + q.limit
  }

  /** Consecutive pages are adjacent: each starts where the previous one
      ends, so paging forward neither skips nor repeats a row. */
  lemma PagesAdjacent(page: nat, rowsPerPage: nat)
    ensures PageQuery(page + 1, rowsPerPage).offset
      == PageQuery(page, rowsPerPage).offset + PageQuery(page, rowsPerPage).limit
  {
  }

  /** With a positive page size every row is on exactly one page: the page
      numbered `row / rowsPerPage`. */
  lemma {:induction false} RowOnOnePage(row: nat, page: nat, rowsPerPage: nat)
    requires rowsPerPage > 0
    ensures OnPage(row, PageQuery(page, rowsPerPage)) <==> page == row / rowsPerPage
  {
    var n := rowsPerPage;
    var p := row / n;
    assert p * n <= row < p * n + n;
    if page < p {
      assert page + 1 <= p;
      assert (page + 1) * n <= p * n by {
        MulMonotone(page + 1, p, n);
      }
    } else if page > p {
      assert p + 1 <= page;
      assert (p + 1) * n <= page * n by {
        MulMonotone(p + 1, page, n);
      }
    }
  }

  lemma MulMonotone(a: nat, b: nat, n: nat)
    requires a <= b
    ensures a * n <= b * n
  {
  }

  /** The page's own state; the dialog fields are the props the summary
      dialog receives. */
  datatype HistoryState = HistoryState(
    logs: seq<UsageLog>,
    total: nat,
    loading: bool,
    error: Option<string>,
    page: nat,
    rowsPerPage: nat,
    dialogOpen: bool,
    selected: Option<SummaryResponse>,
    summaryLoading: bool,
    summaryError: Option<string>)

  /** The page sizes the pagination control offers. */
  predicate OfferedPageSize(n: nat) {
    n == 10 || n == 25 || n == 50
  }

  /** The state on mount, when the effect has already started the first
      request. */
  function Initial(): (r: (HistoryState, Query))
    ensures r.0.loading && r.1 == PageQuery(r.0.page, r.0.rowsPerPage)
    ensures r.1.offset == 0 && OfferedPageSize(r.1.limit)
  {
    (HistoryState([], 0, true, None, 0, 10, false, None, false, None), PageQuery(0, 10))
  }

  function HistoryFailedText(): (r: string) ensures r != "" { "ไม่สามารถดึงข้อมูลประวัติได้" }
  function SummaryFetchFailedText(): (r: string) ensures r != "" { "ไม่สามารถดึงข้อมูลสรุปได้" }
  function NotFoundText(): (r: string) ensures r != "" { "ไม่พบข้อมูลสรุปสำหรับวิดีโอนี้" }

  /** `fetchHistory` up to its `await`: loading on, error cleared, and the
      request for the current page. */
  function BeginFetchHistory(st: HistoryState): (r: (HistoryState, Query))
    ensures r.0.loading && r.0.error.None?
    ensures r.0.(loading := st.loading, error := st.error) == st
    ensures r.1.limit == st.rowsPerPage
    ensures st.rowsPerPage > 0 ==> forall row: nat :: OnPage(row, r.1) <==> row / st.rowsPerPage == st.page
  {
    var q := PageQuery(st.page, st.rowsPerPage);
    if st.rowsPerPage > 0 then
      assert forall row: nat :: OnPage(row, q) <==> row / st.rowsPerPage == st.page by {
        forall row: nat
          ensures OnPage(row, q) <==> row / st.rowsPerPage == st.page
        {
          RowOnOnePage(row, st.page, st.rowsPerPage);
        }
      }
      (st.(loading := true, error := None), q)
    else
      (st.(loading := true, error := None), q)
  }

  /** The rest of `fetchHistory`: the rows and the total on success; on
      failure the error (a fixed text for a response that is not ok, the
      exception's message otherwise) and the previous rows stay. */
  function FinishFetchHistory(st: HistoryState, reply: Reply<UsageLogResponse>): (r: HistoryState)
    ensures !r.loading
    ensures reply.Received? ==> r.logs == reply.data.data && r.total == reply.data.total && r.error == st.error
    ensures reply.Rejected? ==> r.error == Some(HistoryFailedText())
    ensures reply.Thrown? ==> r.error == Some(reply.message)
    ensures !reply.Received? ==> r.logs == st.logs && r.total == st.total
    ensures r.(loading := st.loading, logs := st.logs, total := st.total, error := st.error) == st
  {
    var st' := st.(loading := false);
    match reply
    case Received(d) => st'.(logs := d.data, total := d.total)
    case Rejected(_) => st'.(error := Some(HistoryFailedText()))
    case Thrown(m) => st'.(error := Some(m))
  }

  /** A change of the page or of the page size. The effect keyed on both
      refetches exactly when one of them changed. */
  function Repage(st: HistoryState, page: nat, rowsPerPage: nat): (r: (HistoryState, Option<Query>))
    ensures r.0.page == page && r.0.rowsPerPage == rowsPerPage
    ensures r.1.Some? <==> (page, rowsPerPage) != (st.page, st.rowsPerPage)
    ensures r.1.Some? ==> r.1.value == PageQuery(page, rowsPerPage) && r.0.loading && r.0.error.None?
    ensures r.1.None? ==> r.0 == st
    ensures r.0.(page := st.page, rowsPerPage := st.rowsPerPage, loading := st.loading, error := st.error) == st
  {
    if (page, rowsPerPage) == (st.page, st.rowsPerPage) then (st, None)
    else
      var begun := BeginFetchHistory(st.(page := page, rowsPerPage := rowsPerPage));
      (begun.0, Some(begun.1))
  }

  /** `handleChangePage`. */
  function ChangePage(st: HistoryState, page: nat): (r: (HistoryState, Option<Query>))
    ensures r.0.page == page && r.0.rowsPerPage == st.rowsPerPage
    ensures r.1.Some? <==> page != st.page
    ensures r.1.Some? ==> r.1.value.offset == page * st.rowsPerPage && r.1.value.limit == st.rowsPerPage
    ensures r.1.Some? ==> r.0.loading && r.0.error.None?
    ensures r.1.None? ==> r.0 == st
    ensures r.0.(page := st.page, loading := st.loading, error := st.error) == st
  {
    Repage(st, page, st.rowsPerPage)
  }

  /** `handleChangeRowsPerPage`: the new size (the option's text read back
      by `parseInt`) and a return to the first page, so the next request
      starts at offset 0. */
  function ChangeRowsPerPage(st: HistoryState, rowsPerPage: nat): (r: (HistoryState, Option<Query>))
    ensures r.0.page == 0 && r.0.rowsPerPage == rowsPerPage
    ensures r.1.Some? <==> st.page != 0 || st.rowsPerPage != rowsPerPage
    ensures r.1.Some? ==> r.1.value == Query(rowsPerPage, 0)
    ensures r.1.Some? ==> r.0.loading && r.0.error.None?
    ensures r.1.None? ==> r.0 == st
    ensures r.0.(page := st.page, rowsPerPage := st.rowsPerPage, loading := st.loading, error := st.error) == st
  {
    Repage(st, 0, rowsPerPage)
  }

  /** The value the page-size control reports is the option's decimal text,
      and `parseInt` of it is the option again. */
  lemma PageSizeParses(n: nat)
    requires OfferedPageSize(n)
    ensures Value(Dec(n)) == n
  {
    ValueOfDec(n);
  }

  /** The chip `getStatusChip` draws for a status. */
  datatype StatusChip = SuccessChip | ErrorChip | RawChip(raw: string)

  function StatusChipOf(status: string): (c: StatusChip)
    ensures c.RawChip? ==> c.raw == status
  {
    var key := ToLower(status);
    if key == "success" then SuccessChip
    else if key == "error" then ErrorChip
    else RawChip(status)
  }

  function StatusChipLabel(c: StatusChip): string {
    match c
    case SuccessChip => "สำเร็จ"
    case ErrorChip => "ผิดพลาด"
    case RawChip(raw) => raw
  }

  /** The success and error chips read differently, and a status that is
      neither word in any case is shown as its own text. */
  lemma StatusChipLabelSpec(status: string)
    ensures StatusChipLabel(SuccessChip) != StatusChipLabel(ErrorChip)
    ensures !SpellsIgnoringCase(status, "success") && !SpellsIgnoringCase(status, "error")
      ==> StatusChipLabel(StatusChipOf(status)) == status
  {
    assert |StatusChipLabel(SuccessChip)| != |StatusChipLabel(ErrorChip)|;
    StatusChipSpec(status);
  }

  /** The chip ignores case: it is the success chip exactly for the
      spellings of `success` in any mix of cases, the error chip likewise
      for `error`, and otherwise it shows the status as it is. */
  lemma StatusChipSpec(status: string)
    ensures StatusChipOf(status) == SuccessChip <==> SpellsIgnoringCase(status, "success")
    ensures StatusChipOf(status) == ErrorChip <==> SpellsIgnoringCase(status, "error")
    ensures !SpellsIgnoringCase(status, "success") && !SpellsIgnoringCase(status, "error")
      ==> StatusChipOf(status) == RawChip(status)
  {
    ToLowerMatches(status, "success");
    ToLowerMatches(status, "error");
  }

  /** The view-summary button is rendered only for the exact status
      `success`. */
  predicate ShowsSummaryButton(log: UsageLog) {
    log.status == "success"
  }

  /** Every row with the button has the success chip, but not the other way
      round: the button compares case-sensitively and the chip does not. */
  lemma ButtonNeedsExactStatus(log: UsageLog)
    ensures ShowsSummaryButton(log) ==> StatusChipOf(log.status) == SuccessChip
    ensures var upper := log.(status := "SUCCESS");
      StatusChipOf(upper.status) == SuccessChip && !ShowsSummaryButton(upper)
  {
    StatusChipSpec(log.status);
    StatusChipSpec("SUCCESS");
    assert SpellsIgnoringCase("SUCCESS", "success");
  }

  /** The route chip: the endpoint without its first `/`, upper-cased. */
  function EndpointLabel(endpoint: string): string {
    ToUpper(RemoveFirst(endpoint, '/'))
  }

  datatype ChipColour = Secondary | Default

  function EndpointColour(endpoint: string): (c: ChipColour)
    ensures c == Secondary <==> endpoint == "/summarize"
  {
    if endpoint == "/summarize" then Secondary else Default
  }

  /** For a route `/name` the label is `name` upper-cased, even when `name`
      holds further slashes (only the first one goes); an endpoint without
      a slash is only upper-cased. */
  lemma EndpointLabelSpec(name: string, plain: string)
    requires Lacks(plain, '/')
    ensures EndpointLabel("/" + name) == ToUpper(name)
    ensures EndpointLabel(plain) == ToUpper(plain)
  {
    var e: string := [];
    RemoveFirstAt(e, name, '/');
    assert e + ['/'] + name == "/" + name;
    assert e + name == name;
    assert RemoveFirst("/" + name, '/') == name;
    RemoveFirstAbsent(plain, '/');
  }

  /** A stored summary row as `handleViewSummary` reads it: the snake_case
      keys it maps, plus `id` and `video_url`. This is the shape the handler
      reads, not the declared `SummaryHistory` type, which keeps the whole
      summary as one JSON string under `summary`. */
  datatype StoredSummary = StoredSummary(
    id: int,
    videoUrl: string,
    videoTitle: string,
    videoAuthor: string,
    videoDuration: nat,
    marketHighlights: seq<MarketHighlight>,
    papers: seq<Paper>,
    conclusion: string,
    transcriptLength: nat,
    transcriptSource: string)

  /** The field-by-field mapping onto the summary the dialog shows. */
  function FromStored(row: StoredSummary): (s: SummaryResponse)
    ensures s.title == row.videoTitle && s.author == row.videoAuthor
    ensures s.duration == row.videoDuration
    ensures s.marketHighlights == row.marketHighlights && s.papers == row.papers
    ensures s.conclusion == row.conclusion
    ensures s.transcriptLength == row.transcriptLength && s.transcriptSource == row.transcriptSource
  {
    SummaryResponse(row.videoTitle, row.videoAuthor, row.videoDuration, row.marketHighlights,
                    row.papers, row.conclusion, row.transcriptLength, row.transcriptSource)
  }

  /** The stored form of a summary, given the keys it does not carry. */
  function ToStored(s: SummaryResponse, id: int, videoUrl: string): StoredSummary {
    StoredSummary(id, videoUrl, s.title, s.author, s.duration, s.marketHighlights,
                  s.papers, s.conclusion, s.transcriptLength, s.transcriptSource)
  }

  /** The mapping loses nothing it reads: storing and mapping back gives the
      summary, and mapping and restoring the unread keys gives the row. */
  lemma StoredRoundTrip(s: SummaryResponse, row: StoredSummary, id: int, videoUrl: string)
    ensures FromStored(ToStored(s, id, videoUrl)) == s
    ensures ToStored(FromStored(row), row.id, row.videoUrl) == row
  {
  }

  /** The summaries search a row's button sends. */
  datatype SummarySearch = SummarySearch(limit: nat, search: string)

  /** `handleViewSummary` up to its `await`: the dialog opens loading with
      the previous summary and error cleared, and one summary is searched
      for by the row's video URL. */
  function BeginViewSummary(st: HistoryState, videoUrl: string): (r: (HistoryState, SummarySearch))
    ensures r.0.dialogOpen && r.0.summaryLoading && r.0.selected.None? && r.0.summaryError.None?
    ensures r.0.(dialogOpen := st.dialogOpen, summaryLoading := st.summaryLoading,
                 selected := st.selected, summaryError := st.summaryError) == st
    ensures r.1 == SummarySearch(1, videoUrl)
  {
    (st.(dialogOpen := true, summaryLoading := true, selected := None, summaryError := None),
     SummarySearch(1, videoUrl))
  }

  /** The rest of `handleViewSummary`. The first stored summary found is
      mapped and selected; no result is an error like a failed request, and
      then the selection is left as it was. A missing result list counts as
      an empty one. */
  function FinishViewSummary(st: HistoryState, reply: Reply<seq<StoredSummary>>): (r: HistoryState)
    ensures !r.summaryLoading
    ensures reply.Received? && |reply.data| > 0 ==>
      r.selected == Some(FromStored(reply.data[0])) && r.summaryError == st.summaryError
    ensures reply.Received? && |reply.data| == 0 ==>
      r.selected == st.selected && r.summaryError == Some(NotFoundText())
    ensures reply.Rejected? ==> r.selected == st.selected && r.summaryError == Some(SummaryFetchFailedText())
    ensures reply.Thrown? ==> r.selected == st.selected && r.summaryError == Some(reply.message)
    ensures r.(summaryLoading := st.summaryLoading, selected := st.selected,
               summaryError := st.summaryError) == st
  {
    var st' := st.(summaryLoading := false);
    match reply
    case Received(rows) =>
      if |rows| > 0 then st'.(selected := Some(FromStored(rows[0])))
      else st'.(summaryError := Some(NotFoundText()))
    case Rejected(_) => st'.(summaryError := Some(SummaryFetchFailedText()))
    case Thrown(m) => st'.(summaryError := Some(m))
  }

  /** The dialog's `onClose` here only closes it; the selected summary and
      any error stay, unlike the download form's close. */
  function CloseDialog(st: HistoryState): (r: HistoryState)
    ensures !r.dialogOpen
    ensures r.(dialogOpen := st.dialogOpen) == st
  {
    st.(dialogOpen := false)
  }

  /** The dialog as this page drives it, with the dialog's own export flag. */
  function DialogOf(st: HistoryState, exporting: bool): Modal {
    Modal(st.dialogOpen, st.selected, st.summaryLoading, st.summaryError, exporting)
  }

  /** Viewing a row whose search finds nothing ends with the not-found error
      on screen and no summary selected. */
  lemma EmptyResultNotFound(st: HistoryState, videoUrl: string, exporting: bool)
    ensures var after := FinishViewSummary(BeginViewSummary(st, videoUrl).0, Received([]));
      && after.selected.None?
      && after.summaryError == Some(NotFoundText())
      && ErrorShown(DialogOf(after, exporting)) && !BodyShown(DialogOf(after, exporting))
  {
  }

  /** Viewing a row whose search finds summaries shows the first of them,
      mapped, and the dialog's export writes exactly that summary. */
  lemma FoundSummaryShown(st: HistoryState, videoUrl: string, rows: seq<StoredSummary>)
    requires |rows| > 0
    ensures var after := FinishViewSummary(BeginViewSummary(st, videoUrl).0, Received(rows));
      && BodyShown(DialogOf(after, false))
      && DialogOf(after, false).summary == Some(FromStored(rows[0]))
      && BeginExport(DialogOf(after, false)).1.Some?
  {
  }

  /** After closing, the dialog still holds what it held, so a summary or an
      error survives until the next view replaces it. */
  lemma CloseKeepsSelection(st: HistoryState, exporting: bool)
    ensures DialogOf(CloseDialog(st), exporting) == DialogOf(st, exporting).(open := false)
  {
  }

  /** While the shared `summaryLoading` flag is set, neither a summary nor
      an error is set. The flag is one for all views, so this says nothing
      about which view a shown summary belongs to (see `LateReplyShown`). */
  predicate DialogValid(st: HistoryState) {
    st.summaryLoading ==> st.selected.None? && st.summaryError.None?
  }

  /** Each dialog transition, a reply to any view included, keeps
      `DialogValid`, and in such a state the dialog never shows its progress
      block together with the error or the summary. */
  lemma DialogValidPreserved(st: HistoryState, videoUrl: string, reply: Reply<seq<StoredSummary>>, exporting: bool)
    requires DialogValid(st)
    ensures DialogValid(BeginViewSummary(st, videoUrl).0)
    ensures DialogValid(FinishViewSummary(st, reply))
    ensures DialogValid(CloseDialog(st))
    ensures !(SpinnerShown(DialogOf(st, exporting)) && ErrorShown(DialogOf(st, exporting)))
    ensures !(SpinnerShown(DialogOf(st, exporting)) && BodyShown(DialogOf(st, exporting)))
  {
  }

  /** Replies are not matched to the view that asked for them. View row A,
      close the dialog, view row B, and let A's reply arrive first: the
      dialog opened for B shows A's summary while B is still loading, and
      `DialogValid` holds throughout. When B's search then finds nothing,
      the not-found error shows, yet the summary of A stays selected and
      the export button is enabled and writes A's document. */
  lemma LateReplyShown(st: HistoryState, a: string, b: string, rowA: StoredSummary)
    requires DialogValid(st) && a != b && rowA.videoUrl == a
    ensures var forB := BeginViewSummary(CloseDialog(BeginViewSummary(st, a).0), b).0;
      var lateA := FinishViewSummary(forB, Received([rowA]));
      && lateA.dialogOpen && lateA.selected == Some(FromStored(rowA)) && DialogValid(lateA)
      && BodyShown(DialogOf(lateA, false))
    ensures var forB := BeginViewSummary(CloseDialog(BeginViewSummary(st, a).0), b).0;
      var endB := FinishViewSummary(FinishViewSummary(forB, Received([rowA])), Received([]));
      && ErrorShown(DialogOf(endB, false)) && !ExportDisabled(DialogOf(endB, false))
      && BeginExport(DialogOf(endB, false)).1
         == Some(ExportJob(ExportDocument(FromStored(rowA)), ExportFileName(rowA.videoTitle)))
  {
  }
}
