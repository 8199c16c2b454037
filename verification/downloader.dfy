/**
 The download form (src/components/YouTubeDownloader.tsx): the component's
 state as one record, each handler split at its `await` into a synchronous
 start and a completion that receives the backend's reply, the guards the
 rendered controls put on them, and an invariant every reachable state
 keeps.
 */
module Downloader {
  import opened Text
  import opened Types
  import opened SummaryModal

  datatype Format = Video | Audio

  datatype DownloadKind = Normal | Fast

  /** One download request: the route, the link it carries, the `format`
      query parameter when there is one, and the name the file is saved
      under. */
  datatype DownloadRequest = DownloadRequest(
    kind: DownloadKind,
    videoLink: string,
    format: Option<Format>,
    fileName: string)

  /** The request a handler has in flight on the main `loading` flag. */
  datatype Job = FetchingInfo | Downloading(request: DownloadRequest)

  /** The progress line under the form; each value stands for one fixed
      text (see `ProgressText`). */
  datatype Progress = NoProgress | FastRunning | AudioRunning | VideoRunning | Done

  datatype State = State(
    link: string,
    loading: bool,
    error: Option<string>,
    videoInfo: Option<VideoInfo>,
    format: Format,
    progress: Progress,
    summaryOpen: bool,
    summaryData: Option<SummaryResponse>,
    summaryLoading: bool,
    summaryError: Option<string>,
    job: Option<Job>,
    timers: nat)

  /** The state the component mounts with. */
  function Initial(): State {
    State("", false, None, None, Video, NoProgress, false, None, false, None, None, 0)
  }

  // The fixed texts the handlers write.

  function NeedLinkText(): (r: string) ensures r != "" { "กรุณาใส่ลิงก์วิดีโอ YouTube" }
  function NeedInfoText(): (r: string) ensures r != "" { "กรุณาดึงข้อมูลวิดีโอก่อน" }
  function ServerErrorText(): (r: string) ensures r != "" { "เกิดข้อผิดพลาด" }
  function InfoFailedText(): (r: string) ensures r != "" { "ไม่สามารถดึงข้อมูลวิดีโอได้" }
  function DownloadFailedText(): (r: string) ensures r != "" { "เกิดข้อผิดพลาดในการดาวน์โหลด" }
  function SummaryFailedText(): (r: string) ensures r != "" { "ไม่สามารถสร้างสรุปเนื้อหาได้" }

  function ProgressText(p: Progress): string {
    match p
    case NoProgress => ""
    case FastRunning => "กำลังดาวน์โหลดแบบเร็ว..."
    case AudioRunning => "กำลังดาวน์โหลดเสียง..."
    case VideoRunning => "กำลังดาวน์โหลดวิดีโอ..."
    case Done => "ดาวน์โหลดสำเร็จ!"
  }

  /** The word the progress alert looks for to show itself as a success. */
  function SuccessWord(): string { "สำเร็จ" }

  /** The alert under the form shows exactly when there is progress, and it
      is the success alert, the one whose text includes the success word,
      exactly when the download is done. */
  lemma ProgressAlert(p: Progress)
    ensures ProgressText(p) != "" <==> !p.NoProgress?
    ensures Includes(ProgressText(p), SuccessWord()) <==> p.Done?
  {
    var t, w := ProgressText(p), SuccessWord();
    if p.Done? {
      assert OccursAt(t, w, 9);
    } else if !p.NoProgress? {
      forall i: nat | i <= |t| && OccursAt(t, w, i)
        ensures false
      {
        RunningLacksSuccess(p, i);
      }
    }
  }

  /** No running text holds the success word at any position. */
  lemma RunningLacksSuccess(p: Progress, i: nat)
    requires p.FastRunning? || p.AudioRunning? || p.VideoRunning?
    ensures !OccursAt(ProgressText(p), SuccessWord(), i)
  {
    var t, w := ProgressText(p), SuccessWord();
    assert NoPair(t, w[0], w[1]);
    NoPairNoOccurrence(t, w, i);
  }

  /** The error text a failed request leaves. A response that is not ok
      throws its body's `error` field, or the generic server text when that
      is empty; the `catch` then shows the thrown message, or the handler's
      own fallback when that is empty. */
  function FailureText<T>(reply: Reply<T>, fallback: string): (r: string)
    requires !reply.Received?
    requires fallback != ""
    ensures r != ""
    ensures reply.Rejected? ==> (r == reply.errorField <==> reply.errorField != "")
    ensures reply.Rejected? && reply.errorField == "" ==> r == ServerErrorText()
    ensures reply.Thrown? ==> (r == reply.message <==> reply.message != "")
    ensures reply.Thrown? && reply.message == "" ==> r == fallback
  {
    match reply
    case Rejected(e) => OrElse(OrElse(e, ServerErrorText()), fallback)
    case Thrown(m) => OrElse(m, fallback)
  }

  /** The link field's `onChange`: the new text replaces the link and the
      error, the fetched information and the progress line are cleared. */
  function EditLink(st: State, text: string): (r: State)
    ensures r.link == text && r.error.None? && r.videoInfo.None? && r.progress == NoProgress
    ensures r.(link := st.link, error := st.error, videoInfo := st.videoInfo, progress := st.progress) == st
  {
    st.(link := text, error := None, videoInfo := None, progress := NoProgress)
  }

  /** The format toggle's `onChange`: a `null` choice (clicking the selected
      button again) is ignored, so the format is always video or audio. */
  function PickFormat(st: State, choice: Option<Format>): (r: State)
    ensures choice.None? ==> r == st
    ensures choice.Some? ==> r == st.(format := choice.value)
  {
    if choice.Some? then st.(format := choice.value) else st
  }

  /** `handleFetchInfo` up to its `await`. A blank link only sets the error;
      otherwise the form goes into loading with error, information and
      progress cleared. */
  function BeginFetchInfo(st: State): (r: State)
    ensures IsBlank(st.link) ==> r == st.(error := Some(NeedLinkText()))
    ensures !IsBlank(st.link) ==>
      && r.loading && r.job == Some(FetchingInfo)
      && r.error.None? && r.videoInfo.None? && r.progress == NoProgress
      && r.(loading := st.loading, job := st.job, error := st.error,
            videoInfo := st.videoInfo, progress := st.progress) == st
  {
    if IsBlank(st.link) then st.(error := Some(NeedLinkText()))
    else st.(loading := true, job := Some(FetchingInfo), error := None, videoInfo := None, progress := NoProgress)
  }

  /** The rest of `handleFetchInfo`: the information on success, an error
      text otherwise; loading ends either way. */
  function FinishFetchInfo(st: State, reply: Reply<VideoInfo>): (r: State)
    ensures !r.loading && r.job.None?
    ensures reply.Received? ==> r.videoInfo == Some(reply.data) && r.error == st.error
    ensures !reply.Received? ==>
      && r.videoInfo == st.videoInfo
      && r.error == Some(FailureText(reply, InfoFailedText()))
    ensures r.(loading := st.loading, job := st.job, videoInfo := st.videoInfo, error := st.error) == st
  {
    var st' := st.(loading := false, job := None);
    match reply
    case Received(info) => st'.(videoInfo := Some(info))
    case _ => st'.(error := Some(FailureText(reply, InfoFailedText())))
  }

  /** The request a download of `kind` sends for the fetched `info`: the fast
      route always yields an `.mp4` and carries no format; the normal route
      carries the selected format and names an audio file `.mp3`. */
  function RequestFor(link: string, info: VideoInfo, format: Format, kind: DownloadKind): (q: DownloadRequest)
    ensures q.kind == kind && q.videoLink == link
    ensures q.format.None? <==> kind == Fast
    ensures kind == Normal ==> q.format == Some(format)
    ensures |q.fileName| == |info.title| + 4 && q.fileName[..|info.title|] == info.title
    ensures q.fileName[|info.title|..] == ".mp3" <==> kind == Normal && format == Audio
    ensures q.fileName[|info.title|..] == ".mp3" || q.fileName[|info.title|..] == ".mp4"
  {
    var audio := kind == Normal && format == Audio;
    var ext := if audio then ".mp3" else ".mp4";
    var name := info.title + ext;
    assert name[..|info.title|] == info.title && name[|info.title|..] == ext;
    DownloadRequest(kind, link, if kind == Fast then None else Some(format), name)
  }

  /** The progress line while a download of `kind` runs. */
  function RunningProgress(kind: DownloadKind, format: Format): (p: Progress)
    ensures p == FastRunning <==> kind.Fast?
    ensures p == AudioRunning <==> kind.Normal? && format.Audio?
    ensures p == VideoRunning <==> kind.Normal? && format.Video?
  {
    match kind
    case Fast => FastRunning
    case Normal => if format.Audio? then AudioRunning else VideoRunning
  }

  /** `handleDownload(kind)` up to its `await`. Without fetched information
      only the error is set; otherwise the request goes out with loading on,
      the error cleared and the progress line naming the download. (The
      "preparing" text the handler writes first is replaced before the
      next render.) */
  function BeginDownload(st: State, kind: DownloadKind): (r: State)
    ensures st.videoInfo.None? ==> r == st.(error := Some(NeedInfoText()))
    ensures st.videoInfo.Some? ==>
      && r.loading && r.error.None?
      && r.job == Some(Downloading(RequestFor(st.link, st.videoInfo.value, st.format, kind)))
      && r.progress == RunningProgress(kind, st.format)
      && r.(loading := st.loading, job := st.job, error := st.error, progress := st.progress) == st
  {
    match st.videoInfo
    case None => st.(error := Some(NeedInfoText()))
    case Some(info) =>
      st.(loading := true, error := None,
          job := Some(Downloading(RequestFor(st.link, info, st.format, kind))),
          progress := RunningProgress(kind, st.format))
  }

  /** The rest of `handleDownload`: on success the line says the download is
      done and a timer to clear it is started; on failure the error is set
      and the line cleared; loading ends either way. */
  function FinishDownload(st: State, reply: Reply<()>): (r: State)
    ensures !r.loading && r.job.None?
    ensures reply.Received? ==> r.progress == Done && r.timers == st.timers + 1 && r.error == st.error
    ensures !reply.Received? ==>
      && r.progress == NoProgress && r.timers == st.timers
      && r.error == Some(FailureText(reply, DownloadFailedText()))
    ensures r.(loading := st.loading, job := st.job, progress := st.progress,
               timers := st.timers, error := st.error) == st
  {
    var st' := st.(loading := false, job := None);
    match reply
    case Received(_) => st'.(progress := Done, timers := st.timers + 1)
    case _ => st'.(error := Some(FailureText(reply, DownloadFailedText())), progress := NoProgress)
  }

  /** One of the three-second timers clears the progress line. */
  function TimerFires(st: State): (r: State)
    requires st.timers > 0
    ensures r.progress == NoProgress && r.timers == st.timers - 1
    ensures r.(progress := st.progress, timers := st.timers) == st
  {
    st.(progress := NoProgress, timers := st.timers - 1)
  }

  /** `handleSummarize` up to its `await`. A blank link sets the form's
      error; otherwise the dialog opens loading, with the previous summary
      and its error cleared. */
  function BeginSummarize(st: State): (r: State)
    ensures IsBlank(st.link) ==> r == st.(error := Some(NeedLinkText()))
    ensures !IsBlank(st.link) ==>
      && r.summaryOpen && r.summaryLoading
      && r.summaryData.None? && r.summaryError.None?
      && r.(summaryOpen := st.summaryOpen, summaryLoading := st.summaryLoading,
            summaryData := st.summaryData, summaryError := st.summaryError) == st
  {
    if IsBlank(st.link) then st.(error := Some(NeedLinkText()))
    else st.(summaryOpen := true, summaryLoading := true, summaryData := None, summaryError := None)
  }

  /** The rest of `handleSummarize`: the summary or the dialog's error, and
      the dialog stops loading. */
  function FinishSummarize(st: State, reply: Reply<SummaryResponse>): (r: State)
    ensures !r.summaryLoading
    ensures reply.Received? ==> r.summaryData == Some(reply.data) && r.summaryError == st.summaryError
    ensures !reply.Received? ==>
      && r.summaryData == st.summaryData
      && r.summaryError == Some(FailureText(reply, SummaryFailedText()))
    ensures r.(summaryLoading := st.summaryLoading, summaryData := st.summaryData,
               summaryError := st.summaryError) == st
  {
    var st' := st.(summaryLoading := false);
    match reply
    case Received(s) => st'.(summaryData := Some(s))
    case _ => st'.(summaryError := Some(FailureText(reply, SummaryFailedText())))
  }

  /** `handleCloseSummary`: the dialog closes and forgets its summary and
      error. */
  function CloseSummary(st: State): (r: State)
    ensures !r.summaryOpen && r.summaryData.None? && r.summaryError.None?
    ensures r.(summaryOpen := st.summaryOpen, summaryData := st.summaryData,
               summaryError := st.summaryError) == st
  {
    st.(summaryOpen := false, summaryData := None, summaryError := None)
  }

  /** What can happen to the form: a user action or a reply arriving. */
  datatype Event =
    | Edit(text: string)
    | Toggle(choice: Option<Format>)
    | FetchInfo
    | InfoArrives(info: Reply<VideoInfo>)
    | Download(kind: DownloadKind)
    | DownloadEnds(outcome: Reply<()>)
    | Summarize
    | SummaryArrives(summary: Reply<SummaryResponse>)
    | CloseDialog
    | ProgressTimer

  /** When each event can occur: the controls' `disabled` props, the parts of
      the page rendered only once information is fetched, and a reply only
      for a request in flight. */
  predicate Enabled(st: State, e: Event) {
    match e
    case Edit(_) => !st.loading
    case Toggle(_) => st.videoInfo.Some?
    case FetchInfo => !st.loading && st.link != ""
    case InfoArrives(_) => st.job == Some(FetchingInfo)
    case Download(_) => st.videoInfo.Some? && !st.loading
    case DownloadEnds(_) => st.job.Some? && st.job.value.Downloading?
    case Summarize => st.videoInfo.Some? && !st.loading && !st.summaryLoading
    case SummaryArrives(_) => st.summaryLoading
    case CloseDialog => st.summaryOpen
    case ProgressTimer => st.timers > 0
  }

  function Next(st: State, e: Event): State
    requires Enabled(st, e)
  {
    match e
    case Edit(text) => EditLink(st, text)
    case Toggle(choice) => PickFormat(st, choice)
    case FetchInfo => BeginFetchInfo(st)
    case InfoArrives(reply) => FinishFetchInfo(st, reply)
    case Download(kind) => BeginDownload(st, kind)
    case DownloadEnds(reply) => FinishDownload(st, reply)
    case Summarize => BeginSummarize(st)
    case SummaryArrives(reply) => FinishSummarize(st, reply)
    case CloseDialog => CloseSummary(st)
    case ProgressTimer => TimerFires(st)
  }

  /** What holds in every state the form can reach. */
  predicate Valid(st: State) {
    // the loading flag is on exactly while a fetch or download is in flight
    && (st.loading <==> st.job.Some?)
    // fetching starts from a non-blank link with everything cleared
    && (st.job == Some(FetchingInfo) ==>
          st.videoInfo.None? && st.error.None? && st.progress == NoProgress && !IsBlank(st.link))
    // a download runs for the fetched video and the current link
    && (st.job.Some? && st.job.value.Downloading? ==>
          st.videoInfo.Some? && st.error.None? && st.job.value.request.videoLink == st.link)
    // a running progress line belongs to a download in flight
    && (st.progress.FastRunning? || st.progress.AudioRunning? || st.progress.VideoRunning? ==>
          st.job.Some? && st.job.value.Downloading?)
    // information and a progress line exist only for a non-blank link
    && (st.videoInfo.Some? ==> !IsBlank(st.link))
    && (st.progress != NoProgress ==> st.videoInfo.Some?)
    // every error text on screen is non-empty
    && (st.error.Some? ==> st.error.value != "")
    && (st.summaryError.Some? ==> st.summaryError.value != "")
    // a loading summary has neither result nor error, and never both at once
    && (st.summaryLoading ==> st.summaryData.None? && st.summaryError.None?)
    && !(st.summaryData.Some? && st.summaryError.Some?)
  }

  lemma InitialValid()
    ensures Valid(Initial())
  {
  }

  // The invariant step by step, one handler at a time, under the guard
  // that makes the handler available.

  lemma EditKeepsValid(st: State, text: string)
    requires Valid(st) && !st.loading
    ensures Valid(EditLink(st, text))
  {
  }

  lemma ToggleKeepsValid(st: State, choice: Option<Format>)
    requires Valid(st)
    ensures Valid(PickFormat(st, choice))
  {
  }

  lemma FetchKeepsValid(st: State, reply: Reply<VideoInfo>)
    requires Valid(st)
    ensures !st.loading ==> Valid(BeginFetchInfo(st))
    ensures st.job == Some(FetchingInfo) ==> Valid(FinishFetchInfo(st, reply))
  {
  }

  lemma DownloadKeepsValid(st: State, kind: DownloadKind)
    requires Valid(st) && st.videoInfo.Some? && !st.loading
    ensures Valid(BeginDownload(st, kind))
  {
  }

  lemma DownloadEndKeepsValid(st: State, reply: Reply<()>)
    requires Valid(st) && st.job.Some? && st.job.value.Downloading?
    ensures Valid(FinishDownload(st, reply))
  {
  }

  lemma TimerKeepsValid(st: State)
    requires Valid(st) && st.timers > 0
    ensures Valid(TimerFires(st))
  {
  }

  lemma SummaryKeepsValid(st: State, reply: Reply<SummaryResponse>)
    requires Valid(st)
    ensures !st.summaryLoading ==> Valid(BeginSummarize(st))
    ensures st.summaryLoading ==> Valid(FinishSummarize(st, reply))
    ensures Valid(CloseSummary(st))
  {
  }

  /** A user action keeps the invariant. */
  lemma ActionKeepsValid(st: State, e: Event)
    requires Valid(st) && Enabled(st, e)
    requires e.Edit? || e.Toggle? || e.FetchInfo? || e.Download? || e.Summarize? || e.CloseDialog?
    ensures Valid(Next(st, e))
  {
    var next := Next(st, e);
    match e
    case Edit(text) =>
      assert next == EditLink(st, text);
      EditKeepsValid(st, text);
    case Toggle(choice) =>
      assert next == PickFormat(st, choice);
      ToggleKeepsValid(st, choice);
    case FetchInfo =>
      assert next == BeginFetchInfo(st);
      FetchKeepsValid(st, Thrown(""));
    case Download(kind) =>
      assert next == BeginDownload(st, kind);
      DownloadKeepsValid(st, kind);
    case Summarize =>
      assert next == BeginSummarize(st);
      SummaryKeepsValid(st, Thrown(""));
    case CloseDialog =>
      assert next == CloseSummary(st);
      SummaryKeepsValid(st, Thrown(""));
  }

  /** A reply, or the progress timer, keeps the invariant. */
  lemma ReplyKeepsValid(st: State, e: Event)
    requires Valid(st) && Enabled(st, e)
    requires e.InfoArrives? || e.DownloadEnds? || e.SummaryArrives? || e.ProgressTimer?
    ensures Valid(Next(st, e))
  {
    var next := Next(st, e);
    match e
    case InfoArrives(reply) =>
      assert next == FinishFetchInfo(st, reply);
      FetchKeepsValid(st, reply);
    case DownloadEnds(reply) =>
      assert next == FinishDownload(st, reply);
      DownloadEndKeepsValid(st, reply);
    case SummaryArrives(reply) =>
      assert next == FinishSummarize(st, reply);
      SummaryKeepsValid(st, reply);
    case ProgressTimer =>
      assert next == TimerFires(st);
      TimerKeepsValid(st);
  }

  /** Every available event keeps the invariant. */
  lemma ValidPreserved(st: State, e: Event)
    requires Valid(st) && Enabled(st, e)
    ensures Valid(Next(st, e))
  {
    if e.InfoArrives? || e.DownloadEnds? || e.SummaryArrives? || e.ProgressTimer? {
      ReplyKeepsValid(st, e);
    } else {
      ActionKeepsValid(st, e);
    }
  }

  /** The state after a sequence of events, or `None` when one of them is
      not available at its turn. */
  function Run(st: State, events: seq<Event>): Option<State>
    decreases |events|
  {
    if |events| == 0 then Some(st)
    else if Enabled(st, events[0]) then Run(Next(st, events[0]), events[1..])
    else None
  }

  /** Every state the form reaches from a valid one is valid. */
  lemma {:induction false} RunValid(st: State, events: seq<Event>)
    requires Valid(st)
    ensures Run(st, events).Some? ==> Valid(Run(st, events).value)
    decreases |events|
  {
    if |events| > 0 && Enabled(st, events[0]) {
      ValidPreserved(st, events[0]);
      RunValid(Next(st, events[0]), events[1..]);
    }
  }

  /** In particular every state reachable from the initial one is valid. */
  lemma ReachableValid(events: seq<Event>)
    ensures Run(Initial(), events).Some? ==> Valid(Run(Initial(), events).value)
  {
    InitialValid();
    RunValid(Initial(), events);
  }

  /** The summary request is not locked against the form: the download
      buttons check only `loading`, so a download can start while a summary
      loads. The two requests write disjoint fields, so their replies give
      the same state in either order. */
  lemma SummaryOverlapsDownload(st: State, k: DownloadKind, done: Reply<()>, summary: Reply<SummaryResponse>)
    requires Valid(st) && st.videoInfo.Some? && !st.loading && !st.summaryLoading
    ensures var both := Next(Next(st, Summarize), Download(k));
      && both.loading && both.summaryLoading && Valid(both)
      && Next(Next(both, DownloadEnds(done)), SummaryArrives(summary))
         == Next(Next(both, SummaryArrives(summary)), DownloadEnds(done))
  {
    var asked := Next(st, Summarize);
    assert asked == BeginSummarize(st);
    ValidPreserved(st, Summarize);
    assert Enabled(asked, Download(k));
    var both := Next(asked, Download(k));
    assert both == BeginDownload(asked, k);
    ValidPreserved(asked, Download(k));
    var d1 := FinishDownload(both, done);
    var s1 := FinishSummarize(both, summary);
    assert Next(both, DownloadEnds(done)) == d1;
    assert Next(both, SummaryArrives(summary)) == s1;
    assert Next(d1, SummaryArrives(summary)) == FinishSummarize(d1, summary);
    assert Next(s1, DownloadEnds(done)) == FinishDownload(s1, done);
  }

  /** The guards lock the form while a request is in flight: typing, the
      fetch button and the download and summarize buttons are all disabled
      then, so no second fetch or download can start. The download buttons
      appear only for fetched information, which belongs to a non-blank
      link. */
  lemma FormLockedWhileLoading(st: State, e: Event)
    requires Valid(st) && Enabled(st, e)
    ensures e.Edit? || e.FetchInfo? || e.Download? || e.Summarize? ==> st.job.None?
    ensures e.Download? || e.Toggle? ==> st.videoInfo.Some? && !IsBlank(st.link)
    ensures e.InfoArrives? || e.DownloadEnds? ==> st.loading
  {
  }

  /** The summarize button sits inside the block shown only after a
      successful fetch, so its blank-link branch never runs from the page. */
  lemma SummarizeLinkNeverBlank(st: State)
    requires Valid(st) && Enabled(st, Summarize)
    ensures !IsBlank(st.link)
    ensures Next(st, Summarize).summaryOpen && Next(st, Summarize).error == st.error
  {
  }

  /** The fetch button is enabled for a link of spaces, so the blank-link
      branch of the fetch handler is reachable: it leaves only an error. */
  lemma BlankFetchReachable()
    ensures var st := Initial().(link := " ");
      && Enabled(st, FetchInfo)
      && !Next(st, FetchInfo).loading
      && Next(st, FetchInfo) == st.(error := Some(NeedLinkText()))
  {
    var st := Initial().(link := " ");
    assert Trim(st.link) == "" by {
      assert AllWhitespace(st.link);
    }
  }

  /** The dialog as the form drives it, with the dialog's own export flag. */
  function DialogOf(st: State, exporting: bool): Modal {
    Modal(st.summaryOpen, st.summaryData, st.summaryLoading, st.summaryError, exporting)
  }

  /** In a valid state the dialog shows at most one of its progress, error
      and summary blocks, its error block shows exactly when there is an
      error, and an enabled export button means the summary is on screen. */
  lemma DialogShowsOneThing(st: State, exporting: bool)
    requires Valid(st)
    ensures var m := DialogOf(st, exporting);
      && (ErrorShown(m) <==> st.summaryError.Some?)
      && !(SpinnerShown(m) && ErrorShown(m))
      && !(SpinnerShown(m) && BodyShown(m))
      && !(ErrorShown(m) && BodyShown(m))
      && (!ExportDisabled(m) ==> BodyShown(m))
  {
  }

  /** Closing the dialog after a summary arrives leaves nothing of it, so
      the next opening starts blank. */
  lemma CloseForgetsSummary(st: State, reply: Reply<SummaryResponse>)
    requires Valid(st) && st.summaryLoading
    ensures var closed := CloseSummary(FinishSummarize(st, reply));
      && !BodyShown(DialogOf(closed, false)) && !ErrorShown(DialogOf(closed, false))
      && !closed.summaryOpen
  {
  }

  /** The suffix `formatViews` puts on a view count. */
  datatype ViewScale = Units | Thousands | Millions

  function ScaleOf(views: nat): (k: ViewScale)
    ensures k == Millions <==> views >= 1000000
    ensures k == Thousands <==> 1000 <= views < 1000000
    ensures k == Units <==> views < 1000
  {
    if views >= 1000000 then Millions else if views >= 1000 then Thousands else Units
  }

  /** `formatViews`. The one-decimal rendering `(v / d).toFixed(1)` is a
      floating-point library call and is the parameter `toFixed1(v, d)`. */
  function FormatViews(views: nat, toFixed1: (nat, nat) -> string): (r: string)
    ensures ScaleOf(views) == Millions ==> r == toFixed1(views, 1000000) + "M"
    ensures ScaleOf(views) == Thousands ==> r == toFixed1(views, 1000) + "K"
    ensures ScaleOf(views) == Units ==> r == Dec(views)
  {
    match ScaleOf(views)
    case Millions => toFixed1(views, 1000000) + "M"
    case Thousands => toFixed1(views, 1000) + "K"
    case Units => Dec(views)
  }

  /** The label's last character tells the scale apart whatever the decimal
      rendering: `M` for millions, `K` for thousands, a digit below a
      thousand, where the label reads back as the exact count. */
  lemma ViewsLabelSpec(views: nat, toFixed1: (nat, nat) -> string)
    ensures var r := FormatViews(views, toFixed1);
      && |r| > 0
      && (r[|r| - 1] == 'M' <==> views >= 1000000)
      && (r[|r| - 1] == 'K' <==> 1000 <= views < 1000000)
      && (IsDigit(r[|r| - 1]) <==> views < 1000)
      && (views < 1000 ==> Canonical(r) && Value(r) == views)
  {
    var r := FormatViews(views, toFixed1);
    if views < 1000 {
      ValueOfDec(views);
      assert IsDigit(r[|r| - 1]);
    }
  }
}
