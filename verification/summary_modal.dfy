/**
 The summary dialog (src/components/SummaryModal.tsx). Its parent hands it
 whether it is open, the summary (or null), a loading flag and an error;
 the dialog itself keeps one flag, `exporting`, while a Word export runs.
 The model is what the dialog shows for a given set of inputs and how the
 export button drives that flag.
 */
module SummaryModal {
  import opened Types
  import opened ExportDocx

  /** The dialog's inputs together with its own export flag. */
  datatype Modal = Modal(
    open: bool,
    summary: Option<SummaryResponse>,
    loading: bool,
    error: Option<string>,
    exporting: bool)

  /** The progress block shows while the parent is loading. */
  predicate SpinnerShown(m: Modal) {
    m.loading
  }

  /** The error block shows for a truthy error text. */
  predicate ErrorShown(m: Modal) {
    Truthy(m.error)
  }

  /** `!loading && !error && summary`: the summary body. */
  predicate BodyShown(m: Modal) {
    !m.loading && !Truthy(m.error) && m.summary.Some?
  }

  /** `disabled={!summary || loading || exporting}` on the export button. */
  predicate ExportDisabled(m: Modal) {
    m.summary.None? || m.loading || m.exporting
  }

  /** The optional blocks of the body on screen, in display order: none
      unless the body shows, otherwise each block whose list or text is
      non-empty. */
  function ShownSections(m: Modal): (r: seq<Section>)
    ensures |r| > 0 ==> BodyShown(m)
    ensures BodyShown(m) ==> r == PresentSections(m.summary.value)
  {
    if BodyShown(m) then PresentSections(m.summary.value) else []
  }

  /** The body never shares the dialog with the progress or error block. */
  lemma BodyExcludesOthers(m: Modal)
    ensures BodyShown(m) ==> !SpinnerShown(m) && !ErrorShown(m)
    ensures !SpinnerShown(m) && !ErrorShown(m) ==> (BodyShown(m) <==> m.summary.Some?)
  {
  }

  /** The sections the dialog shows are the sections, in the same order,
      the exported document carries. */
  lemma ScreenMatchesExport(m: Modal)
    requires BodyShown(m)
    ensures ShownSections(m) == Outline(ExportDocument(m.summary.value))
  {
    ExportOutline(m.summary.value);
  }

  /** The chip telling where the transcript came from. */
  datatype SourceChip = SubtitleChip | AudioChip

  function SourceChipOf(transcriptSource: string): (c: SourceChip)
    ensures c == SubtitleChip <==> transcriptSource == "subtitle"
  {
    if SourceKindOf(transcriptSource) == FromSubtitle then SubtitleChip else AudioChip
  }

  function ChipLabel(c: SourceChip): string {
    match c
    case SubtitleChip => "จาก Subtitle"
    case AudioChip => "จาก Audio"
  }

  /** The label reads "Subtitle" exactly for the source text `subtitle`;
      any other text, the empty one included, is labelled "Audio". */
  lemma ChipLabelSpec(transcriptSource: string)
    ensures ChipLabel(SourceChipOf(transcriptSource)) == ChipLabel(SubtitleChip)
      <==> transcriptSource == "subtitle"
  {
    assert |ChipLabel(SubtitleChip)| != |ChipLabel(AudioChip)|;
  }

  /** What the export writes: the document and the name it is saved as. */
  datatype ExportJob = ExportJob(document: seq<Para>, fileName: string)

  /** How `exportSummaryToDocx` ended; the handler logs a failure and
      otherwise treats both alike. */
  datatype ExportOutcome = Saved | Failed(reason: string)

  /** The synchronous part of `handleExport`: without a summary nothing
      happens; otherwise the flag goes up and the export of that summary
      starts. */
  function BeginExport(m: Modal): (r: (Modal, Option<ExportJob>))
    ensures m.summary.None? ==> r.0 == m && r.1.None?
    ensures m.summary.Some? ==> r.0.exporting && r.0.(exporting := m.exporting) == m
    ensures m.summary.Some? ==> r.1 == Some(ExportJob(
      ExportDocument(m.summary.value), ExportFileName(m.summary.value.title)))
  {
    match m.summary
    case None => (m, None)
    case Some(s) => (m.(exporting := true), Some(ExportJob(ExportDocument(s), ExportFileName(s.title))))
  }

  /** The `finally` of `handleExport`: the flag comes down whatever the
      outcome, and nothing else changes. */
  function FinishExport(m: Modal, outcome: ExportOutcome): (r: Modal)
    ensures !r.exporting
    ensures r.(exporting := m.exporting) == m
  {
    m.(exporting := false)
  }

  /** A whole export attempt, successful or not, leaves the dialog as it
      found it with the flag down. Only an attempt with a summary reaches
      the `finally`. */
  lemma ExportCycle(m: Modal, outcome: ExportOutcome)
    requires m.summary.Some?
    ensures FinishExport(BeginExport(m).0, outcome) == m.(exporting := false)
  {
  }

  /** An enabled export button always starts an export, and while the export
      runs the button is disabled, so a second one cannot start. */
  lemma ExportButtonGuards(m: Modal)
    ensures !ExportDisabled(m) ==> BeginExport(m).1.Some?
    ensures BeginExport(m).1.Some? ==> ExportDisabled(BeginExport(m).0)
  {
  }

  /** The export writes the document of the summary the dialog holds, and
      its sections are the ones on screen. */
  lemma ExportWritesShownSummary(m: Modal)
    requires BodyShown(m)
    ensures BeginExport(m).1.Some?
    ensures Outline(BeginExport(m).1.value.document) == ShownSections(m)
  {
    ScreenMatchesExport(m);
  }
}
