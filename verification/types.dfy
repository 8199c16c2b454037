/**
 The records the front end exchanges with its backend (src/types.ts), plus
 the small vocabulary the components share: an optional value for the
 nullable fields and the outcome of one `fetch` round trip.
 */
module Types {

  /** `T | null`. */
  datatype Option<+T> = None | Some(value: T)

  /** The JavaScript truthiness of a `string | null`: null and the empty
      string are both falsy. */
  predicate Truthy(s: Option<string>) {
    s.Some? && s.value != ""
  }

  /** `a || b` on strings: the first operand unless it is empty. */
  function OrElse(a: string, b: string): (r: string)
    ensures a != "" ==> r == a
    ensures a == "" ==> r == b
  {
    if a != "" then a else b
  }

  /** How one `fetch` round trip ends, as the handlers observe it: a parsed
      body (`Received`), a response whose status is not ok, carrying the
      `error` field of its JSON body or "" when that field is absent
      (`Rejected`), or an exception with its `message` (`Thrown`). */
  datatype Reply<+T> =
    | Received(data: T)
    | Rejected(errorField: string)
    | Thrown(message: string)

  datatype VideoInfo = VideoInfo(
    title: string,
    author: string,
    lengthSeconds: nat,
    viewCount: nat,
    thumbnailUrl: string)

  datatype MarketHighlight = MarketHighlight(title: string, description: string)

  datatype KeyFinding = KeyFinding(title: string, description: string)

  datatype Paper = Paper(source: string, title: string, keyFindings: seq<KeyFinding>)

  /** An AI-generated summary of one video. The guards that read the lists
      and the conclusion treat null exactly like an empty list or an empty
      string, so null is represented by the empty value. */
  datatype SummaryResponse = SummaryResponse(
    title: string,
    author: string,
    duration: nat,
    marketHighlights: seq<MarketHighlight>,
    papers: seq<Paper>,
    conclusion: string,
    transcriptLength: nat,
    transcriptSource: string)

  /** One row of the backend's usage log. */
  datatype UsageLog = UsageLog(
    id: int,
    endpoint: string,
    videoUrl: string,
    videoTitle: string,
    videoAuthor: string,
    videoDuration: nat,
    status: string,
    errorMessage: Option<string>,
    processingTimeMs: nat,
    ipAddress: string,
    userAgent: string,
    createdAt: string,
    completedAt: string)

  datatype UsageLogResponse = UsageLogResponse(total: nat, data: seq<UsageLog>)

  /** Where a transcript came from, as both the modal and the exported
      document tell it. */
  datatype SourceKind = FromSubtitle | FromAudio

  /** `transcriptSource === 'subtitle'`: only that exact text is a
      subtitle source; every other value, empty included, reads as audio. */
  function SourceKindOf(transcriptSource: string): (k: SourceKind)
    ensures k == FromSubtitle <==> transcriptSource == "subtitle"
  {
    if transcriptSource == "subtitle" then FromSubtitle else FromAudio
  }

  /** The optional blocks of a summary, in the order both the modal and the
      exported document present them. */
  datatype Section = Highlights | Papers | Conclusion

  /** The sections a summary has content for, in presentation order. */
  function PresentSections(s: SummaryResponse): seq<Section> {
    (if |s.marketHighlights| > 0 then [Highlights] else [])
    + (if |s.papers| > 0 then [Papers] else [])
    + (if s.conclusion != "" then [Conclusion] else [])
  }

  /** A section is listed exactly when the summary has content for it, and
      the list is strictly ordered highlights, papers, conclusion. */
  lemma PresentSectionsSpec(s: SummaryResponse)
    ensures var r := PresentSections(s);
      && (Highlights in r <==> |s.marketHighlights| > 0)
      && (Papers in r <==> |s.papers| > 0)
      && (Conclusion in r <==> s.conclusion != "")
      && forall i, j :: 0 <= i < j < |r| ==> SectionRank(r[i]) < SectionRank(r[j])
  {
  }

  function SectionRank(s: Section): nat {
    match s
    case Highlights => 0
    case Papers => 1
    case Conclusion => 2
  }
}
