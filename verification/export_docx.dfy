/**
 The Word export of a summary (src/utils/exportDocx.ts). The document is
 modelled as the ordered list of its paragraphs, each reduced to what it
 says; fonts, colours and spacing are not part of the model. The file name
 the document is saved under comes from the summary's title with the
 characters file systems reject replaced and the length capped.
 */
module ExportDocx {
  import opened Text
  import opened Types
  import opened Duration

  /** One paragraph of the exported document. */
  datatype Para =
    | Banner                                               // the fixed document heading
    | TopRule                                              // the divider under it
    | VideoTitle(text: string)
    | InfoLine(author: string, seconds: nat, origin: SourceKind)  // duration shown worded
    | SectionHeading(section: Section)
    | HighlightTitle(number: nat, title: string)           // "n. title"
    | HighlightText(description: string)
    | PaperTitle(source: string, title: string)            // "[source] title"
    | FindingBullet                                        // one per key finding
    | ConclusionText(text: string)
    | BottomRule
    | TranscriptNote(length: nat)
    | Credit                                               // "made by", with the export date

  /** The paragraphs for the highlights, the first one numbered `first`:
      a numbered title and a description per highlight. */
  function HighlightParas(hs: seq<MarketHighlight>, first: nat): (r: seq<Para>)
    ensures |r| == 2 * |hs|
    decreases |hs|
  {
    if |hs| == 0 then []
    else
      [HighlightTitle(first, hs[0].title), HighlightText(hs[0].description)]
      + HighlightParas(hs[1..], first + 1)
  }

  /** The i-th highlight (from 0) is titled at paragraph 2i with the number
      `first + i` and described at paragraph 2i + 1. */
  lemma {:induction false} HighlightParasAt(hs: seq<MarketHighlight>, first: nat, i: nat)
    requires i < |hs|
    ensures HighlightParas(hs, first)[2 * i] == HighlightTitle(first + i, hs[i].title)
    ensures HighlightParas(hs, first)[2 * i + 1] == HighlightText(hs[i].description)
    decreases i
  {
    var two := [HighlightTitle(first, hs[0].title), HighlightText(hs[0].description)];
    var rest := HighlightParas(hs[1..], first + 1);
    assert HighlightParas(hs, first) == two + rest;
    if i > 0 {
      HighlightParasAt(hs[1..], first + 1, i - 1);
      assert hs[1..][i - 1] == hs[i];
      assert 2 * i == 2 + 2 * (i - 1);
      assert (two + rest)[2 * i] == rest[2 * (i - 1)];
      assert (two + rest)[2 * i + 1] == rest[2 * (i - 1) + 1];
    }
  }

  function Bullets(n: nat): (r: seq<Para>)
    ensures |r| == n
    ensures forall i :: 0 <= i < n ==> r[i] == FindingBullet
  {
    if n == 0 then [] else [FindingBullet] + Bullets(n - 1)
  }

  /** How many key findings the papers hold altogether. */
  function FindingTotal(ps: seq<Paper>): nat {
    if |ps| == 0 then 0 else |ps[0].keyFindings| + FindingTotal(ps[1..])
  }

  /** Each paper's title line followed by one bullet per key finding. */
  function PaperParas(ps: seq<Paper>): (r: seq<Para>)
    ensures |r| == |ps| + FindingTotal(ps)
  {
    if |ps| == 0 then []
    else [PaperTitle(ps[0].source, ps[0].title)] + Bullets(|ps[0].keyFindings|) + PaperParas(ps[1..])
  }

  /** Where the i-th paper's title line sits in the papers block: after the
      title lines and bullets of the papers before it. */
  function PaperStart(ps: seq<Paper>, i: nat): nat
    requires i <= |ps|
  {
    i + FindingTotal(ps[..i])
  }

  /** The papers block keeps list order: the i-th paper's `[source] title`
      line is at `PaperStart(ps, i)`, the next paragraphs are one bullet per
      key finding of that paper, and the following paper starts right after
      them. */
  lemma {:induction false} PaperParasAt(ps: seq<Paper>, i: nat)
    requires i < |ps|
    ensures PaperStart(ps, i + 1) == PaperStart(ps, i) + 1 + |ps[i].keyFindings|
    ensures PaperStart(ps, i) + |ps[i].keyFindings| < |PaperParas(ps)|
    ensures PaperParas(ps)[PaperStart(ps, i)] == PaperTitle(ps[i].source, ps[i].title)
    ensures forall k :: PaperStart(ps, i) < k <= PaperStart(ps, i) + |ps[i].keyFindings| ==>
      PaperParas(ps)[k] == FindingBullet
    decreases i
  {
    var head := [PaperTitle(ps[0].source, ps[0].title)] + Bullets(|ps[0].keyFindings|);
    var rest := PaperParas(ps[1..]);
    assert PaperParas(ps) == head + rest;
    assert |head| == 1 + |ps[0].keyFindings|;
    PrefixTotal(ps, i + 1);
    if i == 0 {
      assert ps[..0] == [];
      assert ps[..1] == [ps[0]];
      assert FindingTotal(ps[..1]) == |ps[0].keyFindings| + FindingTotal(ps[..1][1..]);
      assert ps[..1][1..] == [];
      forall k | 0 < k <= |ps[0].keyFindings|
        ensures PaperParas(ps)[k] == FindingBullet
      {
        assert (head + rest)[k] == Bullets(|ps[0].keyFindings|)[k - 1];
      }
    } else {
      PaperParasAt(ps[1..], i - 1);
      PrefixTotal(ps, i);
      assert ps[1..][i - 1] == ps[i];
      assert PaperStart(ps, i) == |head| + PaperStart(ps[1..], i - 1);
      assert PaperStart(ps, i + 1) == |head| + PaperStart(ps[1..], i);
      var d := |head|;
      forall k | PaperStart(ps, i) <= k <= PaperStart(ps, i) + |ps[i].keyFindings|
        ensures PaperParas(ps)[k] == rest[k - d]
      {
      }
    }
  }

  /** Counting the findings of a non-empty prefix takes the first paper's
      findings and those of the rest of the prefix. */
  lemma PrefixTotal(ps: seq<Paper>, i: nat)
    requires 0 < i <= |ps|
    ensures FindingTotal(ps[..i]) == |ps[0].keyFindings| + FindingTotal(ps[1..][..i - 1])
  {
    assert ps[..i][1..] == ps[1..][..i - 1];
  }

  function HighlightsBlock(hs: seq<MarketHighlight>): seq<Para> {
    if |hs| == 0 then [] else [SectionHeading(Highlights)] + HighlightParas(hs, 1)
  }

  function PapersBlock(ps: seq<Paper>): seq<Para> {
    if |ps| == 0 then [] else [SectionHeading(Papers)] + PaperParas(ps)
  }

  function ConclusionBlock(c: string): seq<Para> {
    if c == "" then [] else [SectionHeading(Conclusion), ConclusionText(c)]
  }

  /** Banner, divider, video title and the author/duration/source line. */
  function Header(s: SummaryResponse): seq<Para> {
    [Banner, TopRule, VideoTitle(s.title), InfoLine(s.author, s.duration, SourceKindOf(s.transcriptSource))]
  }

  /** The optional sections, each present only when it has content. */
  function Body(s: SummaryResponse): seq<Para> {
    HighlightsBlock(s.marketHighlights) + PapersBlock(s.papers) + ConclusionBlock(s.conclusion)
  }

  /** Divider, transcript length and credit line. */
  function Footer(s: SummaryResponse): seq<Para> {
    [BottomRule, TranscriptNote(s.transcriptLength), Credit]
  }

  /** The paragraphs `exportSummaryToDocx` assembles, in order: a fixed
      four-paragraph header, the highlights, papers and conclusion sections
      each only when it has content, and a fixed three-paragraph footer.
      Its size counts 1 + 2n paragraphs for n highlights, one heading plus
      a title per paper and a bullet per finding, and 2 for a conclusion. */
  function ExportDocument(s: SummaryResponse): (doc: seq<Para>)
    ensures |doc| == 7
      + (if |s.marketHighlights| > 0 then 1 + 2 * |s.marketHighlights| else 0)
      + (if |s.papers| > 0 then 1 + |s.papers| + FindingTotal(s.papers) else 0)
      + (if s.conclusion != "" then 2 else 0)
  {
    Header(s) + Body(s) + Footer(s)
  }

  /** Whatever the summary holds, the document opens with the banner, the
      divider, the video title and the info line carrying the author, the
      worded duration and the transcript source, and closes with the
      divider, the transcript length and the credit line. */
  lemma ExportFrame(s: SummaryResponse)
    ensures var doc := ExportDocument(s);
      && doc[..4] == [Banner, TopRule, VideoTitle(s.title),
                      InfoLine(s.author, s.duration, SourceKindOf(s.transcriptSource))]
      && doc[|doc| - 3..] == [BottomRule, TranscriptNote(s.transcriptLength), Credit]
  {
    var h, b, f := Header(s), Body(s), Footer(s);
    var doc := h + b + f;
    assert ExportDocument(s) == doc;
    assert |h| == 4 && |f| == 3;
    assert doc[..4] == h;
    assert doc[|doc| - 3..] == f;
  }

  /** The duration text an info line shows. */
  function DurationText(p: Para): string
    requires p.InfoLine?
  {
    Worded(p.seconds)
  }

  /** The duration the document's info line shows reads back as the
      summary's duration split into hours, minutes and seconds. */
  lemma ExportDuration(s: SummaryResponse)
    ensures ExportDocument(s)[3].InfoLine?
    ensures ParseWorded(DurationText(ExportDocument(s)[3])) == Some(Decompose(s.duration))
  {
    ExportFrame(s);
    assert ExportDocument(s)[..4][3] == ExportDocument(s)[3];
    WordedRoundTrip(s.duration);
  }

  function HeadingList(p: Para): seq<Section> {
    if p.SectionHeading? then [p.section] else []
  }

  /** The section headings of a document, in order. */
  function Outline(doc: seq<Para>): seq<Section> {
    if |doc| == 0 then [] else HeadingList(doc[0]) + Outline(doc[1..])
  }

  /** How many finding bullets a document holds. */
  function BulletCount(doc: seq<Para>): nat {
    if |doc| == 0 then 0 else (if doc[0].FindingBullet? then 1 else 0) + BulletCount(doc[1..])
  }

  lemma {:induction false} OutlineConcat(a: seq<Para>, b: seq<Para>)
    ensures Outline(a + b) == Outline(a) + Outline(b)
    decreases |a|
  {
    if |a| > 0 {
      var x := HeadingList(a[0]);
      assert (a + b)[0] == a[0];
      assert (a + b)[1..] == a[1..] + b;
      assert Outline(a + b) == x + Outline(a[1..] + b);
      OutlineConcat(a[1..], b);
      assert x + (Outline(a[1..]) + Outline(b)) == (x + Outline(a[1..])) + Outline(b);
    } else {
      assert a + b == b;
    }
  }

  lemma {:induction false} BulletCountConcat(a: seq<Para>, b: seq<Para>)
    ensures BulletCount(a + b) == BulletCount(a) + BulletCount(b)
    decreases |a|
  {
    if |a| > 0 {
      assert (a + b)[0] == a[0];
      assert (a + b)[1..] == a[1..] + b;
      BulletCountConcat(a[1..], b);
    } else {
      assert a + b == b;
    }
  }

  /** Neither a section heading nor a finding bullet. */
  predicate Plain(doc: seq<Para>) {
    forall i :: 0 <= i < |doc| ==> !doc[i].SectionHeading? && !doc[i].FindingBullet?
  }

  lemma {:induction false} PlainCounts(a: seq<Para>)
    requires Plain(a)
    ensures Outline(a) == [] && BulletCount(a) == 0
    decreases |a|
  {
    if |a| > 0 {
      assert !a[0].SectionHeading? && !a[0].FindingBullet?;
      assert forall i :: 0 <= i < |a| - 1 ==> a[1..][i] == a[i + 1];
      PlainCounts(a[1..]);
    }
  }

  /** Neither the header nor the footer holds a heading or a bullet. */
  lemma FrameIsPlain(s: SummaryResponse)
    ensures Outline(Header(s)) == [] && Outline(Footer(s)) == []
    ensures BulletCount(Header(s)) == 0 && BulletCount(Footer(s)) == 0
  {
    PlainCounts(Header(s));
    PlainCounts(Footer(s));
  }

  lemma {:induction false} HighlightParasPlain(hs: seq<MarketHighlight>, first: nat)
    ensures Plain(HighlightParas(hs, first))
    decreases |hs|
  {
    if |hs| > 0 {
      var two := [HighlightTitle(first, hs[0].title), HighlightText(hs[0].description)];
      var rest := HighlightParas(hs[1..], first + 1);
      assert HighlightParas(hs, first) == two + rest;
      HighlightParasPlain(hs[1..], first + 1);
      assert forall i :: 2 <= i < |two + rest| ==> (two + rest)[i] == rest[i - 2];
    }
  }

  lemma {:induction false} BulletsCounts(n: nat)
    ensures Outline(Bullets(n)) == []
    ensures BulletCount(Bullets(n)) == n
    decreases n
  {
    if n > 0 {
      var b := Bullets(n);
      assert b[0] == FindingBullet && b[1..] == Bullets(n - 1);
      BulletsCounts(n - 1);
    }
  }

  lemma {:induction false} PaperParasCounts(ps: seq<Paper>)
    ensures Outline(PaperParas(ps)) == []
    ensures BulletCount(PaperParas(ps)) == FindingTotal(ps)
    decreases |ps|
  {
    if |ps| > 0 {
      var t := PaperTitle(ps[0].source, ps[0].title);
      var b := Bullets(|ps[0].keyFindings|);
      var rest := PaperParas(ps[1..]);
      assert PaperParas(ps) == [t] + (b + rest);
      PaperParasCounts(ps[1..]);
      BulletsCounts(|ps[0].keyFindings|);
      PlainCounts([t]);
      OutlineConcat([t], b + rest);
      OutlineConcat(b, rest);
      BulletCountConcat([t], b + rest);
      BulletCountConcat(b, rest);
    }
  }

  lemma BlockOutlines(s: SummaryResponse)
    ensures Outline(HighlightsBlock(s.marketHighlights))
      == (if |s.marketHighlights| > 0 then [Highlights] else [])
    ensures Outline(PapersBlock(s.papers)) == (if |s.papers| > 0 then [Papers] else [])
    ensures Outline(ConclusionBlock(s.conclusion)) == (if s.conclusion != "" then [Conclusion] else [])
  {
    var hs, ps, c := s.marketHighlights, s.papers, s.conclusion;
    if |hs| > 0 {
      var hb := HighlightsBlock(hs);
      HighlightParasPlain(hs, 1);
      PlainCounts(HighlightParas(hs, 1));
      assert hb[0] == SectionHeading(Highlights) && hb[1..] == HighlightParas(hs, 1);
    }
    if |ps| > 0 {
      var pb := PapersBlock(ps);
      PaperParasCounts(ps);
      assert pb[0] == SectionHeading(Papers) && pb[1..] == PaperParas(ps);
    }
    if c != "" {
      var cb := ConclusionBlock(c);
      assert cb[0] == SectionHeading(Conclusion) && cb[1..] == [ConclusionText(c)];
      PlainCounts(cb[1..]);
    }
  }

  lemma SectionsAssoc(a: seq<Section>, b: seq<Section>, c: seq<Section>)
    ensures a + (b + c) == (a + b) + c
  {
  }

  lemma BodyOutline(s: SummaryResponse)
    ensures Outline(Body(s)) == PresentSections(s)
  {
    var h, p, c := HighlightsBlock(s.marketHighlights), PapersBlock(s.papers), ConclusionBlock(s.conclusion);
    assert Body(s) == h + (p + c);
    OutlineConcat(h, p + c);
    OutlineConcat(p, c);
    BlockOutlines(s);
    SectionsAssoc(Outline(h), Outline(p), Outline(c));
  }

  lemma FrameOutline(s: SummaryResponse)
    ensures Outline(ExportDocument(s)) == Outline(Body(s))
  {
    assert ExportDocument(s) == Header(s) + (Body(s) + Footer(s));
    OutlineConcat(Header(s), Body(s) + Footer(s));
    OutlineConcat(Body(s), Footer(s));
    FrameIsPlain(s);
  }

  /** The document's section headings are exactly the sections the summary
      has content for, in the order highlights, papers, conclusion; the
      header and footer carry no section heading. */
  lemma ExportOutline(s: SummaryResponse)
    ensures Outline(ExportDocument(s)) == PresentSections(s)
  {
    FrameOutline(s);
    BodyOutline(s);
  }

  lemma BlockBullets(s: SummaryResponse)
    ensures BulletCount(HighlightsBlock(s.marketHighlights)) == 0
    ensures BulletCount(PapersBlock(s.papers)) == FindingTotal(s.papers)
    ensures BulletCount(ConclusionBlock(s.conclusion)) == 0
  {
    var hs, ps, c := s.marketHighlights, s.papers, s.conclusion;
    if |hs| > 0 {
      var hb := HighlightsBlock(hs);
      HighlightParasPlain(hs, 1);
      PlainCounts(HighlightParas(hs, 1));
      assert hb[0] == SectionHeading(Highlights) && hb[1..] == HighlightParas(hs, 1);
    }
    if |ps| > 0 {
      var pb := PapersBlock(ps);
      PaperParasCounts(ps);
      assert pb[0] == SectionHeading(Papers) && pb[1..] == PaperParas(ps);
    }
    if c != "" {
      var cb := ConclusionBlock(c);
      assert cb[0] == SectionHeading(Conclusion) && cb[1..] == [ConclusionText(c)];
      PlainCounts(cb[1..]);
    }
  }

  lemma DocumentBullets(s: SummaryResponse)
    ensures BulletCount(ExportDocument(s)) == FindingTotal(s.papers)
  {
    var h, p, c := HighlightsBlock(s.marketHighlights), PapersBlock(s.papers), ConclusionBlock(s.conclusion);
    assert ExportDocument(s) == Header(s) + (Body(s) + Footer(s));
    assert Body(s) == h + (p + c);
    BulletCountConcat(Header(s), Body(s) + Footer(s));
    BulletCountConcat(Body(s), Footer(s));
    BulletCountConcat(h, p + c);
    BulletCountConcat(p, c);
    FrameIsPlain(s);
    BlockBullets(s);
  }

  /** The document holds exactly one bullet per key finding of every paper. */
  lemma ExportBullets(s: SummaryResponse)
    ensures BulletCount(ExportDocument(s)) == FindingTotal(s.papers)
  {
    DocumentBullets(s);
  }

  /** Paragraph 5 + k of the document is paragraph k of the highlights. */
  lemma HighlightParaInDocument(s: SummaryResponse, k: nat)
    requires k < 2 * |s.marketHighlights|
    ensures ExportDocument(s)[5 + k] == HighlightParas(s.marketHighlights, 1)[k]
  {
    var hs := s.marketHighlights;
    var h, b, f := Header(s), Body(s), Footer(s);
    var hb, pb, cb := HighlightsBlock(hs), PapersBlock(s.papers), ConclusionBlock(s.conclusion);
    var hp := HighlightParas(hs, 1);
    var doc := ExportDocument(s);
    assert doc == (h + b) + f;
    assert b == (hb + pb) + cb;
    assert hb == [SectionHeading(Highlights)] + hp;
    assert |h| == 4 && |hb| == 1 + 2 * |hs|;
    assert doc[5 + k] == (h + b)[5 + k];
    assert (h + b)[5 + k] == b[1 + k];
    assert b[1 + k] == (hb + pb)[1 + k];
    assert (hb + pb)[1 + k] == hb[1 + k];
  }

  /** With highlights present, the i-th one (from 0) is titled at paragraph
      5 + 2i with the number i + 1 and described right after it: the
      numbering runs 1..n in list order. */
  lemma ExportHighlightNumbering(s: SummaryResponse, i: nat)
    requires i < |s.marketHighlights|
    ensures ExportDocument(s)[5 + 2 * i] == HighlightTitle(i + 1, s.marketHighlights[i].title)
    ensures ExportDocument(s)[6 + 2 * i] == HighlightText(s.marketHighlights[i].description)
  {
    HighlightParasAt(s.marketHighlights, 1, i);
    HighlightParaInDocument(s, 2 * i);
    HighlightParaInDocument(s, 2 * i + 1);
  }

  /** The ten characters `replace(/[/\\?%*:|"<>]/g, '-')` rewrites. */
  predicate IsForbidden(c: char) {
    || c == '/' || c == '\\' || c == '?' || c == '%' || c == '*'
    || c == ':' || c == '|' || c == '"' || c == '<' || c == '>'
  }

  function Scrub(c: char): char {
    if IsForbidden(c) then '-' else c
  }

  function ReplaceForbidden(t: string): (r: string)
    ensures |r| == |t|
    ensures forall i :: 0 <= i < |t| ==> r[i] == Scrub(t[i])
  {
    if |t| == 0 then [] else [Scrub(t[0])] + ReplaceForbidden(t[1..])
  }

  /** The longest title kept in the file name. */
  const MaxTitleLength: nat := 100

  /** The title part of the export's file name: every forbidden character
      becomes '-', and at most the first 100 characters are kept. */
  function SanitizeTitle(title: string): (r: string)
    ensures |r| == if |title| < MaxTitleLength then |title| else MaxTitleLength
    ensures forall i :: 0 <= i < |r| ==> r[i] == (if IsForbidden(title[i]) then '-' else title[i])
    ensures forall i :: 0 <= i < |r| ==> !IsForbidden(r[i])
  {
    var t := ReplaceForbidden(title);
    if |t| < MaxTitleLength then t else t[..MaxTitleLength]
  }

  /** Sanitizing twice changes nothing more. */
  lemma SanitizeIdempotent(title: string)
    ensures SanitizeTitle(SanitizeTitle(title)) == SanitizeTitle(title)
  {
    var r := SanitizeTitle(title);
    var rr := SanitizeTitle(r);
    assert |rr| == |r|;
    assert forall i :: 0 <= i < |r| ==> rr[i] == r[i];
  }

  /** A title passes through unchanged exactly when it is short enough and
      holds no forbidden character. */
  lemma SanitizeFixedPoint(title: string)
    ensures SanitizeTitle(title) == title
      <==> |title| <= MaxTitleLength && forall i :: 0 <= i < |title| ==> !IsForbidden(title[i])
  {
    var r := SanitizeTitle(title);
    if |title| <= MaxTitleLength && forall i :: 0 <= i < |title| ==> !IsForbidden(title[i]) {
      assert forall i :: 0 <= i < |title| ==> r[i] == title[i];
    }
  }

  function SummarySuffix(): string { "-summary.docx" }

  /** `${sanitizedTitle}-summary.docx`: the sanitized title can be read
      back off the name, and the name stays within 100 characters plus the
      suffix. */
  function ExportFileName(title: string): (name: string)
    ensures |name| == |SanitizeTitle(title)| + |SummarySuffix()|
    ensures |name| <= MaxTitleLength + |SummarySuffix()|
    ensures name[..|name| - |SummarySuffix()|] == SanitizeTitle(title)
    ensures name[|name| - |SummarySuffix()|..] == SummarySuffix()
  {
    SanitizeTitle(title) + SummarySuffix()
  }
}
