/**
 Durations in seconds rendered for people. The downloader card and the
 summary modal show a clock form (`1:02:03`, `2:05`); the exported document
 spells the units out in Thai (`1 ชั่วโมง 2 นาที 3 วินาที`). Both forms
 split the seconds the same way, and both show the hours segment only when
 there is at least one full hour.

 Each form comes with a strict reader that accepts exactly the texts the
 formatter can produce; the lemmas prove the two are inverse.
 */
module Duration {
  import opened Text
  import opened Types

  /** A duration split into hours, minutes and seconds. */
  datatype Parts = Parts(hours: nat, minutes: nat, seconds: nat)

  function TotalSeconds(p: Parts): nat {
    p.hours * 3600 + p.minutes * 60 + p.seconds
  }

  lemma ModOfMod(n: nat)
    ensures (n % 3600) % 60 == n % 60
  {
    var q, r := n / 3600, n % 3600;
    var a, b := r / 60, r % 60;
    assert n == (q * 60 + a) * 60 + b;
  }

  /** `Math.floor(s / 3600)`, `Math.floor((s % 3600) / 60)` and `s % 60`:
      an exact decomposition with minutes and seconds below 60. */
  function Decompose(seconds: nat): (p: Parts)
    ensures TotalSeconds(p) == seconds
    ensures p.minutes < 60 && p.seconds < 60
    ensures p.hours > 0 <==> seconds >= 3600
  {
    ModOfMod(seconds);
    Parts(seconds / 3600, (seconds % 3600) / 60, seconds % 60)
  }

  /** The decomposition is the only one with minutes and seconds below 60. */
  lemma DecomposeUnique(p: Parts)
    requires p.minutes < 60 && p.seconds < 60
    ensures Decompose(TotalSeconds(p)) == p
  {
    var n := TotalSeconds(p);
    var r := p.minutes * 60 + p.seconds;
    assert 0 <= r < 3600;
    assert n == p.hours * 3600 + r;
    assert n / 3600 == p.hours && n % 3600 == r;
    assert r / 60 == p.minutes && r % 60 == p.seconds;
  }

  /** The clock form of the two components' `formatDuration`:
      `h:mm:ss` with both lower fields padded when there is an hour,
      otherwise `m:ss` with only the seconds padded. */
  function Clock(seconds: nat): string {
    ClockOf(Decompose(seconds))
  }

  function ClockOf(p: Parts): string {
    if p.hours > 0 then
      Dec(p.hours) + ":" + Pad2(p.minutes) + ":" + Pad2(p.seconds)
    else
      Dec(p.minutes) + ":" + Pad2(p.seconds)
  }

  function ClockFields(p: Parts): seq<string> {
    if p.hours > 0 then [Dec(p.hours), Pad2(p.minutes), Pad2(p.seconds)]
    else [Dec(p.minutes), Pad2(p.seconds)]
  }

  /** Reads a clock text: two fields `m:ss` (m canonical and below 60, ss
      exactly two digits below 60) or three fields `h:mm:ss` (h canonical
      and not zero). Anything else is rejected. */
  function ParseClock(text: string): Option<Parts> {
    ClockFromFields(Split(text, ':'))
  }

  function ClockFromFields(f: seq<string>): Option<Parts> {
    if |f| == 2 && Canonical(f[0]) && TwoDigits(f[1])
      && Value(f[0]) < 60 && Value(f[1]) < 60
    then
      Some(Parts(0, Value(f[0]), Value(f[1])))
    else if |f| == 3 && Canonical(f[0]) && f[0] != "0" && TwoDigits(f[1]) && TwoDigits(f[2])
      && Value(f[1]) < 60 && Value(f[2]) < 60
    then
      Some(Parts(Value(f[0]), Value(f[1]), Value(f[2])))
    else
      None
  }

  lemma Join2(a: string, b: string, sep: char)
    ensures Join([a, b], sep) == a + [sep] + b
  {
    assert [a, b][1..] == [b];
  }

  lemma Join3(a: string, b: string, c: string, sep: char)
    ensures Join([a, b, c], sep) == a + [sep] + b + [sep] + c
  {
    assert [a, b, c][1..] == [b, c];
    Join2(b, c, sep);
  }

  lemma Join4(a: string, b: string, c: string, d: string, sep: char)
    ensures Join([a, b, c, d], sep) == a + [sep] + b + [sep] + c + [sep] + d
  {
    assert [a, b, c, d][1..] == [b, c, d];
    Join3(b, c, d, sep);
  }

  lemma Join6(a: string, b: string, c: string, d: string, e: string, f: string, sep: char)
    ensures Join([a, b, c, d, e, f], sep)
      == a + [sep] + b + [sep] + c + [sep] + d + [sep] + e + [sep] + f
  {
    assert [a, b, c, d, e, f][1..] == [b, c, d, e, f];
    assert [b, c, d, e, f][1..] == [c, d, e, f];
    Join4(c, d, e, f, sep);
  }

  /** None of the clock fields holds a colon. */
  lemma ClockFieldsFree(p: Parts)
    ensures FreeOf(ClockFields(p), ':')
  {
    DigitsFreeOf(Dec(p.hours), ':');
    DigitsFreeOf(Dec(p.minutes), ':');
    DigitsFreeOf(Pad2(p.minutes), ':');
    DigitsFreeOf(Pad2(p.seconds), ':');
  }

  /** The clock text of a decomposition is the colon-join of its fields. */
  lemma ClockOfIsJoin(p: Parts)
    ensures ClockOf(p) == Join(ClockFields(p), ':')
  {
    if p.hours > 0 {
      Join3(Dec(p.hours), Pad2(p.minutes), Pad2(p.seconds), ':');
    } else {
      Join2(Dec(p.minutes), Pad2(p.seconds), ':');
    }
  }

  /** Splitting the clock text of a decomposition gives its fields. */
  lemma SplitClockOf(p: Parts)
    ensures Split(ClockOf(p), ':') == ClockFields(p)
  {
    ClockFieldsFree(p);
    ClockOfIsJoin(p);
    SplitJoin(ClockFields(p), ':');
  }

  lemma DecomposeBelowHour(seconds: nat)
    requires seconds < 3600
    ensures Decompose(seconds).minutes == seconds / 60
  {
    assert seconds % 3600 == seconds;
  }

  lemma ClockFieldsShape(p: Parts)
    requires p.minutes < 60 && p.seconds < 60
    ensures var f := ClockFields(p);
      && |f| == (if p.hours > 0 then 3 else 2)
      && |f[|f| - 1]| == 2
      && (p.hours > 0 ==> |f[1]| == 2)
      && (p.hours == 0 ==> f[0] == Dec(p.minutes))
  {
    if p.hours > 0 {
      var f := [Dec(p.hours), Pad2(p.minutes), Pad2(p.seconds)];
      assert ClockFields(p) == f;
      assert |f[1]| == 2 && |f[2]| == 2;
    } else {
      var f := [Dec(p.minutes), Pad2(p.seconds)];
      assert ClockFields(p) == f;
      assert |f[1]| == 2;
    }
  }

  /** The clock text has three colon-separated fields exactly when the
      duration reaches an hour, two otherwise; the last field is always two
      characters, the middle one is two characters in the hour form, and
      without hours the minutes are not padded. */
  lemma ClockShape(seconds: nat)
    ensures var f := Split(Clock(seconds), ':');
      && |f| == (if seconds >= 3600 then 3 else 2)
      && TwoDigits(f[|f| - 1])
      && (seconds >= 3600 ==> TwoDigits(f[1]))
      && (seconds < 3600 ==> f[0] == Dec(seconds / 60))
  {
    var p := Decompose(seconds);
    assert Clock(seconds) == ClockOf(p);
    SplitClockOf(p);
    var f := Split(Clock(seconds), ':');
    assert f == ClockFields(p);
    ClockFieldsShape(p);
    if seconds < 3600 {
      DecomposeBelowHour(seconds);
      assert p.hours == 0 && f[0] == Dec(p.minutes);
    } else {
      assert p.hours > 0;
    }
  }

  lemma ClockFieldsRoundTrip(p: Parts)
    requires p.minutes < 60 && p.seconds < 60
    ensures ClockFromFields(ClockFields(p)) == Some(p)
  {
    Pad2RoundTrip(p.seconds);
    if p.hours > 0 {
      Pad2RoundTrip(p.minutes);
      ValueOfDec(p.hours);
      var f := [Dec(p.hours), Pad2(p.minutes), Pad2(p.seconds)];
      assert ClockFields(p) == f;
      assert f[0] != "0";
      assert |f| == 3 && Canonical(f[0]) && TwoDigits(f[1]) && TwoDigits(f[2]);
      assert Value(f[0]) == p.hours && Value(f[1]) == p.minutes && Value(f[2]) == p.seconds;
    } else {
      ValueOfDec(p.minutes);
      var f := [Dec(p.minutes), Pad2(p.seconds)];
      assert ClockFields(p) == f;
      assert |f| == 2 && Canonical(f[0]) && TwoDigits(f[1]);
      assert Value(f[0]) == p.minutes && Value(f[1]) == p.seconds;
    }
  }

  /** Reading a clock text back recovers the decomposition of the duration
      it was made from. */
  lemma ClockRoundTrip(seconds: nat)
    ensures ParseClock(Clock(seconds)) == Some(Decompose(seconds))
  {
    var p := Decompose(seconds);
    SplitClockOf(p);
    ClockFieldsRoundTrip(p);
  }

  lemma ClockFieldsSound2(a: string, b: string)
    requires ClockFromFields([a, b]).Some?
    ensures ClockFields(ClockFromFields([a, b]).value) == [a, b]
  {
    var f := [a, b];
    assert f[0] == a && f[1] == b;
    assert Canonical(a) && TwoDigits(b) && Value(a) < 60 && Value(b) < 60;
    var p := Parts(0, Value(a), Value(b));
    assert ClockFromFields([a, b]) == Some(p);
    DecOfValue(a);
    Pad2OfValue(b);
    assert ClockFields(p) == [Dec(Value(a)), Pad2(Value(b))];
  }

  lemma ClockFieldsSound3(a: string, b: string, c: string)
    requires ClockFromFields([a, b, c]).Some?
    ensures ClockFields(ClockFromFields([a, b, c]).value) == [a, b, c]
  {
    DecOfValue(a);
    assert a[0] != '0';
    ValuePositive(a);
    Pad2OfValue(b);
    Pad2OfValue(c);
  }

  lemma ClockFieldsSound(f: seq<string>)
    requires ClockFromFields(f).Some?
    ensures ClockFields(ClockFromFields(f).value) == f
  {
    if |f| == 2 {
      assert f == [f[0], f[1]];
      ClockFieldsSound2(f[0], f[1]);
    } else {
      assert f == [f[0], f[1], f[2]];
      ClockFieldsSound3(f[0], f[1], f[2]);
    }
  }

  /** Every text the reader accepts is the clock form of the duration it
      denotes: the reader accepts nothing the formatter cannot produce. */
  lemma ClockParseSound(text: string)
    requires ParseClock(text).Some?
    ensures Clock(TotalSeconds(ParseClock(text).value)) == text
  {
    var f := Split(text, ':');
    var p := ClockFromFields(f).value;
    JoinSplit(text, ':');
    DecomposeUnique(p);
    ClockFieldsSound(f);
    ClockOfIsJoin(p);
  }

  /** Different durations never share a clock text. */
  lemma ClockInjective(a: nat, b: nat)
    requires Clock(a) == Clock(b)
    ensures a == b
  {
    ClockRoundTrip(a);
    ClockRoundTrip(b);
  }

  function HourWord(): string { "ชั่วโมง" }
  function MinuteWord(): string { "นาที" }
  function SecondWord(): string { "วินาที" }

  /** The worded form of the exported document's `formatDuration`:
      `h ชั่วโมง m นาที s วินาที` when there is an hour, otherwise
      `m นาที s วินาที`, with no padding anywhere. */
  function Worded(seconds: nat): string {
    WordedOf(Decompose(seconds))
  }

  function WordedOf(p: Parts): string {
    if p.hours > 0 then
      Dec(p.hours) + " " + HourWord() + " " + Dec(p.minutes) + " " + MinuteWord() + " "
      + Dec(p.seconds) + " " + SecondWord()
    else
      Dec(p.minutes) + " " + MinuteWord() + " " + Dec(p.seconds) + " " + SecondWord()
  }

  function WordedFields(p: Parts): seq<string> {
    if p.hours > 0 then
      [Dec(p.hours), HourWord(), Dec(p.minutes), MinuteWord(), Dec(p.seconds), SecondWord()]
    else
      [Dec(p.minutes), MinuteWord(), Dec(p.seconds), SecondWord()]
  }

  /** Reads a worded duration: six space-separated tokens with a non-zero
      hour count, or four without; counts canonical, minutes and seconds
      below 60, unit words exactly as written. */
  function ParseWorded(text: string): Option<Parts> {
    WordedFromFields(Split(text, ' '))
  }

  function WordedFromFields(t: seq<string>): Option<Parts> {
    if |t| == 4 && t[1] == MinuteWord() && t[3] == SecondWord()
      && Canonical(t[0]) && Canonical(t[2]) && Value(t[0]) < 60 && Value(t[2]) < 60
    then
      Some(Parts(0, Value(t[0]), Value(t[2])))
    else if |t| == 6 && t[1] == HourWord() && t[3] == MinuteWord() && t[5] == SecondWord()
      && Canonical(t[0]) && t[0] != "0" && Canonical(t[2]) && Canonical(t[4])
      && Value(t[2]) < 60 && Value(t[4]) < 60
    then
      Some(Parts(Value(t[0]), Value(t[2]), Value(t[4])))
    else
      None
  }

  /** None of the worded tokens holds a space. */
  lemma WordedFieldsFree(p: Parts)
    ensures FreeOf(WordedFields(p), ' ')
  {
    DigitsFreeOf(Dec(p.hours), ' ');
    DigitsFreeOf(Dec(p.minutes), ' ');
    DigitsFreeOf(Dec(p.seconds), ' ');
    assert Lacks(HourWord(), ' ') && Lacks(MinuteWord(), ' ') && Lacks(SecondWord(), ' ');
    var fs := WordedFields(p);
    if p.hours > 0 {
      assert fs == [Dec(p.hours), HourWord(), Dec(p.minutes), MinuteWord(), Dec(p.seconds), SecondWord()];
    } else {
      assert fs == [Dec(p.minutes), MinuteWord(), Dec(p.seconds), SecondWord()];
    }
  }

  /** The worded text of a decomposition is the space-join of its tokens. */
  lemma WordedOfIsJoin(p: Parts)
    ensures WordedOf(p) == Join(WordedFields(p), ' ')
  {
    if p.hours > 0 {
      Join6(Dec(p.hours), HourWord(), Dec(p.minutes), MinuteWord(), Dec(p.seconds), SecondWord(), ' ');
    } else {
      Join4(Dec(p.minutes), MinuteWord(), Dec(p.seconds), SecondWord(), ' ');
    }
  }

  /** Splitting the worded text of a decomposition gives its tokens. */
  lemma SplitWordedOf(p: Parts)
    ensures Split(WordedOf(p), ' ') == WordedFields(p)
  {
    WordedFieldsFree(p);
    WordedOfIsJoin(p);
    SplitJoin(WordedFields(p), ' ');
  }

  /** No rendered number is the hour word. */
  lemma NumberIsNotHourWord(n: nat)
    ensures Dec(n) != HourWord()
  {
    assert !IsDigit(HourWord()[0]);
  }

  lemma WordedFieldsShape(p: Parts)
    ensures var t := WordedFields(p);
      && |t| == (if p.hours > 0 then 6 else 4)
      && (p.hours > 0 ==> t[1] == HourWord())
      && (p.hours == 0 ==> forall k :: 0 <= k < |t| ==> t[k] != HourWord())
      && t[|t| - 1] == SecondWord()
  {
    if p.hours > 0 {
      var t := [Dec(p.hours), HourWord(), Dec(p.minutes), MinuteWord(), Dec(p.seconds), SecondWord()];
      assert WordedFields(p) == t;
      assert t[1] == HourWord() && t[5] == SecondWord();
    } else {
      var t := [Dec(p.minutes), MinuteWord(), Dec(p.seconds), SecondWord()];
      assert WordedFields(p) == t;
      NumberIsNotHourWord(p.minutes);
      NumberIsNotHourWord(p.seconds);
      assert |MinuteWord()| != |HourWord()| && |SecondWord()| != |HourWord()|;
      assert t[0] != HourWord() && t[1] != HourWord() && t[2] != HourWord() && t[3] != HourWord();
    }
  }

  /** The hour word is one of the tokens exactly when the duration reaches
      an hour, and then it follows the hour count; the last token is always
      the seconds word. */
  lemma WordedShape(seconds: nat)
    ensures var t := Split(Worded(seconds), ' ');
      && |t| == (if seconds >= 3600 then 6 else 4)
      && (seconds >= 3600 ==> t[0] == Dec(seconds / 3600) && t[1] == HourWord())
      && (seconds < 3600 ==> forall k :: 0 <= k < |t| ==> t[k] != HourWord())
      && t[|t| - 1] == SecondWord()
  {
    var p := Decompose(seconds);
    assert Worded(seconds) == WordedOf(p);
    SplitWordedOf(p);
    var t := Split(Worded(seconds), ' ');
    assert t == WordedFields(p);
    WordedFieldsShape(p);
    assert p.hours > 0 <==> seconds >= 3600;
  }

  lemma WordedFieldsRoundTrip(p: Parts)
    requires p.minutes < 60 && p.seconds < 60
    ensures WordedFromFields(WordedFields(p)) == Some(p)
  {
    ValueOfDec(p.minutes);
    ValueOfDec(p.seconds);
    if p.hours > 0 {
      ValueOfDec(p.hours);
      var t := [Dec(p.hours), HourWord(), Dec(p.minutes), MinuteWord(), Dec(p.seconds), SecondWord()];
      assert WordedFields(p) == t;
      assert t[0] != "0";
      assert |t| == 6 && t[1] == HourWord() && t[3] == MinuteWord() && t[5] == SecondWord();
      assert |t| != 4;
    } else {
      var t := [Dec(p.minutes), MinuteWord(), Dec(p.seconds), SecondWord()];
      assert WordedFields(p) == t;
      assert |t| == 4 && t[1] == MinuteWord() && t[3] == SecondWord();
    }
  }

  /** Reading a worded duration back recovers the decomposition. */
  lemma WordedRoundTrip(seconds: nat)
    ensures ParseWorded(Worded(seconds)) == Some(Decompose(seconds))
  {
    var p := Decompose(seconds);
    assert Worded(seconds) == WordedOf(p);
    SplitWordedOf(p);
    WordedFieldsRoundTrip(p);
  }

  lemma WordedFieldsSound4(a: string, b: string, c: string, d: string)
    requires WordedFromFields([a, b, c, d]).Some?
    ensures WordedFields(WordedFromFields([a, b, c, d]).value) == [a, b, c, d]
  {
    var t := [a, b, c, d];
    assert t[0] == a && t[1] == b && t[2] == c && t[3] == d;
    assert Canonical(a) && Canonical(c) && b == MinuteWord() && d == SecondWord();
    var p := Parts(0, Value(a), Value(c));
    assert WordedFromFields(t) == Some(p);
    DecOfValue(a);
    DecOfValue(c);
    assert WordedFields(p) == [Dec(Value(a)), MinuteWord(), Dec(Value(c)), SecondWord()];
  }

  lemma WordedFieldsSound6(a: string, b: string, c: string, d: string, e: string, f: string)
    requires WordedFromFields([a, b, c, d, e, f]).Some?
    ensures WordedFields(WordedFromFields([a, b, c, d, e, f]).value) == [a, b, c, d, e, f]
  {
    var t := [a, b, c, d, e, f];
    assert t[0] == a && t[1] == b && t[2] == c && t[3] == d && t[4] == e && t[5] == f;
    assert |t| != 4;
    assert Canonical(a) && a != "0" && Canonical(c) && Canonical(e);
    assert b == HourWord() && d == MinuteWord() && f == SecondWord();
    var p := Parts(Value(a), Value(c), Value(e));
    assert WordedFromFields(t) == Some(p);
    DecOfValue(a);
    DecOfValue(c);
    DecOfValue(e);
    assert a[0] != '0';
    ValuePositive(a);
    assert WordedFields(p) == [Dec(Value(a)), HourWord(), Dec(Value(c)), MinuteWord(), Dec(Value(e)), SecondWord()];
  }

  lemma WordedFieldsSound(t: seq<string>)
    requires WordedFromFields(t).Some?
    ensures WordedFields(WordedFromFields(t).value) == t
  {
    if |t| == 4 {
      assert t == [t[0], t[1], t[2], t[3]];
      WordedFieldsSound4(t[0], t[1], t[2], t[3]);
    } else {
      assert t == [t[0], t[1], t[2], t[3], t[4], t[5]];
      WordedFieldsSound6(t[0], t[1], t[2], t[3], t[4], t[5]);
    }
  }

  /** Every text the worded reader accepts is the worded form of the
      duration it denotes. */
  lemma WordedParseSound(text: string)
    requires ParseWorded(text).Some?
    ensures Worded(TotalSeconds(ParseWorded(text).value)) == text
  {
    var t := Split(text, ' ');
    var p := WordedFromFields(t).value;
    JoinSplit(text, ' ');
    DecomposeUnique(p);
    WordedFieldsSound(t);
    WordedOfIsJoin(p);
  }

  /** Different durations never share a worded text. */
  lemma WordedInjective(a: nat, b: nat)
    requires Worded(a) == Worded(b)
    ensures a == b
  {
    WordedRoundTrip(a);
    WordedRoundTrip(b);
  }
}
