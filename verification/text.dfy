/**
 String helpers the components lean on, each written after the JavaScript
 built-in it stands for: `Number.prototype.toString` on a non-negative
 integer (`Dec`), `parseInt(s, 10)` on a run of digits (`Value`),
 `String.prototype.padStart`, `trim`, `toLowerCase`/`toUpperCase` on ASCII
 letters and the first-occurrence `replace`. `Split` and `Join` are not
 called by the components: they are the reading helpers behind the duration
 round trips.
 */
module Text {

  predicate IsDigit(c: char) {
    '0' <= c <= '9'
  }

  predicate AllDigits(s: string) {
    forall i :: 0 <= i < |s| ==> IsDigit(s[i])
  }

  /** A non-empty run of digits without a superfluous leading zero: exactly
      the texts `toString` produces for non-negative integers. */
  predicate Canonical(s: string) {
    && |s| > 0
    && AllDigits(s)
    && (s[0] == '0' ==> |s| == 1)
  }

  function DigitChar(d: nat): (c: char)
    requires d < 10
    ensures IsDigit(c)
  {
    (('0' as int) + d) as char
  }

  function DigitValue(c: char): (d: nat)
    requires IsDigit(c)
    ensures d < 10
    ensures DigitChar(d) == c
  {
    (c as int) - ('0' as int)
  }

  /** Decimal rendering of `n`, most significant digit first. */
  function Dec(n: nat): (r: string)
    ensures Canonical(r)
    ensures r[0] == '0' <==> n == 0
    ensures |r| == 1 <==> n < 10
    decreases n
  {
    if n < 10 then [DigitChar(n)] else Dec(n / 10) + [DigitChar(n % 10)]
  }

  /** The number a run of digits denotes (the empty run denotes 0). */
  function Value(s: string): nat
    requires AllDigits(s)
  {
    if |s| == 0 then 0 else Value(s[..|s| - 1]) * 10 + DigitValue(s[|s| - 1])
  }

  /** Reading back a rendered number gives the number. */
  lemma {:induction false} ValueOfDec(n: nat)
    ensures Value(Dec(n)) == n
    decreases n
  {
    if n >= 10 {
      var d := Dec(n / 10);
      assert Dec(n) == d + [DigitChar(n % 10)];
      assert Dec(n)[..|Dec(n)| - 1] == d;
      ValueOfDec(n / 10);
    }
  }

  lemma {:induction false} ValuePositive(s: string)
    requires |s| > 0 && AllDigits(s) && s[0] != '0'
    ensures Value(s) > 0
    decreases |s|
  {
    if |s| > 1 {
      ValuePositive(s[..|s| - 1]);
    }
  }

  /** Rendering the number a canonical text denotes gives that text back. */
  lemma {:induction false} DecOfValue(s: string)
    requires Canonical(s)
    ensures Dec(Value(s)) == s
    decreases |s|
  {
    if |s| > 1 {
      var p := s[..|s| - 1];
      assert p[0] == s[0];
      ValuePositive(p);
      DecOfValue(p);
      var v := Value(s);
      assert v == Value(p) * 10 + DigitValue(s[|s| - 1]);
      assert v / 10 == Value(p) && v % 10 == DigitValue(s[|s| - 1]);
      assert s == p + [s[|s| - 1]];
    }
  }

  /** `s.padStart(width, fill)` for a one-character fill. */
  function PadStart(s: string, width: nat, fill: char): (r: string)
    ensures |r| == if |s| >= width then |s| else width
    ensures forall i :: 0 <= i < |s| ==> r[|r| - |s| + i] == s[i]
    ensures forall i :: 0 <= i < |r| - |s| ==> r[i] == fill
  {
    if |s| >= width then s else Repeat(fill, width - |s|) + s
  }

  function Repeat(c: char, k: nat): (r: string)
    ensures |r| == k
    ensures forall i :: 0 <= i < k ==> r[i] == c
  {
    if k == 0 then [] else [c] + Repeat(c, k - 1)
  }

  /** `n.toString().padStart(2, '0')`: digits only, exactly two of them
      below 100. */
  function Pad2(n: nat): (r: string)
    ensures AllDigits(r)
    ensures n < 100 ==> |r| == 2
  {
    var d := Dec(n);
    var r := PadStart(d, 2, '0');
    assert n >= 10 ==> n / 10 < 10 ==> |d| == 2;
    r
  }

  predicate TwoDigits(s: string) {
    |s| == 2 && AllDigits(s)
  }

  /** Below 100 the padded rendering reads back as the number. */
  lemma Pad2RoundTrip(n: nat)
    requires n < 100
    ensures Value(Pad2(n)) == n
  {
    ValueOfDec(n);
    if n < 10 {
      assert Pad2(n) == ['0', DigitChar(n)];
      assert Pad2(n)[..1] == ['0'];
    } else {
      assert n / 10 < 10;
    }
  }

  lemma {:induction false} Pad2OfValue(s: string)
    requires TwoDigits(s)
    ensures Value(s) < 100
    ensures Pad2(Value(s)) == s
  {
    assert s[..1] == [s[0]] && s[..1][..0] == [];
    assert Value(s[..1]) == DigitValue(s[0]);
    assert Value(s) == DigitValue(s[0]) * 10 + DigitValue(s[1]);
    if s[0] == '0' {
      var t := s[1..];
      assert Canonical(t);
      assert Value(t) == DigitValue(s[1]);
      DecOfValue(t);
      assert Dec(Value(s)) == t;
      assert s == ['0'] + t;
    } else {
      DecOfValue(s);
    }
  }

  /** The characters `String.prototype.trim` removes: ECMAScript's
      WhiteSpace and LineTerminator productions. */
  predicate IsJsWhitespace(c: char) {
    || c == '\t' || c == '\n' || c == '\U{000B}' || c == '\U{000C}' || c == '\r'
    || c == ' ' || c == '\U{00A0}' || c == '\U{1680}'
    || ('\U{2000}' <= c <= '\U{200A}')
    || c == '\U{2028}' || c == '\U{2029}' || c == '\U{202F}' || c == '\U{205F}'
    || c == '\U{3000}' || c == '\U{FEFF}'
  }

  predicate AllWhitespace(s: string) {
    forall i :: 0 <= i < |s| ==> IsJsWhitespace(s[i])
  }

  function TrimStart(s: string): (r: string)
    ensures |r| <= |s| && r == s[|s| - |r|..]
    ensures AllWhitespace(s[..|s| - |r|])
    ensures |r| > 0 ==> !IsJsWhitespace(r[0])
  {
    if |s| > 0 && IsJsWhitespace(s[0]) then TrimStart(s[1..]) else s
  }

  function TrimEnd(s: string): (r: string)
    ensures |r| <= |s| && r == s[..|r|]
    ensures AllWhitespace(s[|r|..])
    ensures |r| > 0 ==> !IsJsWhitespace(r[|r| - 1])
  {
    if |s| > 0 && IsJsWhitespace(s[|s| - 1]) then TrimEnd(s[..|s| - 1]) else s
  }

  /** `s.trim()`: the text without leading and trailing whitespace. The
      result is empty exactly when every character is whitespace. */
  function Trim(s: string): (r: string)
    ensures |r| == 0 <==> AllWhitespace(s)
    ensures |r| > 0 ==> !IsJsWhitespace(r[0]) && !IsJsWhitespace(r[|r| - 1])
  {
    var t := TrimStart(s);
    var r := TrimEnd(t);
    assert |r| == 0 ==> s == s[..|s| - |t|] + t[|r|..];
    assert |r| > 0 ==> !IsJsWhitespace(s[|s| - |t|]);
    r
  }

  /** JavaScript's `!s.trim()`. */
  predicate IsBlank(s: string) {
    Trim(s) == ""
  }

  function LowerChar(c: char): char {
    if 'A' <= c <= 'Z' then ((c as int) + 32) as char else c
  }

  function UpperChar(c: char): char {
    if 'a' <= c <= 'z' then ((c as int) - 32) as char else c
  }

  /** `toLowerCase` restricted to the ASCII letters. */
  function ToLower(s: string): (r: string)
    ensures |r| == |s|
    ensures forall i :: 0 <= i < |s| ==> r[i] == LowerChar(s[i])
  {
    seq(|s|, i requires 0 <= i < |s| => LowerChar(s[i]))
  }

  /** `toUpperCase` restricted to the ASCII letters. */
  function ToUpper(s: string): (r: string)
    ensures |r| == |s|
    ensures forall i :: 0 <= i < |s| ==> r[i] == UpperChar(s[i])
  {
    seq(|s|, i requires 0 <= i < |s| => UpperChar(s[i]))
  }

  /** Position of the first `c` in `s`, or `|s|` when there is none. */
  function IndexOf(s: string, c: char): (i: nat)
    ensures i <= |s|
    ensures i < |s| ==> s[i] == c
    ensures forall j :: 0 <= j < i ==> s[j] != c
  {
    if |s| == 0 then 0
    else if s[0] == c then 0
    else 1 + IndexOf(s[1..], c)
  }

  /** `s.replace(c, '')` for a one-character search string: only the first
      occurrence is removed. */
  function RemoveFirst(s: string, c: char): string {
    var i := IndexOf(s, c);
    if i == |s| then s else s[..i] + s[i + 1..]
  }

  /** A text without `c` is left as it is. */
  lemma RemoveFirstAbsent(s: string, c: char)
    requires Lacks(s, c)
    ensures RemoveFirst(s, c) == s
  {
    assert IndexOf(s, c) == |s|;
  }

  /** In `u + [c] + v` with no `c` in `u`, exactly that `c` is removed,
      whatever `v` holds. */
  lemma RemoveFirstAt(u: string, v: string, c: char)
    requires Lacks(u, c)
    ensures RemoveFirst(u + [c] + v, c) == u + v
  {
    var s := u + [c] + v;
    var i := IndexOf(s, c);
    assert s[|u|] == c;
    assert i == |u|;
    assert s[..i] == u;
    assert s[i + 1..] == v;
  }

  predicate LowerWord(w: string) {
    forall i :: 0 <= i < |w| ==> 'a' <= w[i] <= 'z'
  }

  /** `s` spells the lower-case word `w` with each letter in either case. */
  predicate SpellsIgnoringCase(s: string, w: string) {
    && |s| == |w|
    && forall i :: 0 <= i < |s| ==> s[i] == w[i] || s[i] == UpperChar(w[i])
  }

  lemma LowerCharMatches(c: char, d: char)
    requires 'a' <= d <= 'z'
    ensures LowerChar(c) == d <==> c == d || c == UpperChar(d)
  {
  }

  /** Lower-casing gives a lower-case word exactly for the spellings of
      that word in any mix of cases. */
  lemma ToLowerMatches(s: string, w: string)
    requires LowerWord(w)
    ensures ToLower(s) == w <==> SpellsIgnoringCase(s, w)
  {
    if ToLower(s) == w {
      forall i | 0 <= i < |s|
        ensures s[i] == w[i] || s[i] == UpperChar(w[i])
      {
        LowerCharMatches(s[i], w[i]);
      }
    }
    if SpellsIgnoringCase(s, w) {
      forall i | 0 <= i < |s|
        ensures ToLower(s)[i] == w[i]
      {
        LowerCharMatches(s[i], w[i]);
      }
    }
  }

  /** The fields of `s` between occurrences of `sep`; a reading helper for
      the duration round trips, not a built-in the components call. */
  function Split(s: string, sep: char): (parts: seq<string>)
    ensures |parts| >= 1
    decreases |s|
  {
    var i := IndexOf(s, sep);
    if i == |s| then [s] else [s[..i]] + Split(s[i + 1..], sep)
  }

  /** The parts with `sep` between them; the inverse of `Split`. */
  function Join(parts: seq<string>, sep: char): string
    requires |parts| >= 1
  {
    if |parts| == 1 then parts[0] else parts[0] + [sep] + Join(parts[1..], sep)
  }

  /** `w` occurs in `s` starting at position i. */
  predicate OccursAt(s: string, w: string, i: nat) {
    i + |w| <= |s| && s[i..i + |w|] == w
  }

  /** `s.includes(w)`. */
  predicate Includes(s: string, w: string) {
    exists i: nat :: i <= |s| && OccursAt(s, w, i)
  }

  /** Nowhere in `s` is `a` directly followed by `b`. */
  predicate NoPair(s: string, a: char, b: char) {
    forall j :: 0 <= j < |s| - 1 ==> s[j] != a || s[j + 1] != b
  }

  /** A word whose first two characters never meet in `s` occurs nowhere
      in `s`. */
  lemma NoPairNoOccurrence(s: string, w: string, i: nat)
    requires |w| >= 2 && NoPair(s, w[0], w[1])
    ensures !OccursAt(s, w, i)
  {
  }

  /** No character of `s` is `c`. */
  predicate Lacks(s: string, c: char) {
    forall i :: 0 <= i < |s| ==> s[i] != c
  }

  predicate FreeOf(parts: seq<string>, sep: char) {
    forall k :: 0 <= k < |parts| ==> Lacks(parts[k], sep)
  }

  /** Splitting a join whose parts do not contain the separator gives the
      parts back. */
  lemma {:induction false} SplitJoin(parts: seq<string>, sep: char)
    requires |parts| >= 1 && FreeOf(parts, sep)
    ensures Split(Join(parts, sep), sep) == parts
    decreases |parts|
  {
    var s := Join(parts, sep);
    if |parts| > 1 {
      var rest := Join(parts[1..], sep);
      assert s == parts[0] + [sep] + rest;
      assert IndexOf(s, sep) == |parts[0]| by {
        assert s[|parts[0]|] == sep;
        assert forall j :: 0 <= j < |parts[0]| ==> s[j] == parts[0][j];
      }
      assert s[..|parts[0]|] == parts[0];
      assert s[|parts[0]| + 1..] == rest;
      SplitJoin(parts[1..], sep);
    } else {
      assert Lacks(parts[0], sep);
    }
  }

  /** One step of `Split`: the text up to the first separator, which holds
      no separator, then the split of the rest. */
  lemma SplitStep(s: string, sep: char)
    requires IndexOf(s, sep) < |s|
    ensures var i := IndexOf(s, sep);
      && Split(s, sep) == [s[..i]] + Split(s[i + 1..], sep)
      && Lacks(s[..i], sep)
      && s == s[..i] + [sep] + s[i + 1..]
  {
    var i := IndexOf(s, sep);
    assert forall j :: 0 <= j < i ==> s[..i][j] == s[j];
    assert s == s[..i] + [s[i]] + s[i + 1..];
  }

  lemma JoinCons(x: string, rest: seq<string>, sep: char)
    requires |rest| >= 1
    ensures Join([x] + rest, sep) == x + [sep] + Join(rest, sep)
  {
    assert ([x] + rest)[0] == x;
    assert ([x] + rest)[1..] == rest;
  }

  lemma FreeOfCons(x: string, rest: seq<string>, sep: char)
    requires Lacks(x, sep) && FreeOf(rest, sep)
    ensures FreeOf([x] + rest, sep)
  {
    assert forall k :: 1 <= k < |rest| + 1 ==> ([x] + rest)[k] == rest[k - 1];
  }

  /** Joining the parts of a split gives the text back, and the parts never
      contain the separator. */
  lemma {:induction false} JoinSplit(s: string, sep: char)
    ensures FreeOf(Split(s, sep), sep)
    ensures Join(Split(s, sep), sep) == s
    decreases |s|
  {
    var i := IndexOf(s, sep);
    if i < |s| {
      var head, tail := s[..i], s[i + 1..];
      SplitStep(s, sep);
      JoinSplit(tail, sep);
      var rest := Split(tail, sep);
      JoinCons(head, rest, sep);
      FreeOfCons(head, rest, sep);
    } else {
      assert Split(s, sep) == [s];
      assert Lacks(s, sep);
    }
  }

  /** Rendered numbers contain no non-digit separator. */
  lemma DigitsFreeOf(s: string, c: char)
    requires AllDigits(s) && !IsDigit(c)
    ensures Lacks(s, c)
  {
  }
}
