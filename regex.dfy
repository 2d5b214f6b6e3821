/** The searches the extractor performs with `re.search`. Each pattern is
    matched at one position by a predicate (`DateAt`, `ClockAt`,
    `AmountFoundAt`); `Search` tries the positions from left to right and
    stops at the first that matches, as `re.search` does. */
module Regex {
  import opened Text

  /** `DDDD-DD-DD` */
  predicate IsDateText(w: string) {
    && |w| == 10
    && IsDigit(w[0]) && IsDigit(w[1]) && IsDigit(w[2]) && IsDigit(w[3])
    && w[4] == '-' && IsDigit(w[5]) && IsDigit(w[6])
    && w[7] == '-' && IsDigit(w[8]) && IsDigit(w[9])
  }

  /** `DD:DD` */
  predicate IsClockText(w: string) {
    && |w| == 5
    && IsDigit(w[0]) && IsDigit(w[1]) && w[2] == ':' && IsDigit(w[3]) && IsDigit(w[4])
  }

  /** A match of the amount pattern: group 1 is `whole + "." + frac` and
      starts at position `at`. */
  datatype AmountMatch = AmountMatch(at: nat, whole: string, frac: string) {
    /** Position of the dot. */
    function Dot(): nat { at + |whole| }
    /** Position just past the match. */
    function End(): nat { at + |whole| + 1 + |frac| }
  }

  /** The amount pattern tried at position `i`. Greedy matching is exact
      here: the whitespace run cannot give characters back to `[\d,]+`, and
      `[\d,]+` cannot give any back to `\.`, because the classes are disjoint. */
  function AmountAt(s: string, i: nat): Option<AmountMatch> {
    if i < |s| && s[i] == '$' then
      var a := Span(s, i + 1, Space);
      var b := Span(s, a, DigitOrComma);
      if a < b < |s| && s[b] == '.' then
        var c := Span(s, b + 1, Digit);
        if b + 1 < c then Some(AmountMatch(a, s[a..b], s[b + 1..c]))
        else None
      else None
    else None
  }

  /** A match of the amount pattern at `i` whose group 1 starts at `a`,
      has its dot at `b` and ends at `c`: a `$`, whitespace, a non-empty run
      of digits and commas, a dot and a maximal non-empty run of digits. */
  predicate AmountShape(s: string, i: nat, a: nat, b: nat, c: nat) {
    && i < a < b && b + 1 < c <= |s|
    && s[i] == '$' && s[b] == '.'
    && AllIn(s, i + 1, a, Space) && AllIn(s, a, b, DigitOrComma) && AllIn(s, b + 1, c, Digit)
    && (c == |s| || !IsDigit(s[c]))
  }

  /** Every match has that shape. */
  lemma AmountAtShape(s: string, i: nat, m: AmountMatch)
    requires AmountAt(s, i) == Some(m)
    ensures AmountShape(s, i, m.at, m.Dot(), m.End())
    ensures m.whole == s[m.at..m.Dot()] && m.frac == s[m.Dot() + 1..m.End()]
  {
  }

  /** And every shape is the match: the pattern finds exactly it. */
  lemma AmountAtIntro(s: string, i: nat, a: nat, b: nat, c: nat)
    requires AmountShape(s, i, a, b, c)
    ensures AmountAt(s, i) == Some(AmountMatch(a, s[a..b], s[b + 1..c]))
  {
    ShapeSpans(s, i, a, b, c);
  }

  /** The three runs of a shape are the ones the greedy pattern takes. */
  lemma ShapeSpans(s: string, i: nat, a: nat, b: nat, c: nat)
    requires AmountShape(s, i, a, b, c)
    ensures Span(s, i + 1, Space) == a
    ensures Span(s, a, DigitOrComma) == b
    ensures Span(s, b + 1, Digit) == c
  {
    SpanIs(s, i + 1, Space, a);
    SpanIs(s, a, DigitOrComma, b);
    SpanIs(s, b + 1, Digit, c);
  }

  /** A date matches at `i`. */
  predicate DateAt(s: string, i: nat) {
    i + 10 <= |s| && IsDateText(s[i..i + 10])
  }

  /** A time matches at `i`. */
  predicate ClockAt(s: string, i: nat) {
    i + 5 <= |s| && IsClockText(s[i..i + 5])
  }

  /** The amount pattern matches at `i`. */
  predicate AmountFoundAt(s: string, i: nat) {
    AmountAt(s, i).Some?
  }

  /** `r` is the leftmost position of `s` at which `p` holds, or None when
      it holds nowhere. Positions range over 0..|s|. */
  predicate IsLeftmost(p: (string, nat) -> bool, s: string, r: Option<nat>) {
    match r
    case Some(i) => i <= |s| && p(s, i) && forall j: nat :: j < i ==> !p(s, j)
    case None => forall j: nat :: j <= |s| ==> !p(s, j)
  }

  function FindFirst(p: (string, nat) -> bool, s: string, from: nat): Option<nat>
    requires from <= |s|
    decreases |s| - from
  {
    if p(s, from) then Some(from)
    else if from == |s| then None
    else FindFirst(p, s, from + 1)
  }

  /** The scan from `from` finds the first position at or after `from`
      where `p` holds, or None when there is none. */
  lemma {:induction false} FindFirstSpec(p: (string, nat) -> bool, s: string, from: nat)
    requires from <= |s|
    ensures var r := FindFirst(p, s, from);
      && (r.Some? ==> from <= r.value <= |s| && p(s, r.value))
      && (r.Some? ==> forall j: nat :: from <= j < r.value ==> !p(s, j))
      && (r.None? ==> forall j: nat :: from <= j <= |s| ==> !p(s, j))
    decreases |s| - from
  {
    if !p(s, from) && from < |s| {
      FindFirstSpec(p, s, from + 1);
    }
  }

  /** `re.search`: the scan from position 0. */
  function Search(p: (string, nat) -> bool, s: string): Option<nat> {
    FindFirst(p, s, 0)
  }

  /** `re.search` finds the leftmost match. */
  lemma SearchSpec(p: (string, nat) -> bool, s: string)
    ensures IsLeftmost(p, s, Search(p, s))
  {
    FindFirstSpec(p, s, 0);
  }

  /** There is only one leftmost answer. */
  lemma LeftmostUnique(p: (string, nat) -> bool, s: string, r1: Option<nat>, r2: Option<nat>)
    requires IsLeftmost(p, s, r1) && IsLeftmost(p, s, r2)
    ensures r1 == r2
  {
  }
}
