/** Character classes, substrings and runs of characters: the building
    blocks the regular-expression searches of the extractor are written with. */
module Text {

  datatype Option<+T> = None | Some(value: T)

  /** `[0-9]`, and `\d` restricted to ASCII digits. */
  predicate IsDigit(c: char) {
    '0' <= c <= '9'
  }

  /** `[\d,]`: a digit or a thousands separator. */
  predicate IsDigitOrComma(c: char) {
    IsDigit(c) || c == ','
  }

  /** `\s` of a Unicode `str` pattern: exactly the characters for which
      `str.isspace()` holds. */
  predicate IsSpace(c: char) {
    || c == ' ' || '\t' <= c <= '\r' || '\U{1C}' <= c <= '\U{1F}'
    || c == '\U{85}' || c == '\U{A0}' || c == '\U{1680}'
    || '\U{2000}' <= c <= '\U{200A}' || c == '\U{2028}' || c == '\U{2029}'
    || c == '\U{202F}' || c == '\U{205F}' || c == '\U{3000}'
  }

  predicate AllDigits(s: string) {
    forall k :: 0 <= k < |s| ==> IsDigit(s[k])
  }

  /** `w` occurs in `s` starting at position `i`. */
  predicate OccursAt(s: string, i: nat, w: string) {
    i + |w| <= |s| && s[i..i + |w|] == w
  }

  /** Python's `w in s`. */
  predicate Contains(s: string, w: string) {
    exists i: nat :: i <= |s| && OccursAt(s, i, w)
  }

  /** The character classes the patterns repeat. */
  datatype Class = Space | Digit | DigitOrComma

  predicate InClass(c: char, k: Class) {
    match k
    case Space => IsSpace(c)
    case Digit => IsDigit(c)
    case DigitOrComma => IsDigitOrComma(c)
  }

  /** Every character of `s[i..e]` is in class `k`. Written as a recursion
      rather than a quantifier so that a run is one fact, not one per
      character. */
  predicate AllIn(s: string, i: nat, e: nat, k: Class)
    requires i <= e <= |s|
    decreases e - i
  {
    i == e || (InClass(s[i], k) && AllIn(s, i + 1, e, k))
  }

  /** A run holds each of its characters... */
  lemma {:induction false} AllInAt(s: string, i: nat, e: nat, k: Class, j: nat)
    requires i <= e <= |s| && AllIn(s, i, e, k) && i <= j < e
    ensures InClass(s[j], k)
    decreases e - i
  {
    if i < j {
      AllInAt(s, i + 1, e, k, j);
    }
  }

  /** ...and is made of them. */
  lemma {:induction false} AllInIntro(s: string, i: nat, e: nat, k: Class)
    requires i <= e <= |s|
    requires forall j :: i <= j < e ==> InClass(s[j], k)
    ensures AllIn(s, i, e, k)
    decreases e - i
  {
    if i < e {
      AllInIntro(s, i + 1, e, k);
    }
  }

  /** Every character of the run is in the class. */
  lemma AllInEach(s: string, i: nat, e: nat, k: Class)
    requires i <= e <= |s| && AllIn(s, i, e, k)
    ensures forall j :: i <= j < e ==> InClass(s[j], k)
  {
    forall j | i <= j < e ensures InClass(s[j], k) {
      AllInAt(s, i, e, k, j);
    }
  }

  /** A character outside the class at or after the start of a run lies at
      or after its end. */
  lemma {:induction false} AllInStops(s: string, i: nat, e: nat, k: Class, p: nat)
    requires i <= e <= |s| && AllIn(s, i, e, k)
    requires i <= p < |s| && !InClass(s[p], k)
    ensures e <= p
    decreases e - i
  {
    if i < e {
      assert InClass(s[i], k);
      AllInStops(s, i + 1, e, k, p);
    }
  }

  /** A run depends only on the characters it covers. */
  lemma {:induction false} AllInSame(s: string, i: nat, e: nat, t: string, i': nat, e': nat, k: Class)
    requires i <= e <= |s| && i' <= e' <= |t| && s[i..e] == t[i'..e']
    ensures AllIn(s, i, e, k) == AllIn(t, i', e', k)
    decreases e - i
  {
    if i < e {
      assert s[i] == s[i..e][0] == t[i'..e'][0] == t[i'];
      assert s[i + 1..e] == s[i..e][1..] && t[i' + 1..e'] == t[i'..e'][1..];
      AllInSame(s, i + 1, e, t, i' + 1, e', k);
    }
  }

  /** The end of the longest run of characters of class `k` starting at
      `i`: what a greedy `k*` consumes. */
  function Span(s: string, i: nat, k: Class): (e: nat)
    requires i <= |s|
    ensures i <= e <= |s|
    ensures AllIn(s, i, e, k)
    ensures e == |s| || !InClass(s[e], k)
    decreases |s| - i
  {
    if i < |s| && InClass(s[i], k) then Span(s, i + 1, k) else i
  }

  /** A run is determined by its two defining facts: it is all of class
      `k`, and at its end the class stops. */
  lemma {:induction false} SpanIs(s: string, i: nat, k: Class, e: nat)
    requires i <= e <= |s|
    requires AllIn(s, i, e, k)
    requires e == |s| || !InClass(s[e], k)
    ensures Span(s, i, k) == e
    decreases e - i
  {
    if i < e {
      SpanIs(s, i + 1, k, e);
    }
  }

  /** `s` with every comma removed: `s.replace(',', '')`. */
  function RemoveCommas(s: string): (r: string)
    ensures |r| <= |s|
  {
    if s == [] then []
    else if s[0] == ',' then RemoveCommas(s[1..])
    else [s[0]] + RemoveCommas(s[1..])
  }

  /** No comma is left, and the text keeps its length exactly when it had
      no comma. That every other character stays, in order, is
      `RemoveCommasChar` with `RemoveCommasAppend`. */
  lemma {:induction false} RemoveCommasSpec(s: string)
    ensures forall k :: 0 <= k < |RemoveCommas(s)| ==> RemoveCommas(s)[k] != ','
    ensures |RemoveCommas(s)| == |s| <==> forall k :: 0 <= k < |s| ==> s[k] != ','
  {
    if s != [] {
      RemoveCommasSpec(s[1..]);
      if forall k :: 0 <= k < |s| ==> s[k] != ',' {
        assert forall k :: 0 <= k < |s[1..]| ==> s[1..][k] == s[k + 1];
      }
      if |RemoveCommas(s)| == |s| {
        assert s[0] != ',';
        forall k | 0 <= k < |s| ensures s[k] != ',' {
          if k > 0 { assert s[k] == s[1..][k - 1]; }
        }
      }
    }
  }

  /** A single character is dropped when it is a comma and kept otherwise;
      with `RemoveCommasAppend` this fixes the result of every text. */
  lemma RemoveCommasChar(c: char)
    ensures RemoveCommas([c]) == if c == ',' then [] else [c]
  {
    assert [c][1..] == [];
  }

  lemma {:induction false} RemoveCommasAppend(x: string, y: string)
    ensures RemoveCommas(x + y) == RemoveCommas(x) + RemoveCommas(y)
  {
    if x == [] {
      assert x + y == y;
    } else {
      assert (x + y)[1..] == x[1..] + y;
      RemoveCommasAppend(x[1..], y);
    }
  }

  /** Inserting a comma anywhere leaves the comma-free text unchanged. */
  lemma CommaInsertInvisible(x: string, y: string)
    ensures RemoveCommas(x + "," + y) == RemoveCommas(x + y)
  {
    RemoveCommasAppend(x + ",", y);
    RemoveCommasAppend(x, ",");
    RemoveCommasAppend(x, y);
    assert RemoveCommas(",") == RemoveCommas([]) by { assert [','][1..] == []; }
  }

  predicate AllDigitsOrCommas(s: string) {
    forall k :: 0 <= k < |s| ==> IsDigitOrComma(s[k])
  }

  /** A comma between digits and commas keeps them digits and commas. */
  lemma CommaInsertDigits(x: string, y: string)
    requires AllDigitsOrCommas(x + y)
    ensures AllDigitsOrCommas(x + "," + y)
  {
    var w := x + "," + y;
    forall k | 0 <= k < |w| ensures IsDigitOrComma(w[k]) {
      if k < |x| { assert w[k] == (x + y)[k]; }
      else if k > |x| { assert w[k] == (x + y)[k - 1]; }
    }
  }

  lemma CommaRemoveDigits(x: string, y: string)
    requires AllDigitsOrCommas(x + "," + y)
    ensures AllDigitsOrCommas(x + y)
  {
    var w := x + "," + y;
    forall k | 0 <= k < |x + y| ensures IsDigitOrComma((x + y)[k]) {
      if k < |x| { assert (x + y)[k] == w[k]; }
      else { assert (x + y)[k] == w[k + 1]; }
    }
  }

  /** Removing the commas from digits and commas leaves digits only. */
  lemma {:induction false} RemoveCommasLeavesDigits(s: string)
    requires AllDigitsOrCommas(s)
    ensures AllDigits(RemoveCommas(s))
  {
    if s != [] {
      RemoveCommasLeavesDigits(s[1..]);
    }
  }

  /** A digit string keeps all of its characters. */
  lemma {:induction false} RemoveCommasDigits(s: string)
    requires AllDigits(s)
    ensures RemoveCommas(s) == s
  {
    if s != [] {
      RemoveCommasDigits(s[1..]);
    }
  }

  /** Position of the first occurrence of `w` in `s` at or after `from`
      (`str.find`). */
  function IndexFrom(s: string, w: string, from: nat): Option<nat>
    requires from <= |s|
    decreases |s| - from
  {
    if OccursAt(s, from, w) then Some(from)
    else if from == |s| then None
    else IndexFrom(s, w, from + 1)
  }

  /** The scan finds the first occurrence at or after `from`, or None when
      there is none. */
  lemma {:induction false} IndexFromSpec(s: string, w: string, from: nat)
    requires from <= |s|
    ensures var r := IndexFrom(s, w, from);
      && (r.Some? ==> from <= r.value && OccursAt(s, r.value, w))
      && (r.Some? ==> forall j: nat :: from <= j < r.value ==> !OccursAt(s, j, w))
      && (r.None? ==> forall j: nat :: from <= j ==> !OccursAt(s, j, w))
    decreases |s| - from
  {
    if !OccursAt(s, from, w) && from < |s| {
      IndexFromSpec(s, w, from + 1);
    }
  }

  /** The first occurrence of `w` in `s`. */
  function IndexOf(s: string, w: string): Option<nat> {
    IndexFrom(s, w, 0)
  }

  /** The first occurrence is an occurrence with none before it, and there
      is none exactly when `w in s` is false. */
  lemma IndexOfSpec(s: string, w: string)
    ensures IndexOf(s, w).Some? ==> OccursAt(s, IndexOf(s, w).value, w)
    ensures IndexOf(s, w).Some? ==> forall j: nat :: j < IndexOf(s, w).value ==> !OccursAt(s, j, w)
    ensures IndexOf(s, w).None? <==> !Contains(s, w)
  {
    IndexFromSpec(s, w, 0);
  }
}
