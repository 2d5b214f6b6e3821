/** Python's `str.split(sep)` and `sep.join(pieces)` for a non-empty
    separator: the text is cut at every leftmost, non-overlapping occurrence
    of the separator. */
module Splitting {
  import opened Text

  function Split(s: string, d: string): (r: seq<string>)
    requires |d| > 0
    ensures |r| >= 1
    decreases |s|
  {
    match IndexOf(s, d)
    case None => [s]
    case Some(i) =>
      IndexOfSpec(s, d);
      [s[..i]] + Split(s[i + |d|..], d)
  }

  function Join(pieces: seq<string>, d: string): string {
    if pieces == [] then []
    else if |pieces| == 1 then pieces[0]
    else pieces[0] + d + Join(pieces[1..], d)
  }

  /** One step of the split: the text is the first piece, the separator,
      and the rest, which is split in turn. */
  lemma SplitStep(s: string, d: string, i: nat)
    requires |d| > 0 && IndexOf(s, d) == Some(i)
    ensures i + |d| <= |s|
    ensures Split(s, d) == [s[..i]] + Split(s[i + |d|..], d)
    ensures s == s[..i] + d + s[i + |d|..]
  {
    IndexOfSpec(s, d);
    assert s == s[..i] + s[i..i + |d|] + s[i + |d|..];
  }

  lemma JoinCons(p: string, rest: seq<string>, d: string)
    requires |rest| >= 1
    ensures Join([p] + rest, d) == p + d + Join(rest, d)
  {
    assert ([p] + rest)[1..] == rest;
  }

  /** Joining the pieces with the separator gives back the text. */
  lemma {:induction false} SplitJoin(s: string, d: string)
    requires |d| > 0
    ensures Join(Split(s, d), d) == s
    decreases |s|
  {
    IndexOfSpec(s, d);
    var r := IndexOf(s, d);
    if r.Some? {
      var i := r.value;
      SplitStep(s, d, i);
      JoinCons(s[..i], Split(s[i + |d|..], d), d);
      SplitJoin(s[i + |d|..], d);
    }
  }

  /** A prefix that ends before the first occurrence holds no occurrence. */
  lemma PrefixFree(s: string, d: string, i: nat)
    requires |d| > 0 && i <= |s|
    requires forall j: nat :: j < i ==> !OccursAt(s, j, d)
    ensures !Contains(s[..i], d)
  {
    forall j: nat | j <= i ensures !OccursAt(s[..i], j, d) {
      if j + |d| <= i {
        assert !OccursAt(s, j, d);
        assert s[..i][j..j + |d|] == s[j..j + |d|];
      }
    }
  }

  /** No piece contains the separator. */
  lemma {:induction false} SplitPiecesFree(s: string, d: string)
    requires |d| > 0
    ensures forall k :: 0 <= k < |Split(s, d)| ==> !Contains(Split(s, d)[k], d)
    decreases |s|
  {
    IndexOfSpec(s, d);
    var r := IndexOf(s, d);
    if r.Some? {
      var i := r.value;
      SplitStep(s, d, i);
      SplitPiecesFree(s[i + |d|..], d);
      PrefixFree(s, d, i);
    }
  }

  /** The number of positions at which `d` occurs in `s`, overlapping
      occurrences included. */
  function Occurrences(s: string, d: string): nat
    requires |d| > 0
    decreases |s|
  {
    if |s| < |d| then 0
    else (if s[..|d|] == d then 1 else 0) + Occurrences(s[1..], d)
  }

  /** `d` cannot overlap itself: no proper suffix of it is also a prefix. */
  predicate Borderless(d: string) {
    forall m :: 0 < m < |d| ==> d[m..] != d[..|d| - m]
  }

  /** Stepping over positions where `d` does not occur does not change the
      count of what follows. */
  lemma {:induction false} OccurrencesSkip(s: string, d: string, a: nat, b: nat)
    requires |d| > 0 && a <= b <= |s|
    requires forall j: nat :: a <= j < b ==> !OccursAt(s, j, d)
    ensures Occurrences(s[a..], d) == Occurrences(s[b..], d)
    decreases b - a
  {
    if a < b {
      assert !OccursAt(s, a, d);
      if |s[a..]| >= |d| {
        assert s[a..][..|d|] == s[a..a + |d|];
        assert s[a..][1..] == s[a + 1..];
      }
      OccurrencesSkip(s, d, a + 1, b);
    }
  }

  /** Right after an occurrence of a borderless separator, the next
      |d| - 1 positions hold no occurrence. */
  lemma NoOverlap(s: string, d: string, i: nat)
    requires |d| > 0 && Borderless(d) && OccursAt(s, i, d)
    ensures forall k: nat :: i < k < i + |d| ==> !OccursAt(s, k, d)
  {
    forall k: nat | i < k < i + |d| ensures !OccursAt(s, k, d) {
      var m := k - i;
      assert s[k..i + |d|] == d[m..];
      if k + |d| <= |s| {
        assert s[k..k + |d|][..|d| - m] == s[k..i + |d|];
      }
    }
  }

  /** An occurrence at the front is counted once. */
  lemma OccurrenceHere(s: string, d: string, i: nat)
    requires |d| > 0 && OccursAt(s, i, d)
    ensures Occurrences(s[i..], d) == 1 + Occurrences(s[i + 1..], d)
  {
    assert s[i..][..|d|] == s[i..i + |d|];
    assert s[i..][1..] == s[i + 1..];
  }

  /** For a separator that cannot overlap itself, there is one piece more
      than there are occurrences. */
  lemma {:induction false} SplitCount(s: string, d: string)
    requires |d| > 0 && Borderless(d)
    ensures |Split(s, d)| == Occurrences(s, d) + 1
    decreases |s|
  {
    IndexOfSpec(s, d);
    var r := IndexOf(s, d);
    assert s[0..] == s;
    if r.None? {
      OccurrencesSkip(s, d, 0, |s|);
    } else {
      var i := r.value;
      SplitStep(s, d, i);
      OccurrencesSkip(s, d, 0, i);
      OccurrenceHere(s, d, i);
      NoOverlap(s, d, i);
      OccurrencesSkip(s, d, i + 1, i + |d|);
      SplitCount(s[i + |d|..], d);
    }
  }
}
