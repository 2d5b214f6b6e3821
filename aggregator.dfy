/** The daily figures of the report (main.py:166-174): accepted records are
    put in the morning (before 12:30) or in the afternoon bucket by their
    time, and each bucket, the whole day and the rejected records are summed. */
module Aggregator {
  import opened Text
  import opened Decimal
  import opened Splitting
  import opened Extractor

  /** A time `HH:MM` splits at its colon into the hour and the minutes. */
  lemma ClockSplit(c: Clock)
    ensures Split(c, ":") == [c[..2], c[3..]]
  {
    IndexOfSpec(c, ":");
    assert OccursAt(c, 2, ":");
    assert IndexOf(c, ":") == Some(2) by {
      var v := IndexOf(c, ":").value;
      assert c[v..v + 1][0] == c[v];
    }
    SplitStep(c, ":", 2);
    var rest := c[3..];
    forall j: nat | j <= |rest| ensures !OccursAt(rest, j, ":") {
      if j + 1 <= |rest| {
        assert rest[j..j + 1][0] == c[j + 3];
      }
    }
    IndexOfSpec(rest, ":");
  }

  /** The value of a two-digit numeral. */
  lemma TwoDigits(s: string)
    requires |s| == 2 && AllDigits(s)
    ensures NatValue(s) == 10 * DigitValue(s[0]) + DigitValue(s[1]) <= 99
  {
    assert s[..1][..0] == [];
    assert s[..1][0] == s[0];
    assert NatValue(s[..1]) == DigitValue(s[0]);
  }

  /** `int(hora.split(':')[0])` */
  function Hour(c: Clock): nat {
    ClockSplit(c);
    assert AllDigits(c[..2]);
    NatValue(Split(c, ":")[0])
  }

  /** `int(hora.split(':')[1])` */
  function Minute(c: Clock): nat {
    ClockSplit(c);
    assert AllDigits(c[3..]);
    NatValue(Split(c, ":")[1])
  }

  /** The hour and the minutes are the two-digit numbers on either side of
      the colon, each at most 99 (the time is not range-checked). */
  lemma ClockFields(c: Clock)
    ensures Hour(c) == 10 * DigitValue(c[0]) + DigitValue(c[1]) <= 99
    ensures Minute(c) == 10 * DigitValue(c[3]) + DigitValue(c[4]) <= 99
  {
    ClockSplit(c);
    TwoDigits(c[..2]);
    TwoDigits(c[3..]);
  }

  /** The morning bucket: `h < 12 or (h == 12 and m < 30)`. */
  predicate InMorning(t: Transaction) {
    Hour(t.time) < 12 || (Hour(t.time) == 12 && Minute(t.time) < 30)
  }

  /** The afternoon bucket: `h >= 12 and not (h == 12 and m < 30)`. */
  predicate InAfternoon(t: Transaction) {
    Hour(t.time) >= 12 && !(Hour(t.time) == 12 && Minute(t.time) < 30)
  }

  /** Every record is in exactly one bucket. */
  lemma BucketsSplitTheDay(t: Transaction)
    ensures InMorning(t) != InAfternoon(t)
  {
  }

  /** For a time whose minutes are below 60 the morning is everything
      strictly before 12:30. The times are not range-checked, and "11:95"
      is a morning time although it reads as 12:35. */
  lemma MorningBeforeHalfPastTwelve(t: Transaction)
    requires Minute(t.time) < 60
    ensures InMorning(t) <==> 60 * Hour(t.time) + Minute(t.time) < 60 * 12 + 30
  {
  }

  /** The records satisfying `p`, in their order. */
  function Filter(ts: seq<Transaction>, p: Transaction -> bool): (r: seq<Transaction>)
    ensures |r| <= |ts|
  {
    if ts == [] then []
    else Filter(ts[..|ts| - 1], p) + (if p(ts[|ts| - 1]) then [ts[|ts| - 1]] else [])
  }

  /** `sum(t['valor'] for t in ts)`, exactly. */
  function Sum(ts: seq<Transaction>): real {
    if ts == [] then 0.0 else Sum(ts[..|ts| - 1]) + ts[|ts| - 1].amount
  }

  /** A record is kept by the filter exactly when it is in the list and
      satisfies the predicate. */
  lemma {:induction false} FilterMember(ts: seq<Transaction>, p: Transaction -> bool, t: Transaction)
    ensures t in Filter(ts, p) <==> t in ts && p(t)
  {
    if ts != [] {
      var init := ts[..|ts| - 1];
      FilterMember(init, p, t);
      assert ts == init + [ts[|ts| - 1]];
    }
  }

  /** The two buckets share out the records: their counts, their contents
      and their totals add up to those of the whole list. */
  lemma BucketsPartition(ts: seq<Transaction>)
    ensures |Filter(ts, InMorning)| + |Filter(ts, InAfternoon)| == |ts|
    ensures multiset(Filter(ts, InMorning)) + multiset(Filter(ts, InAfternoon)) == multiset(ts)
    ensures Sum(Filter(ts, InMorning)) + Sum(Filter(ts, InAfternoon)) == Sum(ts)
  {
    BucketsContents(ts);
    BucketsSums(ts);
  }

  lemma {:induction false} BucketsContents(ts: seq<Transaction>)
    ensures multiset(Filter(ts, InMorning)) + multiset(Filter(ts, InAfternoon)) == multiset(ts)
  {
    if ts != [] {
      var init, last := ts[..|ts| - 1], ts[|ts| - 1];
      BucketsContents(init);
      BucketsSplitTheDay(last);
      assert ts == init + [last];
      assert multiset(ts) == multiset(init) + multiset{last};
    }
  }

  lemma {:induction false} BucketsSums(ts: seq<Transaction>)
    ensures Sum(Filter(ts, InMorning)) + Sum(Filter(ts, InAfternoon)) == Sum(ts)
  {
    if ts != [] {
      var init, last := ts[..|ts| - 1], ts[|ts| - 1];
      BucketsSums(init);
      BucketsSplitTheDay(last);
      if InMorning(last) {
        assert Filter(ts, InMorning) == Filter(init, InMorning) + [last];
        assert Filter(ts, InAfternoon) == Filter(init, InAfternoon);
        SumAppend(Filter(init, InMorning), last);
      } else {
        assert Filter(ts, InMorning) == Filter(init, InMorning);
        assert Filter(ts, InAfternoon) == Filter(init, InAfternoon) + [last];
        SumAppend(Filter(init, InAfternoon), last);
      }
    }
  }

  lemma SumAppend(ts: seq<Transaction>, t: Transaction)
    ensures Sum(ts + [t]) == Sum(ts) + t.amount
  {
    assert (ts + [t])[..|ts|] == ts;
  }

  /** Filtering keeps order: the records of two lists side by side are
      filtered list by list. */
  lemma {:induction false} FilterAppend(a: seq<Transaction>, b: seq<Transaction>, p: Transaction -> bool)
    ensures Filter(a + b, p) == Filter(a, p) + Filter(b, p)
    decreases |b|
  {
    if b == [] {
      assert a + b == a;
    } else {
      var b' := b[..|b| - 1];
      assert (a + b)[..|a + b| - 1] == a + b';
      assert (a + b)[|a + b| - 1] == b[|b| - 1];
      FilterAppend(a, b', p);
    }
  }

  /** A sum of positive amounts is positive unless the list is empty. */
  lemma {:induction false} SumPositive(ts: seq<Transaction>)
    requires forall k :: 0 <= k < |ts| ==> ts[k].amount > 0.0
    ensures Sum(ts) >= 0.0
    ensures Sum(ts) > 0.0 <==> ts != []
  {
    if ts != [] {
      SumPositive(ts[..|ts| - 1]);
    }
  }

  /** The figures of the day. */
  datatype Summary = Summary(
    morning: seq<Transaction>, afternoon: seq<Transaction>,
    morningTotal: real, afternoonTotal: real, grandTotal: real, rejectedTotal: real)

  /** `mañana`, `tarde` and the four totals. */
  function Summarize(accepted: seq<Transaction>, rejected: seq<Transaction>): Summary {
    var morning := Filter(accepted, InMorning);
    var afternoon := Filter(accepted, InAfternoon);
    Summary(morning, afternoon, Sum(morning), Sum(afternoon),
            Sum(morning) + Sum(afternoon), Sum(rejected))
  }

  /** The morning bucket holds exactly the accepted morning records and the
      afternoon bucket exactly the accepted afternoon ones, every accepted
      record once; each bucket total is the sum of its bucket; the grand
      total is the sum of the accepted amounts (the rejected ones are not in
      it), and the rejected total is summed apart. */
  lemma SummaryTotals(accepted: seq<Transaction>, rejected: seq<Transaction>)
    ensures var s := Summarize(accepted, rejected);
      && (forall t :: t in s.morning <==> t in accepted && InMorning(t))
      && (forall t :: t in s.afternoon <==> t in accepted && InAfternoon(t))
      && |s.morning| + |s.afternoon| == |accepted|
      && multiset(s.morning) + multiset(s.afternoon) == multiset(accepted)
      && s.morningTotal == Sum(s.morning) && s.afternoonTotal == Sum(s.afternoon)
      && s.grandTotal == s.morningTotal + s.afternoonTotal == Sum(accepted)
      && s.rejectedTotal == Sum(rejected)
  {
    BucketsPartition(accepted);
    forall t ensures t in Filter(accepted, InMorning) <==> t in accepted && InMorning(t) {
      FilterMember(accepted, InMorning, t);
    }
    forall t ensures t in Filter(accepted, InAfternoon) <==> t in accepted && InAfternoon(t) {
      FilterMember(accepted, InAfternoon, t);
    }
  }

  /** Every accepted record has a positive amount and the accepted status,
      and every rejected one a positive amount and the rejected status. */
  lemma ExtractedRecords(segs: seq<string>)
    ensures forall k :: 0 <= k < |AcceptedOf(segs)| ==>
      AcceptedOf(segs)[k].amount > 0.0 && AcceptedOf(segs)[k].status == Accepted
    ensures forall k :: 0 <= k < |RejectedOf(segs)| ==>
      RejectedOf(segs)[k].amount > 0.0 && RejectedOf(segs)[k].status == Rejected
  {
    forall k | 0 <= k < |AcceptedOf(segs)|
      ensures AcceptedOf(segs)[k].amount > 0.0 && AcceptedOf(segs)[k].status == Accepted
    {
      RecordOrigin(segs, AcceptedOf(segs)[k]);
    }
    forall k | 0 <= k < |RejectedOf(segs)|
      ensures RejectedOf(segs)[k].amount > 0.0 && RejectedOf(segs)[k].status == Rejected
    {
      RecordOrigin(segs, RejectedOf(segs)[k]);
    }
  }

  lemma RecordOrigin(segs: seq<string>, t: Transaction)
    requires t in AcceptedOf(segs) || t in RejectedOf(segs)
    ensures t.amount > 0.0
    ensures t in AcceptedOf(segs) ==> t.status == Accepted
    ensures t in RejectedOf(segs) ==> t.status == Rejected
  {
    Membership(segs, t);
    var k :| 0 <= k < |segs| && ParseSegment(segs[k]) == Some(t);
    ParseSegmentSpec(segs[k]);
  }
}
