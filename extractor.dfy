/** The record extractor (main.py:114-160): the scraped text is cut at every
    "Nro de transacción:" label, the part before the first label is
    dropped, and each remaining segment is parsed into a transaction that is
    kept, in order, in the accepted or in the rejected list. */
module Extractor {
  import opened Text
  import opened Regex
  import opened Fields
  import opened Splitting

  /** The label that opens every record of the ledger page. */
  const Delimiter: string := "Nro de transacci\U{F3}n:"

  /** The word that marks a rejected transaction anywhere in its segment. */
  const RejectedMark: string := "RECHAZADA"

  /** `ACEPTADA` or `RECHAZADA`. */
  datatype Status = Accepted | Rejected

  /** A time of day as the extractor reads it: `DD:DD`, unchecked range. */
  type Clock = s: string | IsClockText(s) witness "00:00"

  /** One record: `fecha`, `hora`, `valor`, `nro`, `estado`. */
  datatype Transaction = Transaction(date: string, time: Clock, amount: real, id: string, status: Status)

  /** The label cannot overlap itself: its only `N` is its first letter. */
  lemma DelimiterBorderless()
    ensures |Delimiter| > 0 && Borderless(Delimiter)
  {
    var d := Delimiter;
    forall m | 0 < m < |d| ensures d[m..] != d[..|d| - m] {
      assert d[m..][0] == d[m] != 'N' == d[..|d| - m][0];
    }
  }

  /** The candidate records: every piece of the text after a label. */
  function Segments(text: string): (r: seq<string>)
    ensures |r| == |Split(text, Delimiter)| - 1
  {
    Split(text, Delimiter)[1..]
  }

  /** One segment read into a transaction, or None when it lacks a date, a
      time or a positive amount. */
  function ParseSegment(seg: string): Option<Transaction> {
    var date := DateText(seg);
    var time := ClockText(seg);
    var amount := AmountValue(seg);
    var status := if IndexOf(seg, RejectedMark).Some? then Rejected else Accepted;
    if date != "" && time != "" && amount > 0.0 then
      Some(Transaction(date, time, amount, TransactionId(seg), status))
    else
      None
  }

  /** A segment is kept exactly when it has a date, a time and a positive
      amount; the record then carries the leftmost date, time and amount,
      the number cut to 15 characters, and is rejected exactly when the
      segment contains the mark. */
  lemma ParseSegmentSpec(seg: string)
    ensures ParseSegment(seg).Some? <==>
      && (exists j: nat :: DateAt(seg, j))
      && (exists j: nat :: ClockAt(seg, j))
      && AmountValue(seg) > 0.0
    ensures ParseSegment(seg).Some? ==>
      var t := ParseSegment(seg).value;
      && IsDateText(t.date) && t.date == DateText(seg)
      && t.time == ClockText(seg)
      && t.amount == AmountValue(seg) > 0.0
      && t.id == TransactionId(seg) && |t.id| <= IdLength
      && (t.status == Rejected <==> Contains(seg, RejectedMark))
  {
    DateTextSpec(seg);
    ClockTextSpec(seg);
    TransactionIdSpec(seg);
    IndexOfSpec(seg, RejectedMark);
  }

  /** The parse of every segment, in order. */
  function ParseAll(segs: seq<string>): (r: seq<Option<Transaction>>)
    ensures |r| == |segs|
  {
    if segs == [] then []
    else ParseAll(segs[..|segs| - 1]) + [ParseSegment(segs[|segs| - 1])]
  }

  /** The `k`-th parse is the parse of the `k`-th segment. */
  lemma {:induction false} ParseAllAt(segs: seq<string>, k: nat)
    requires k < |segs|
    ensures ParseAll(segs)[k] == ParseSegment(segs[k])
  {
    var init := segs[..|segs| - 1];
    if k < |init| {
      ParseAllAt(init, k);
      assert init[k] == segs[k];
    }
  }

  /** What one parse adds to the list of status `st`. */
  function Keep(p: Option<Transaction>, st: Status): seq<Transaction> {
    match p
    case Some(t) => if t.status == st then [t] else []
    case None => []
  }

  /** The records of status `st` among the parses, in order. */
  function Collect(ps: seq<Option<Transaction>>, st: Status): seq<Transaction> {
    if ps == [] then []
    else Collect(ps[..|ps| - 1], st) + Keep(ps[|ps| - 1], st)
  }

  /** `transacciones` */
  function AcceptedOf(segs: seq<string>): seq<Transaction> {
    Collect(ParseAll(segs), Accepted)
  }

  /** `transacciones_rechazadas` */
  function RejectedOf(segs: seq<string>): seq<Transaction> {
    Collect(ParseAll(segs), Rejected)
  }

  /** The loop of the extractor: the pieces after the first are parsed one
      by one, and each kept record is appended to the list of its status. */
  method ExtractTransactions(text: string) returns (accepted: seq<Transaction>, rejected: seq<Transaction>)
    ensures accepted == AcceptedOf(Segments(text))
    ensures rejected == RejectedOf(Segments(text))
  {
    var blocks := Split(text, Delimiter);
    accepted, rejected := [], [];
    var idx := 1;
    while idx < |blocks|
      invariant 1 <= idx <= |blocks|
      invariant accepted == AcceptedOf(blocks[1..idx])
      invariant rejected == RejectedOf(blocks[1..idx])
    {
      var parsed := ParseSegment(blocks[idx]);
      ExtractStep(blocks, idx);
      accepted, rejected := Place(parsed, accepted, rejected);
      idx := idx + 1;
    }
    assert blocks[1..idx] == Segments(text);
  }

  /** A kept record is appended to the list of its status. */
  method Place(parsed: Option<Transaction>, accepted: seq<Transaction>, rejected: seq<Transaction>)
    returns (accepted': seq<Transaction>, rejected': seq<Transaction>)
    ensures accepted' == accepted + Keep(parsed, Accepted)
    ensures rejected' == rejected + Keep(parsed, Rejected)
  {
    accepted', rejected' := accepted, rejected;
    if parsed.Some? {
      var t := parsed.value;
      if t.status == Accepted {
        accepted' := accepted' + [t];
      } else {
        rejected' := rejected' + [t];
      }
    }
  }

  /** One more turn of the loop: the lists grow by what the next segment
      contributes. */
  lemma ExtractStep(blocks: seq<string>, idx: nat)
    requires 1 <= idx < |blocks|
    ensures AcceptedOf(blocks[1..idx + 1]) == AcceptedOf(blocks[1..idx]) + Keep(ParseSegment(blocks[idx]), Accepted)
    ensures RejectedOf(blocks[1..idx + 1]) == RejectedOf(blocks[1..idx]) + Keep(ParseSegment(blocks[idx]), Rejected)
  {
    var segs := blocks[1..idx + 1];
    assert segs[..|segs| - 1] == blocks[1..idx];
    assert segs[|segs| - 1] == blocks[idx];
    ParseAllStep(segs);
  }

  /** The parses of one more segment are the parses so far and its own. */
  lemma ParseAllStep(segs: seq<string>)
    requires segs != []
    ensures ParseAll(segs) == ParseAll(segs[..|segs| - 1]) + [ParseSegment(segs[|segs| - 1])]
    ensures Collect(ParseAll(segs), Accepted) ==
      Collect(ParseAll(segs[..|segs| - 1]), Accepted) + Keep(ParseSegment(segs[|segs| - 1]), Accepted)
    ensures Collect(ParseAll(segs), Rejected) ==
      Collect(ParseAll(segs[..|segs| - 1]), Rejected) + Keep(ParseSegment(segs[|segs| - 1]), Rejected)
  {
    var ps := ParseAll(segs);
    assert ps[..|ps| - 1] == ParseAll(segs[..|segs| - 1]);
  }

  /** Collecting distributes over concatenation: records keep the order of
      their segments. */
  lemma {:induction false} CollectAppend(a: seq<Option<Transaction>>, b: seq<Option<Transaction>>, st: Status)
    ensures Collect(a + b, st) == Collect(a, st) + Collect(b, st)
    decreases |b|
  {
    if b == [] {
      assert a + b == a;
    } else {
      var b' := b[..|b| - 1];
      assert (a + b)[..|a + b| - 1] == a + b';
      assert (a + b)[|a + b| - 1] == b[|b| - 1];
      CollectAppend(a, b', st);
    }
  }

  /** The parses of two texts of segments side by side. */
  lemma {:induction false} ParseAllAppend(a: seq<string>, b: seq<string>)
    ensures ParseAll(a + b) == ParseAll(a) + ParseAll(b)
  {
    assert |ParseAll(a + b)| == |ParseAll(a) + ParseAll(b)|;
    forall k | 0 <= k < |a + b| ensures ParseAll(a + b)[k] == (ParseAll(a) + ParseAll(b))[k] {
      ParseAllAt(a + b, k);
      if k < |a| {
        assert (a + b)[k] == a[k];
        ParseAllAt(a, k);
      } else {
        assert (a + b)[k] == b[k - |a|];
        ParseAllAt(b, k - |a|);
      }
    }
  }

  /** The accepted and rejected lists of two runs of segments side by side
      are the lists of each run, one after the other. */
  lemma OrderKept(a: seq<string>, b: seq<string>)
    ensures AcceptedOf(a + b) == AcceptedOf(a) + AcceptedOf(b)
    ensures RejectedOf(a + b) == RejectedOf(a) + RejectedOf(b)
  {
    ParseAllAppend(a, b);
    CollectAppend(ParseAll(a), ParseAll(b), Accepted);
    CollectAppend(ParseAll(a), ParseAll(b), Rejected);
  }

  /** A record is in the list of status `st` exactly when one of the parses
      is that record and it has that status. */
  lemma {:induction false} CollectMember(ps: seq<Option<Transaction>>, st: Status, t: Transaction)
    ensures t in Collect(ps, st) <==> (Some(t) in ps && t.status == st)
  {
    if ps != [] {
      var init := ps[..|ps| - 1];
      CollectMember(init, st, t);
      assert ps == init + [ps[|ps| - 1]];
    }
  }

  /** The number of parses that are records. */
  function SomeCount(ps: seq<Option<Transaction>>): (n: nat)
    ensures n <= |ps|
  {
    if ps == [] then 0
    else SomeCount(ps[..|ps| - 1]) + (if ps[|ps| - 1].Some? then 1 else 0)
  }

  /** Every record lands in exactly one of the two lists. */
  lemma {:induction false} CollectCount(ps: seq<Option<Transaction>>)
    ensures |Collect(ps, Accepted)| + |Collect(ps, Rejected)| == SomeCount(ps)
    ensures SomeCount(ps) == |ps| <==> forall k :: 0 <= k < |ps| ==> ps[k].Some?
  {
    if ps != [] {
      var init := ps[..|ps| - 1];
      CollectCount(init);
      assert forall k :: 0 <= k < |init| ==> init[k] == ps[k];
    }
  }

  /** Together the two lists hold one record per segment that parses: never
      more than there are segments, and exactly as many when every segment
      parses. */
  lemma CountBound(segs: seq<string>)
    ensures |AcceptedOf(segs)| + |RejectedOf(segs)| <= |segs|
    ensures |AcceptedOf(segs)| + |RejectedOf(segs)| == |segs| <==>
      forall k :: 0 <= k < |segs| ==> ParseSegment(segs[k]).Some?
  {
    var ps := ParseAll(segs);
    CollectCount(ps);
    forall k | 0 <= k < |segs| ensures ps[k] == ParseSegment(segs[k]) {
      ParseAllAt(segs, k);
    }
  }

  /** A parsed record is in the rejected list exactly when its segment
      contains the mark, and in the accepted list exactly when it does
      not. */
  lemma RejectedExactly(segs: seq<string>, k: nat)
    requires k < |segs| && ParseSegment(segs[k]).Some?
    ensures var t := ParseSegment(segs[k]).value;
      && (t in RejectedOf(segs) <==> Contains(segs[k], RejectedMark))
      && (t in AcceptedOf(segs) <==> !Contains(segs[k], RejectedMark))
  {
    var t := ParseSegment(segs[k]).value;
    ParseSegmentSpec(segs[k]);
    ParseAllAt(segs, k);
    CollectMember(ParseAll(segs), Accepted, t);
    CollectMember(ParseAll(segs), Rejected, t);
  }

  /** Every record in a list comes from a segment, and no record is in both
      lists. */
  lemma Membership(segs: seq<string>, t: Transaction)
    ensures t in AcceptedOf(segs) <==>
      exists k :: 0 <= k < |segs| && ParseSegment(segs[k]) == Some(t) && t.status == Accepted
    ensures t in RejectedOf(segs) <==>
      exists k :: 0 <= k < |segs| && ParseSegment(segs[k]) == Some(t) && t.status == Rejected
    ensures !(t in AcceptedOf(segs) && t in RejectedOf(segs))
  {
    var ps := ParseAll(segs);
    CollectMember(ps, Accepted, t);
    CollectMember(ps, Rejected, t);
    if Some(t) in ps {
      var k :| 0 <= k < |ps| && ps[k] == Some(t);
      ParseAllAt(segs, k);
    }
    if exists k :: 0 <= k < |segs| && ParseSegment(segs[k]) == Some(t) {
      var k :| 0 <= k < |segs| && ParseSegment(segs[k]) == Some(t);
      ParseAllAt(segs, k);
    }
  }

  /** There is one segment per label in the text. */
  lemma SegmentCount(text: string)
    ensures |Segments(text)| == Occurrences(text, Delimiter)
  {
    DelimiterBorderless();
    SplitCount(text, Delimiter);
  }

  /** No segment contains the label, and the dropped header, the labels
      and the segments spell the text back. */
  lemma SegmentsCover(text: string)
    ensures forall k :: 0 <= k < |Segments(text)| ==> !Contains(Segments(text)[k], Delimiter)
    ensures Join([Split(text, Delimiter)[0]] + Segments(text), Delimiter) == text
  {
    SplitPiecesFree(text, Delimiter);
    SplitJoin(text, Delimiter);
    var pieces := Split(text, Delimiter);
    assert [pieces[0]] + pieces[1..] == pieces;
  }
}
