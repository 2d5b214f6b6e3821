/** A worked example: one segment of the ledger text, read field by field
    into a record that lands in the morning bucket. */
module Sample {
  import opened Text
  import opened Regex
  import opened Decimal
  import opened Fields
  import opened Extractor
  import opened Aggregator

  /** A segment as it follows a "Nro de transacción:" label. Positions: the
      number 0-8, the date 10-19, the time 21-25, the `$` 29, the amount
      31-38. */
  const Segment: string := "123456789 2025-06-01 09:15 x $ 1,250.00 y"

  /** The number is the nine leading digits. */
  lemma SampleId()
    ensures TransactionId(Segment) == "123456789"
  {
    var s := Segment;
    assert forall j :: 0 <= j < 9 ==> IsDigit(s[j]);
    AllInIntro(s, 0, 9, Digit);
    SpanIs(s, 0, Digit, 9);
    assert forall k :: 0 <= k < 9 ==> s[..9][k] == s[k];
    assert s[..9] == "123456789";
  }

  /** No date starts before position 10: none of the characters 4-13 is a
      dash. */
  lemma NoDateBefore()
    ensures forall j: nat :: j < 10 ==> !DateAt(Segment, j)
  {
    var s := Segment;
    assert forall j :: 4 <= j < 14 ==> s[j] != '-';
    forall j: nat | j < 10 ensures !DateAt(s, j) {
      assert s[j..j + 10][4] == s[j + 4];
    }
  }

  lemma DateHere()
    ensures DateAt(Segment, 10) && Segment[10..20] == "2025-06-01"
  {
    assert forall k :: 0 <= k < 10 ==> Segment[10..20][k] == Segment[10 + k];
  }

  /** The date is the one at position 10. */
  lemma SampleDate()
    ensures DateText(Segment) == "2025-06-01"
  {
    NoDateBefore();
    DateHere();
    assert IsLeftmost(DateAt, Segment, Some(10));
    SearchSpec(DateAt, Segment);
    LeftmostUnique(DateAt, Segment, Search(DateAt, Segment), Some(10));
  }

  /** No time starts before position 21: none of the characters 2-22 is a
      colon. */
  lemma NoClockBefore()
    ensures forall j: nat :: j < 21 ==> !ClockAt(Segment, j)
  {
    var s := Segment;
    assert forall j :: 2 <= j < 23 ==> s[j] != ':';
    forall j: nat | j < 21 ensures !ClockAt(s, j) {
      assert s[j..j + 5][2] == s[j + 2];
    }
  }

  lemma ClockHere()
    ensures ClockAt(Segment, 21) && Segment[21..26] == "09:15"
  {
    assert forall k :: 0 <= k < 5 ==> Segment[21..26][k] == Segment[21 + k];
  }

  /** The time is the one at position 21. */
  lemma SampleClock()
    ensures ClockText(Segment) == "09:15"
  {
    NoClockBefore();
    ClockHere();
    assert IsLeftmost(ClockAt, Segment, Some(21));
    SearchSpec(ClockAt, Segment);
    LeftmostUnique(ClockAt, Segment, Search(ClockAt, Segment), Some(21));
  }

  /** No amount starts before the `$` at position 29. */
  lemma NoAmountBefore()
    ensures forall j: nat :: j < 29 ==> !AmountFoundAt(Segment, j)
  {
    assert forall j :: 0 <= j < 29 ==> Segment[j] != '$';
  }

  /** At position 29: the `$`, one space, "1,250", the dot and "00". */
  lemma AmountHere()
    ensures AmountShape(Segment, 29, 31, 36, 39)
    ensures Segment[31..36] == "1,250" && Segment[37..39] == "00"
  {
    var s := Segment;
    assert IsSpace(s[30]);
    AllInIntro(s, 30, 31, Space);
    assert forall j :: 31 <= j < 36 ==> IsDigitOrComma(s[j]);
    AllInIntro(s, 31, 36, DigitOrComma);
    assert forall j :: 37 <= j < 39 ==> IsDigit(s[j]);
    AllInIntro(s, 37, 39, Digit);
    assert forall k :: 0 <= k < 5 ==> s[31..36][k] == s[31 + k];
    assert forall k :: 0 <= k < 2 ==> s[37..39][k] == s[37 + k];
  }

  /** "1,250.00" without its comma is exactly 1250. */
  lemma AmountDigits()
    ensures MatchValue(AmountMatch(31, "1,250", "00")) == 1250.0
  {
    assert RemoveCommas("1,250") == "1250";
    assert NatValue("1250") == 1250 by {
      assert "1250"[..3] == "125" && "125"[..2] == "12" && "12"[..1] == "1" && "1"[..0] == "";
    }
    assert NatValue("00") == 0 by {
      assert "00"[..1] == "0" && "0"[..0] == "";
    }
  }

  /** The amount is the one after the `$` at position 29, read without its
      comma: exactly 1250. */
  lemma SampleAmount()
    ensures AmountValue(Segment) == 1250.0
  {
    NoAmountBefore();
    AmountHere();
    AmountAtIntro(Segment, 29, 31, 36, 39);
    assert IsLeftmost(AmountFoundAt, Segment, Some(29));
    LeftmostValue(Segment, 29, AmountMatch(31, "1,250", "00"));
    AmountDigits();
  }

  /** No "RECHAZADA" occurs, since the segment holds no `R`. */
  lemma SampleAccepted()
    ensures !Contains(Segment, RejectedMark)
  {
    var s := Segment;
    assert forall k :: 0 <= k < |s| ==> s[k] != 'R';
    forall i: nat | i <= |s| ensures !OccursAt(s, i, RejectedMark) {
      if i + |RejectedMark| <= |s| {
        assert s[i..i + |RejectedMark|][0] == s[i];
      }
    }
  }

  /** The segment becomes an accepted record with those fields, and its
      time, 09:15, puts it in the morning bucket. */
  lemma SampleRecord()
    ensures ParseSegment(Segment) == Some(Transaction("2025-06-01", "09:15", 1250.0, "123456789", Accepted))
    ensures InMorning(ParseSegment(Segment).value)
  {
    SampleId();
    SampleDate();
    SampleClock();
    SampleAmount();
    SampleAccepted();
    ParseSegmentSpec(Segment);
    ClockFields("09:15");
  }
}
