/** The fields read from one segment of the ledger text: the transaction
    number, the date, the time and the amount (main.py:124-134). */
module Fields {
  import opened Text
  import opened Regex
  import opened Decimal

  /** The transaction number is cut to this many characters. */
  const IdLength: nat := 15

  /** `re.search(r'^([0-9]+)', seg)` cut to 15 characters, or "N/A": the
      digits at the very start of the segment, no whitespace skipped. */
  function TransactionId(seg: string): (r: string)
    ensures |r| <= IdLength
  {
    var n := Span(seg, 0, Digit);
    if n == 0 then "N/A" else seg[..if n < IdLength then n else IdLength]
  }

  /** The number is "N/A" unless the segment starts with a digit; then it is
      the run of digits at the start, cut to 15 characters. */
  lemma TransactionIdSpec(seg: string)
    ensures !(|seg| > 0 && IsDigit(seg[0])) ==> TransactionId(seg) == "N/A"
    ensures |seg| > 0 && IsDigit(seg[0]) ==>
      var r := TransactionId(seg);
      && 0 < |r| <= |seg| && r == seg[..|r|] && AllDigits(r)
      && (|r| == IdLength || |r| == |seg| || !IsDigit(seg[|r|]))
  {
    var n := Span(seg, 0, Digit);
    AllInEach(seg, 0, n, Digit);
  }

  /** `fecha`: the leftmost `DDDD-DD-DD` of the segment, or "" when there is
      none. */
  function DateText(seg: string): string {
    match Search(DateAt, seg)
    case None => ""
    case Some(j) =>
      SearchSpec(DateAt, seg);
      seg[j..j + 10]
  }

  /** The date is empty exactly when no date occurs; otherwise it is the
      leftmost one. */
  lemma DateTextSpec(seg: string)
    ensures DateText(seg) == "" <==> forall j: nat :: !DateAt(seg, j)
    ensures DateText(seg) != "" ==> IsDateText(DateText(seg))
    ensures DateText(seg) != "" ==>
      exists j: nat :: IsLeftmost(DateAt, seg, Some(j)) && DateText(seg) == seg[j..j + 10]
  {
    SearchSpec(DateAt, seg);
  }

  /** `hora`: the leftmost `DD:DD` of the segment, or "" when there is none.
      Only the shape is checked, so "99:99" is a time. */
  function ClockText(seg: string): (r: string)
    ensures r != "" ==> IsClockText(r)
  {
    match Search(ClockAt, seg)
    case None => ""
    case Some(j) =>
      SearchSpec(ClockAt, seg);
      seg[j..j + 5]
  }

  /** The time is empty exactly when no time occurs; otherwise it is the
      leftmost one. */
  lemma ClockTextSpec(seg: string)
    ensures ClockText(seg) == "" <==> forall j: nat :: !ClockAt(seg, j)
    ensures ClockText(seg) != "" ==>
      exists j: nat :: IsLeftmost(ClockAt, seg, Some(j)) && ClockText(seg) == seg[j..j + 5]
  {
    SearchSpec(ClockAt, seg);
  }

  /** A match holds digits and commas before its dot and digits after it. */
  lemma AmountAtDigits(s: string, i: nat, m: AmountMatch)
    requires AmountAt(s, i) == Some(m)
    ensures AllDigitsOrCommas(m.whole) && AllDigits(m.frac)
  {
    AmountAtShape(s, i, m);
    AllInEach(s, m.at, m.Dot(), DigitOrComma);
    AllInEach(s, m.Dot() + 1, m.End(), Digit);
  }

  /** `float(m.replace(',', ''))` for group 1 of a match, exactly. */
  function MatchValue(m: AmountMatch): real
    requires AllDigitsOrCommas(m.whole) && AllDigits(m.frac)
  {
    RemoveCommasLeavesDigits(m.whole);
    DecimalValue(RemoveCommas(m.whole), m.frac)
  }

  /** `valor`: the value of the leftmost amount of the segment, or 0 when
      there is none. */
  function AmountValue(seg: string): (r: real)
    ensures r >= 0.0
  {
    match Search(AmountFoundAt, seg)
    case None => 0.0
    case Some(i) =>
      SearchSpec(AmountFoundAt, seg);
      AmountAtDigits(seg, i, AmountAt(seg, i).value);
      MatchValue(AmountAt(seg, i).value)
  }

  /** The amount is positive exactly when there is a match and one of its
      digits is not zero: "0.00" and "$,.0" count as no amount. */
  lemma AmountPositive(seg: string)
    ensures (forall j: nat :: !AmountFoundAt(seg, j)) ==> AmountValue(seg) == 0.0
    ensures AmountValue(seg) > 0.0 <==>
      exists i: nat :: IsLeftmost(AmountFoundAt, seg, Some(i)) &&
        (HasNonZeroDigit(AmountAt(seg, i).value.whole) || HasNonZeroDigit(AmountAt(seg, i).value.frac))
  {
    SearchSpec(AmountFoundAt, seg);
    var r := Search(AmountFoundAt, seg);
    if r.Some? {
      var i := r.value;
      var m := AmountAt(seg, i).value;
      AmountAtDigits(seg, i, m);
      RemoveCommasLeavesDigits(m.whole);
      DecimalValueProperties(RemoveCommas(m.whole), m.frac);
      NonZeroSurvivesCommas(m.whole);
      forall i': nat | IsLeftmost(AmountFoundAt, seg, Some(i')) ensures i' == i {
        LeftmostUnique(AmountFoundAt, seg, r, Some(i'));
      }
    } else {
      forall i': nat | IsLeftmost(AmountFoundAt, seg, Some(i')) ensures false {
        LeftmostUnique(AmountFoundAt, seg, r, Some(i'));
      }
    }
  }

  /** A non-zero digit is the first character or one of the rest. */
  lemma NonZeroCons(s: string)
    requires |s| > 0
    ensures HasNonZeroDigit(s) <==> (IsDigit(s[0]) && s[0] != '0') || HasNonZeroDigit(s[1..])
  {
    if HasNonZeroDigit(s[1..]) {
      var k :| 0 <= k < |s[1..]| && IsDigit(s[1..][k]) && s[1..][k] != '0';
      assert s[k + 1] == s[1..][k];
    }
    if HasNonZeroDigit(s) {
      var k :| 0 <= k < |s| && IsDigit(s[k]) && s[k] != '0';
      if k > 0 { assert s[1..][k - 1] == s[k]; }
    }
  }

  /** Removing commas keeps every non-zero digit. */
  lemma {:induction false} NonZeroSurvivesCommas(s: string)
    ensures HasNonZeroDigit(RemoveCommas(s)) <==> HasNonZeroDigit(s)
  {
    if s != [] {
      NonZeroSurvivesCommas(s[1..]);
      NonZeroCons(s);
      if s[0] != ',' {
        var r := RemoveCommas(s);
        assert r == [s[0]] + RemoveCommas(s[1..]);
        assert r[1..] == RemoveCommas(s[1..]);
        NonZeroCons(r);
      }
    }
  }

  /** A `$` after the start of a match lies beyond its end: it is neither
      whitespace, nor a digit or comma, nor a dot. */
  lemma ShapeStopsAtDollar(s: string, j: nat, a: nat, b: nat, c: nat, i: nat)
    requires AmountShape(s, j, a, b, c)
    requires j < i < |s| && s[i] == '$'
    ensures c <= i
  {
    AllInStops(s, j + 1, a, Space, i);
    AllInStops(s, a, b, DigitOrComma, i);
    AllInStops(s, b + 1, c, Digit, i);
  }

  /** A match that ends before position `i` is a match in every text that
      agrees with this one up to `i`. */
  lemma ShapeTransfer(s: string, t: string, j: nat, a: nat, b: nat, c: nat, i: nat)
    requires AmountShape(s, j, a, b, c)
    requires c <= i < |s| && i < |t| && s[..i + 1] == t[..i + 1]
    ensures AmountShape(t, j, a, b, c)
    ensures s[a..b] == t[a..b] && s[b + 1..c] == t[b + 1..c]
  {
    PrefixAgree(s, t, i + 1, j + 1, a);
    PrefixAgree(s, t, i + 1, a, b);
    PrefixAgree(s, t, i + 1, b + 1, c);
    PrefixAgree(s, t, i + 1, j, j + 1);
    PrefixAgree(s, t, i + 1, b, b + 1);
    PrefixAgree(s, t, i + 1, c, c + 1);
    assert s[j] == s[j..j + 1][0] && t[j] == t[j..j + 1][0];
    assert s[b] == s[b..b + 1][0] && t[b] == t[b..b + 1][0];
    assert s[c] == s[c..c + 1][0] && t[c] == t[c..c + 1][0];
    AllInSame(s, j + 1, a, t, j + 1, a, Space);
    AllInSame(s, a, b, t, a, b, DigitOrComma);
    AllInSame(s, b + 1, c, t, b + 1, c, Digit);
  }

  /** Texts with a common prefix agree on every slice inside it. */
  lemma PrefixAgree(s: string, t: string, n: nat, x: nat, y: nat)
    requires n <= |s| && n <= |t| && s[..n] == t[..n] && x <= y <= n
    ensures s[x..y] == t[x..y]
  {
    forall k | 0 <= k < y - x ensures s[x..y][k] == t[x..y][k] {
      assert s[x + k] == s[..n][x + k];
      assert t[x + k] == t[..n][x + k];
    }
  }

  /** A match attempt that starts before a `$` never reads past it, so two
      texts that agree up to the `$` agree on it. */
  lemma AmountAtBefore(s: string, t: string, j: nat, i: nat)
    requires j < i < |s| && i < |t| && s[i] == '$'
    requires s[..i + 1] == t[..i + 1]
    ensures AmountAt(s, j) == AmountAt(t, j)
  {
    assert t[i] == t[..i + 1][i] == s[..i + 1][i] == '$';
    if AmountAt(s, j).Some? {
      AmountAtAgree(s, t, j, i);
    } else if AmountAt(t, j).Some? {
      AmountAtAgree(t, s, j, i);
    }
  }

  /** The one-sided half of `AmountAtBefore`. */
  lemma AmountAtAgree(s: string, t: string, j: nat, i: nat)
    requires j < i < |s| && i < |t| && s[i] == '$'
    requires s[..i + 1] == t[..i + 1]
    requires AmountAt(s, j).Some?
    ensures AmountAt(t, j) == AmountAt(s, j)
  {
    var m := AmountAt(s, j).value;
    AmountAtShape(s, j, m);
    var a, b, c := m.at, m.Dot(), m.End();
    ShapeStopsAtDollar(s, j, a, b, c, i);
    ShapeTransfer(s, t, j, a, b, c, i);
    AmountAtIntro(t, j, a, b, c);
    assert m == AmountMatch(a, t[a..b], t[b + 1..c]);
  }

  /** `t` is `s` with `s[a..b]` replaced by `w`. */
  predicate Regrouped(s: string, t: string, a: nat, b: nat, w: string)
    requires a <= b <= |s|
  {
    && |t| == a + |w| + (|s| - b)
    && t[..a] == s[..a] && t[a..a + |w|] == w && t[a + |w|..] == s[b..]
  }

  lemma RegroupedConcat(s: string, a: nat, b: nat, w: string)
    requires a <= b <= |s|
    ensures Regrouped(s, s[..a] + w + s[b..], a, b, w)
  {
    var t := s[..a] + w + s[b..];
    assert t[..a] == s[..a];
    assert t[a..a + |w|] == w;
    assert t[a + |w|..] == s[b..];
  }

  /** Putting other digits and commas in place of the digits-and-commas
      part of a match gives a match with those digits and the same
      fraction. */
  lemma ShapeRegroup(s: string, t: string, i: nat, a: nat, b: nat, c: nat, w: string)
    requires AmountShape(s, i, a, b, c) && Regrouped(s, t, a, b, w)
    requires |w| > 0 && AllDigitsOrCommas(w)
    ensures AmountShape(t, i, a, a + |w|, c - b + a + |w|)
    ensures t[a + |w| + 1..c - b + a + |w|] == s[b + 1..c]
    ensures t[..i + 1] == s[..i + 1]
  {
    var n := |w|;
    RegroupBefore(s, t, a, b, w, i + 1, a);
    RegroupBefore(s, t, a, b, w, i, i + 1);
    RegroupBefore(s, t, a, b, w, 0, i + 1);
    assert s[i] == s[i..i + 1][0] && t[i] == t[i..i + 1][0];
    AllInSame(s, i + 1, a, t, i + 1, a, Space);
    RegroupMiddle(s, t, a, b, w);
    var c' := c - b + a + n;
    RegroupAfter(s, t, a, b, w, b + 1, c, a + n + 1, c');
    RegroupAfter(s, t, a, b, w, b, b + 1, a + n, a + n + 1);
    assert s[b] == s[b..b + 1][0] && t[a + n] == t[a + n..a + n + 1][0];
    AllInSame(s, b + 1, c, t, a + n + 1, c', Digit);
    if c < |s| {
      RegroupAfter(s, t, a, b, w, c, c + 1, c', c' + 1);
      assert s[c] == s[c..c + 1][0] && t[c'] == t[c'..c' + 1][0];
    }
  }

  /** Left of the replaced part nothing changes. */
  lemma RegroupBefore(s: string, t: string, a: nat, b: nat, w: string, x: nat, y: nat)
    requires a <= b <= |s| && Regrouped(s, t, a, b, w) && x <= y <= a
    ensures t[x..y] == s[x..y]
  {
    assert t[x..y] == t[..a][x..y];
    assert s[x..y] == s[..a][x..y];
  }

  /** Right of the replaced part everything moves by the same amount. */
  lemma RegroupAfter(s: string, t: string, a: nat, b: nat, w: string, x: nat, y: nat, x': nat, y': nat)
    requires a <= b <= |s| && Regrouped(s, t, a, b, w) && b <= x <= y <= |s|
    requires x' == x - b + a + |w| && y' == y - b + a + |w|
    ensures t[x'..y'] == s[x..y]
  {
    var d := a + |w|;
    assert t[x'..y'] == t[d..][x - b..y - b];
    assert s[x..y] == s[b..][x - b..y - b];
  }

  /** The replaced part is a run of digits and commas. */
  lemma RegroupMiddle(s: string, t: string, a: nat, b: nat, w: string)
    requires a <= b <= |s| && Regrouped(s, t, a, b, w) && AllDigitsOrCommas(w)
    ensures AllIn(t, a, a + |w|, DigitOrComma)
  {
    forall x | a <= x < a + |w| ensures InClass(t[x], DigitOrComma) {
      assert t[x] == t[a..a + |w|][x - a];
    }
    AllInIntro(t, a, a + |w|, DigitOrComma);
  }

  /** The regrouped text has the regrouped match at the same place. */
  lemma RegroupMatch(s: string, t: string, i: nat, a: nat, b: nat, c: nat, w: string)
    requires AmountShape(s, i, a, b, c) && Regrouped(s, t, a, b, w)
    requires |w| > 0 && AllDigitsOrCommas(w)
    ensures AmountAt(t, i) == Some(AmountMatch(a, w, s[b + 1..c]))
    ensures t[..i + 1] == s[..i + 1]
  {
    ShapeRegroup(s, t, i, a, b, c, w);
    AmountAtIntro(t, i, a, a + |w|, c - b + a + |w|);
  }

  /** Nothing left of a `$` matches in a text that agrees with one where
      nothing left of it matches. */
  lemma NoneBefore(s: string, t: string, i: nat)
    requires i < |s| && i < |t| && s[i] == '$' && s[..i + 1] == t[..i + 1]
    requires forall j: nat :: j < i ==> !AmountFoundAt(s, j)
    ensures forall j: nat :: j < i ==> !AmountFoundAt(t, j)
  {
    forall j: nat | j < i ensures !AmountFoundAt(t, j) {
      assert !AmountFoundAt(s, j);
      AmountAtBefore(s, t, j, i);
    }
  }

  /** The value of a text whose leftmost amount is `m`. */
  lemma LeftmostValue(s: string, i: nat, m: AmountMatch)
    requires IsLeftmost(AmountFoundAt, s, Some(i)) && AmountAt(s, i) == Some(m)
    ensures AllDigitsOrCommas(m.whole) && AllDigits(m.frac)
    ensures AmountValue(s) == MatchValue(m)
  {
    AmountAtDigits(s, i, m);
    SearchSpec(AmountFoundAt, s);
    LeftmostUnique(AmountFoundAt, s, Search(AmountFoundAt, s), Some(i));
  }

  /** Rewriting the digits-and-commas part of the leftmost amount with other
      digits and commas that spell the same digits leaves the amount
      unchanged. */
  lemma AmountRegroup(s: string, i: nat, m: AmountMatch, w: string)
    requires IsLeftmost(AmountFoundAt, s, Some(i)) && AmountAt(s, i) == Some(m)
    requires |w| > 0 && AllDigitsOrCommas(w)
    requires RemoveCommas(w) == RemoveCommas(m.whole)
    ensures AmountValue(s[..m.at] + w + s[m.Dot()..]) == AmountValue(s)
  {
    var t := s[..m.at] + w + s[m.Dot()..];
    RegroupedConcat(s, m.at, m.Dot(), w);
    RegroupLeftmost(s, t, i, m, w);
    LeftmostValue(t, i, AmountMatch(m.at, w, m.frac));
    LeftmostValue(s, i, m);
  }

  /** The regrouped match is still the leftmost one. */
  lemma RegroupLeftmost(s: string, t: string, i: nat, m: AmountMatch, w: string)
    requires IsLeftmost(AmountFoundAt, s, Some(i)) && AmountAt(s, i) == Some(m)
    requires |w| > 0 && AllDigitsOrCommas(w)
    requires m.Dot() <= |s| && Regrouped(s, t, m.at, m.Dot(), w)
    ensures IsLeftmost(AmountFoundAt, t, Some(i))
    ensures AmountAt(t, i) == Some(AmountMatch(m.at, w, m.frac))
  {
    AmountAtShape(s, i, m);
    RegroupMatch(s, t, i, m.at, m.Dot(), m.End(), w);
    NoneBefore(s, t, i);
  }

  /** Inserting a comma into the digits-and-commas part of the leftmost
      amount does not change the amount. */
  lemma AmountCommaInsert(s: string, i: nat, m: AmountMatch, k: nat)
    requires IsLeftmost(AmountFoundAt, s, Some(i)) && AmountAt(s, i) == Some(m)
    requires m.at <= k <= m.Dot()
    ensures AmountValue(s[..k] + "," + s[k..]) == AmountValue(s)
  {
    AmountAtShape(s, i, m);
    AmountAtDigits(s, i, m);
    var a, dot := m.at, m.Dot();
    var x, y := s[a..k], s[k..dot];
    SliceSplit(s, a, k, dot);
    CommaInsertInvisible(x, y);
    CommaInsertDigits(x, y);
    AmountRegroup(s, i, m, x + "," + y);
    SpliceInsert(s, a, k, dot);
  }

  /** Removing a comma from the digits-and-commas part of the leftmost
      amount does not change the amount, as long as something is left of
      that part. */
  lemma AmountCommaRemove(s: string, i: nat, m: AmountMatch, k: nat)
    requires IsLeftmost(AmountFoundAt, s, Some(i)) && AmountAt(s, i) == Some(m)
    requires m.at <= k < m.Dot() && s[k] == ',' && |m.whole| >= 2
    ensures AmountValue(s[..k] + s[k + 1..]) == AmountValue(s)
  {
    AmountAtShape(s, i, m);
    AmountAtDigits(s, i, m);
    var a, dot := m.at, m.Dot();
    var x, y := s[a..k], s[k + 1..dot];
    SliceSplitComma(s, a, k, dot);
    CommaInsertInvisible(x, y);
    CommaRemoveDigits(x, y);
    AmountRegroup(s, i, m, x + y);
    SpliceRemove(s, a, k, dot);
  }

  lemma SliceSplit(s: string, a: nat, k: nat, e: nat)
    requires a <= k <= e <= |s|
    ensures s[a..e] == s[a..k] + s[k..e]
  {
  }

  lemma SliceSplitComma(s: string, a: nat, k: nat, e: nat)
    requires a <= k < e <= |s| && s[k] == ','
    ensures s[a..e] == s[a..k] + "," + s[k + 1..e]
  {
    assert s[k..e] == [s[k]] + s[k + 1..e];
    assert s[a..e] == s[a..k] + s[k..e];
  }

  lemma SpliceInsert(s: string, a: nat, k: nat, e: nat)
    requires a <= k <= e <= |s|
    ensures s[..a] + (s[a..k] + "," + s[k..e]) + s[e..] == s[..k] + "," + s[k..]
  {
    assert s[..k] == s[..a] + s[a..k];
    assert s[k..] == s[k..e] + s[e..];
  }

  lemma SpliceRemove(s: string, a: nat, k: nat, e: nat)
    requires a <= k < e <= |s|
    ensures s[..a] + (s[a..k] + s[k + 1..e]) + s[e..] == s[..k] + s[k + 1..]
  {
    assert s[..k] == s[..a] + s[a..k];
    assert s[k + 1..] == s[k + 1..e] + s[e..];
  }
}
