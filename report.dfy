/** The end of a run (main.py:110-112, 161-227): the daily report, or the
    notice that there were no transactions, or the error notice, is sent,
    and the run answers with a result record. The page, the clock and the
    outcome of the Telegram send are inputs. */
module Report {
  import opened Text
  import opened Extractor
  import opened Aggregator

  /** What the browser part of the run delivers: the text of the ledger
      container, no container at all, or the exception it raised. */
  datatype Page = Rendered(text: string) | NoContainer | Raised(error: string)

  /** The rejected section of the report: how many and how much. */
  datatype RejectedNote = RejectedNote(count: nat, total: real)

  /** The messages the run sends. Amounts are kept exact; their rendering
      with `:,.2f` and the fixed lines of the report are not modelled. */
  datatype Message =
    | DailyReport(date: string, morningCount: nat, morningTotal: real,
                  afternoonCount: nat, afternoonTotal: real,
                  rejected: Option<RejectedNote>, validCount: nat, grandTotal: real)
    | NoTransactions(stamp: string)
    | ErrorNotice(text: string)

  /** The dictionary the run returns: `success` and whichever of `message`,
      `transacciones` and `error` it sets. */
  datatype Outcome = Outcome(success: bool, message: Option<string>, transactions: Option<nat>, error: Option<string>)

  /** The messages sent, in order, and the result. */
  datatype Run = Run(sent: seq<Message>, outcome: Outcome)

  const ErrorPrefix: string := "Error en bot Redeban: "

  /** At most this many characters of the exception go into the notice. */
  const ErrorCut: nat := 100

  /** `f"Error en bot Redeban: {str(e)[:100]}"` */
  function ErrorText(e: string): (r: string)
    ensures |r| == |ErrorPrefix| + (if |e| < ErrorCut then |e| else ErrorCut)
    ensures r[..|ErrorPrefix|] == ErrorPrefix
    ensures r[|ErrorPrefix|..] == e[..|r| - |ErrorPrefix|]
  {
    ErrorPrefix + e[..if |e| < ErrorCut then |e| else ErrorCut]
  }

  /** `msg` of the report: the two buckets, the rejected section when there
      are rejected records, and the day's total over the accepted records. */
  function ReportOf(today: string, accepted: seq<Transaction>, rejected: seq<Transaction>): Message {
    var s := Summarize(accepted, rejected);
    var note := if rejected != [] then Some(RejectedNote(|rejected|, s.rejectedTotal)) else None;
    DailyReport(today, |s.morning|, s.morningTotal, |s.afternoon|, s.afternoonTotal,
                note, |accepted|, s.grandTotal)
  }

  /** The report's figures: the morning section counts and sums the morning
      bucket and the afternoon section the afternoon bucket; together they
      count and sum the accepted records; the rejected section is there
      exactly when some record was rejected and then counts and sums those,
      and no rejected amount is in the day's total. */
  lemma ReportFigures(today: string, accepted: seq<Transaction>, rejected: seq<Transaction>)
    ensures var m := ReportOf(today, accepted, rejected);
      && m.DailyReport? && m.date == today
      && m.morningCount == |Filter(accepted, InMorning)|
      && m.morningTotal == Sum(Filter(accepted, InMorning))
      && m.afternoonCount == |Filter(accepted, InAfternoon)|
      && m.afternoonTotal == Sum(Filter(accepted, InAfternoon))
      && m.morningCount + m.afternoonCount == m.validCount == |accepted|
      && m.morningTotal + m.afternoonTotal == m.grandTotal == Sum(accepted)
      && (m.rejected.Some? <==> rejected != [])
      && (m.rejected.Some? ==> m.rejected.value == RejectedNote(|rejected|, Sum(rejected)))
  {
    SummaryTotals(accepted, rejected);
  }

  /** What happens once the records are extracted: with records, the report
      is sent and the result is the outcome of the send; without, the
      notice is sent, its outcome is ignored, and the run fails. */
  function Conclude(accepted: seq<Transaction>, rejected: seq<Transaction>,
                    today: string, stamp: string, sendOk: bool): Run {
    if accepted != [] then
      var msg := ReportOf(today, accepted, rejected);
      if sendOk then Run([msg], Outcome(true, Some("Informe enviado"), Some(|accepted|), None))
      else Run([msg], Outcome(false, Some("Error al enviar Telegram"), None, None))
    else
      Run([NoTransactions(stamp)], Outcome(false, Some("No se encontraron transacciones"), None, None))
  }

  /** The whole run on the delivered page. `today` is the date of the
      report, `stamp` the date and time of the no-transactions notice, and
      `sendOk` what sending the report returns. */
  function Respond(page: Page, today: string, stamp: string, sendOk: bool): Run {
    match page
    case Raised(e) => Run([ErrorNotice(ErrorText(e))], Outcome(false, None, None, Some(e)))
    case NoContainer => Run([], Outcome(false, Some("No se pudo extraer datos"), None, None))
    case Rendered(text) =>
      Conclude(AcceptedOf(Segments(text)), RejectedOf(Segments(text)), today, stamp, sendOk)
  }

  /** The run: the extraction loop, then the ending. */
  method ProcessLedger(page: Page, today: string, stamp: string, sendOk: bool) returns (run: Run)
    ensures run == Respond(page, today, stamp, sendOk)
  {
    match page {
      case Raised(e) =>
        run := Run([ErrorNotice(ErrorText(e))], Outcome(false, None, None, Some(e)));
      case NoContainer =>
        run := Run([], Outcome(false, Some("No se pudo extraer datos"), None, None));
      case Rendered(text) =>
        var accepted, rejected := ExtractTransactions(text);
        run := Conclude(accepted, rejected, today, stamp, sendOk);
    }
  }

  /** A run succeeds exactly when the page was read, at least one record was
      accepted and the report was sent; only then does it report how many
      transactions it counted, and that is the number of accepted records.
      A missing container gives the "No se pudo extraer datos" failure, and
      the result carries an error exactly when an exception was raised. */
  lemma SuccessExactly(page: Page, today: string, stamp: string, sendOk: bool)
    ensures var o := Respond(page, today, stamp, sendOk).outcome;
      && (o.success <==>
            page.Rendered? && AcceptedOf(Segments(page.text)) != [] && sendOk)
      && (o.transactions.Some? <==> o.success)
      && (o.success ==> o.transactions == Some(|AcceptedOf(Segments(page.text))|))
      && (o.success ==> o.message == Some("Informe enviado"))
      && (page.NoContainer? ==> o == Outcome(false, Some("No se pudo extraer datos"), None, None))
      && (!page.Raised? <==> o.error == None)
  {
  }

  /** A page on which no record was accepted, even one with rejected
      records, ends with the no-transactions notice and a failure. */
  lemma NothingAccepted(text: string, today: string, stamp: string, sendOk: bool)
    requires AcceptedOf(Segments(text)) == []
    ensures Respond(Rendered(text), today, stamp, sendOk) ==
      Run([NoTransactions(stamp)], Outcome(false, Some("No se encontraron transacciones"), None, None))
  {
  }

  /** When the page holds a record, exactly the daily report is sent, with
      its figures over the records of that page; the result then depends
      only on the send. */
  lemma ReportSent(text: string, today: string, stamp: string, sendOk: bool)
    requires AcceptedOf(Segments(text)) != []
    ensures var r := Respond(Rendered(text), today, stamp, sendOk);
      && r.sent == [ReportOf(today, AcceptedOf(Segments(text)), RejectedOf(Segments(text)))]
      && (!sendOk ==> r.outcome == Outcome(false, Some("Error al enviar Telegram"), None, None))
  {
  }

  /** An exception ends the run with the error notice alone, which carries
      exactly the first min(100, |e|) characters of the exception, and a
      result that carries all of it. */
  lemma ErrorPath(e: string, today: string, stamp: string, sendOk: bool)
    ensures var r := Respond(Raised(e), today, stamp, sendOk);
      && r.outcome == Outcome(false, None, None, Some(e))
      && r.sent == [ErrorNotice(ErrorText(e))]
      && |r.sent[0].text| == |ErrorPrefix| + (if |e| < ErrorCut then |e| else ErrorCut)
      && r.sent[0].text == ErrorPrefix + e[..|r.sent[0].text| - |ErrorPrefix|]
      && (|e| <= ErrorCut ==> r.sent[0].text == ErrorPrefix + e)
  {
    var t := ErrorText(e);
    assert t == t[..|ErrorPrefix|] + t[|ErrorPrefix|..];
    if |e| <= ErrorCut {
      assert e[..|e|] == e;
    }
  }

  /** Without a container nothing is sent. Every other run sends exactly
      one message, and the report is among them exactly when the run
      accepted a record. */
  lemma MessagesSent(page: Page, today: string, stamp: string, sendOk: bool)
    ensures var r := Respond(page, today, stamp, sendOk);
      && (page.NoContainer? <==> r.sent == [])
      && (!page.NoContainer? ==> |r.sent| == 1)
      && ((exists k :: 0 <= k < |r.sent| && r.sent[k].DailyReport?) <==>
            page.Rendered? && AcceptedOf(Segments(page.text)) != [])
  {
    var r := Respond(page, today, stamp, sendOk);
    if page.Rendered? && AcceptedOf(Segments(page.text)) != [] {
      assert r.sent[0].DailyReport?;
    }
  }

  /** A report that is sent has a positive total, every accepted amount
      being positive. */
  lemma ReportTotalPositive(text: string, today: string)
    requires AcceptedOf(Segments(text)) != []
    ensures ReportOf(today, AcceptedOf(Segments(text)), RejectedOf(Segments(text))).grandTotal > 0.0
  {
    var segs := Segments(text);
    ExtractedRecords(segs);
    SumPositive(AcceptedOf(segs));
    ReportFigures(today, AcceptedOf(segs), RejectedOf(segs));
  }
}
