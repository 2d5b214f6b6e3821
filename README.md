# Redeban ledger report, modelled in Dafny

The bot logs into the Redeban merchant portal, reads the day's ledger page
as plain text, and builds a report for a Telegram chat. This project models
what happens between reading the page and answering the request
(`procesar_redeban`, main.py:110-227):

- **Extraction.** The page text is cut at every label
  "Nro de transacción:", and the part before the first label is dropped.
  Each remaining segment is searched for:
  - a transaction number: the digits at the very start, cut to 15
    characters, or "N/A";
  - the first date `DDDD-DD-DD`;
  - the first time `DD:DD`;
  - the first amount `$ 1,234.56`.

  A segment that contains "RECHAZADA" is rejected. A segment is kept only
  when it has a date, a time and a positive amount. Kept records go, in
  page order, to the accepted list or to the rejected list.
- **Classification.** Accepted records are put in the morning bucket (before
  12:30) or the afternoon bucket by their time. Each bucket is summed, the
  day's total is the sum of the two buckets, and the rejected records are
  summed apart.
- **Ending.**
  - With accepted records, the daily report is sent. It has a rejected
    section only when something was rejected. The run succeeds only if the
    send succeeds.
  - Without accepted records, a "Sin transacciones" notice is sent and the
    run fails, whether or not anything was rejected.
  - Without a page container, nothing is sent.
  - An exception sends an error notice with at most 100 characters of the
    exception.

Modules, in dependency order:

| module | file | contents |
|---|---|---|
| `Text` | text.dfy | character classes, runs (`Span`), substring search, comma removal |
| `Regex` | regex.dfy | the three search patterns at one position, leftmost search (`re.search`) |
| `Decimal` | decimal.dfy | exact values of digit strings and decimal numerals |
| `Splitting` | split.dfy | `str.split` and `join` |
| `Fields` | fields.dfy | number, date, time and amount of one segment |
| `Extractor` | extractor.dfy | segment parsing and the extraction loop (a method) |
| `Aggregator` | aggregator.dfy | hour and minute, buckets, sums |
| `Report` | report.dfy | report contents, messages sent, the result record |
| `Sample` | sample.dfy | one segment worked through field by field |

Amounts are exact rationals (`real`). A Python float is not exact, so a
float sum may differ from the exact one in its last bits, and a tiny
amount can read as zero ("## Left out", Floating point).

## Behaviour worth knowing

These follow from the code and are proved or visible in the model:

- **Number at the very start.** The number is read only at the very first
  character of a segment, because the pattern is `^([0-9]+)` with no
  whitespace skipped. A segment that starts with " 123" has the number
  "N/A" (`Fields.TransactionIdSpec`).
- **Times are not range-checked.** "99:99" is a time. "11:95" falls in the
  morning bucket although it reads as 12:35. "Before 12:30" describes the
  morning bucket only for minutes below 60
  (`Aggregator.MorningBeforeHalfPastTwelve`).
- **What counts as an amount.** An amount of only zeros ("$0.00") or with
  no digit before the dot ("$,.5") is read as a value. It keeps its
  segment only if some digit is not zero (`Fields.AmountPositive`). Only
  the leftmost `$` match counts: a segment whose first amount is zero is
  dropped even if a later amount is positive.
- **Rejected is a substring test.** "RECHAZADA" anywhere in the segment
  rejects it, also inside another word.
- **Swallowed exceptions.** The
  bare `except: pass` around each segment (main.py:159-160) catches nothing
  here. With ASCII digits nothing inside the `try` (main.py:123-158) can
  raise: the amount's group with its commas removed is digits, a dot and
  digits, which `float` always accepts.

## Model

| member | source | states |
|---|---|---|
| `Splitting.SplitJoin` | main.py:116 | `Splitting.Split` (`str.split`): joining its pieces with the label gives back the page text |
| `Splitting.SplitPiecesFree` | main.py:116 | no piece of the split contains the label |
| `Splitting.SplitCount` | main.py:116 | for a separator that cannot overlap itself, there is one piece more than there are occurrences |
| `Text.IndexOfSpec` | main.py:137 | `Text.IndexOf` (the `in` test of `Extractor.ParseSegment`) finds the first occurrence, and finds none exactly when the word is not in the text |
| `Text.RemoveCommasSpec` | main.py:134 | `Text.RemoveCommas` (`replace(',', '')`) leaves no comma and shortens the text exactly when it had one |
| `Text.RemoveCommasChar` | main.py:134 | a single character is dropped when it is a comma and kept otherwise; with `Text.RemoveCommasAppend` (removal distributes over concatenation) this fixes `Text.RemoveCommas` on every text: all other characters stay, in order |
| `Regex.SearchSpec` | main.py:124-133 | `Regex.Search` (`re.search`) returns the leftmost position where the pattern matches, or none when it matches nowhere |
| `Regex.LeftmostUnique` | main.py:124-133 | there is only one leftmost match |
| `Regex.AmountAtShape` | main.py:133 | a match found by `Regex.AmountAt` for `\$\s*([\d,]+\.\d+)` is a `$`, whitespace, non-empty digits and commas, a dot, and a maximal non-empty run of digits |
| `Regex.AmountAtIntro` | main.py:133 | every text of that shape is matched, with exactly that group |
| `Decimal.NatValueBounds` | main.py:134 | `Decimal.NatValue`, a digit string's value, is below 10^length, and is positive exactly when some digit is not zero |
| `Decimal.NatValueAppend` | main.py:134 | digits written after others shift them one place each: the value of `w + f` is the value of `w` times 10^|f| plus the value of `f` |
| `Decimal.DecimalValueProperties` | main.py:134 | of `Decimal.DecimalValue` (`float` of the comma-free numeral, exactly): the integer part is the digits before the dot; the numeral is positive exactly when one of its digits is not zero |
| `Decimal.DecimalValueDigits` | main.py:134 | a numeral `w.f` is worth its digits read without the dot, divided by 10^|f| |
| `Fields.TransactionId` | main.py:124-125 | the number is at most 15 characters long |
| `Fields.TransactionIdSpec` | main.py:124-125 | "N/A" unless the segment starts with a digit; otherwise the leading digits, cut to 15 |
| `Fields.DateTextSpec` | main.py:127-128 | `Fields.DateText` is empty exactly when no date occurs; otherwise it is the leftmost `DDDD-DD-DD` |
| `Fields.ClockText` | main.py:130-131 | a non-empty time has the shape `DD:DD` |
| `Fields.ClockTextSpec` | main.py:130-131 | the time is empty exactly when none occurs; otherwise it is the leftmost `DD:DD` |
| `Fields.LeftmostValue` | main.py:133-134 | `Fields.AmountValue` is `Fields.MatchValue` of the leftmost match of the amount pattern: the value of its group with the commas removed |
| `Fields.AmountPositive` | main.py:133-134 | `Fields.AmountValue`: no match gives 0; the amount is positive exactly when a leftmost match exists and one of its digits is not zero |
| `Fields.AmountRegroup` | main.py:133-134 | rewriting the digits and commas of the leftmost amount with any that spell the same digits leaves the amount unchanged |
| `Fields.AmountCommaInsert` | main.py:133-134 | inserting a comma in the integer part of the leftmost amount does not change the amount |
| `Fields.AmountCommaRemove` | main.py:133-134 | removing a comma from the integer part of the leftmost amount, when something is left of it, does not change the amount |
| `Extractor.ParseSegmentSpec` | main.py:124-140 | through `Extractor.ParseSegment` a segment becomes a record exactly when it has a date, a time and a positive amount; the record carries those fields and the number, and is rejected exactly when the segment contains "RECHAZADA" |
| `Extractor.SegmentCount` | main.py:116-122 | `Extractor.Segments` (`bloques[1:]`) has one segment per label in the text |
| `Extractor.SegmentsCover` | main.py:116-122 | no segment contains the label, and the dropped header, the labels and the segments spell the text back |
| `Extractor.ExtractTransactions` | main.py:114-160 | the loop produces exactly `Extractor.AcceptedOf` and `Extractor.RejectedOf` of the segments, the records of each status in segment order |
| `Extractor.Place` | main.py:140-158 | a kept record is appended to the list of its status, and nothing else changes |
| `Extractor.ExtractStep` | main.py:122-158 | one more turn of the loop adds to each list exactly what the next segment contributes |
| `Extractor.ParseAllAt` | main.py:122-140 | the k-th parse is the parse of the k-th segment |
| `Extractor.OrderKept` | main.py:122-158 | the lists of two runs of segments side by side are the lists of each run, one after the other |
| `Extractor.CollectMember` | main.py:140-158 | a record is in the list of a status exactly when some parse is that record with that status |
| `Extractor.CountBound` | main.py:122-158 | the two lists together hold at most one record per segment, and exactly one per segment when every segment parses |
| `Extractor.RejectedExactly` | main.py:136-158 | a parsed record is in the rejected list exactly when its segment contains "RECHAZADA", and in the accepted list exactly when it does not |
| `Extractor.Membership` | main.py:140-158 | every record in a list comes from a segment that parses to it with that status, and no record is in both lists |
| `Aggregator.ClockSplit` | main.py:168-169 | `hora.split(':')` of a time gives the two digits before and the two after the colon |
| `Aggregator.ClockFields` | main.py:168-169 | `Aggregator.Hour` and `Aggregator.Minute`, the hour and the minutes, are the two-digit numbers on either side of the colon, each at most 99 |
| `Aggregator.BucketsSplitTheDay` | main.py:168-169 | every record satisfies exactly one of `Aggregator.InMorning` and `Aggregator.InAfternoon` |
| `Aggregator.MorningBeforeHalfPastTwelve` | main.py:168 | for minutes below 60, the morning bucket is exactly the times before 12:30 |
| `Aggregator.FilterMember` | main.py:168-169 | `Aggregator.Filter` (the two comprehensions): a bucket holds a record exactly when the list holds it and it satisfies the bucket's test |
| `Aggregator.FilterAppend` | main.py:168-169 | a bucket keeps the order of the list |
| `Aggregator.BucketsPartition` | main.py:168-173 | the two buckets' counts, contents (as multisets) and `Aggregator.Sum` totals (`sum(...)`) add up to those of the accepted list |
| `Aggregator.SumPositive` | main.py:171-174 | a sum of positive amounts is positive exactly when the list is not empty |
| `Aggregator.SummaryTotals` | main.py:168-174 | in `Aggregator.Summarize` `mañana` holds exactly the accepted morning records and `tarde` exactly the accepted afternoon ones, every accepted record once; each bucket total is the sum of its own bucket; the grand total is the bucket totals' sum and the sum of the accepted amounts; the rejected total is summed apart |
| `Aggregator.ExtractedRecords` | main.py:140-158 | every accepted record has a positive amount and the accepted status; every rejected one a positive amount and the rejected status |
| `Report.ErrorText` | main.py:225 | the notice is the prefix followed by the first min(100, length) characters of the exception |
| `Report.ReportFigures` | main.py:181-200 | in `Report.ReportOf` the morning section gives the count and sum of the morning bucket and the afternoon section those of the afternoon bucket; together they count and sum the accepted records; the rejected section is present exactly when there are rejected records and then gives their count and sum |
| `Report.ProcessLedger` | main.py:110-227 | the run, with the extraction loop, produces exactly what `Report.Respond` (with `Report.Conclude` once the records are extracted) specifies |
| `Report.SuccessExactly` | main.py:166-227 | `Report.Respond` succeeds exactly when a page was read, a record was accepted and the send succeeded; only then is a count given, equal to the number of accepted records; without a container the result is the failure "No se pudo extraer datos"; the result carries an error exactly when an exception was raised |
| `Report.NothingAccepted` | main.py:209-216 | with no accepted record, even with rejected ones, only the no-transactions notice is sent and the result is the failure "No se encontraron transacciones" |
| `Report.ReportSent` | main.py:203-208 | with an accepted record, exactly the daily report is sent, and a failed send gives "Error al enviar Telegram" |
| `Report.ErrorPath` | main.py:220-227 | an exception sends exactly one message, the notice `Report.ErrorText(e)`: the prefix followed by exactly the first min(100, length) characters of the exception (all of it when it is that short); the result returns it whole as `error` |
| `Report.MessagesSent` | main.py:110-227 | without a container nothing is sent; otherwise exactly one message, and it is the report exactly when a record was accepted |
| `Report.ReportTotalPositive` | main.py:173-200 | a report that is sent has a positive day's total |
| `Sample.SampleRecord` | main.py:122-169 | the segment "123456789 2025-06-01 09:15 x $ 1,250.00 y" parses to the accepted record with number "123456789", date "2025-06-01", time "09:15" and amount exactly 1250, which is a morning record |
| `Sample.SampleAmount` | main.py:133-134 | the amount of that segment is exactly 1250: the comma in "1,250.00" is dropped |

## Left out

- Browser automation: the logins, clicks, waits and page selection before
  main.py:110. The page is an input with three cases: the container's
  text, no container, or the exception the browser part raised.
- Telegram: the HTTP call (`enviar_telegram`) is out of scope. Its result
  for the daily report is a boolean input. The messages sent are recorded
  as values.
- Flask endpoint, environment variables and configuration are not
  modelled. They include the merchant code printed in the report.
- `datetime.now`: the report date and the timestamp of the "Sin
  transacciones" notice are input strings.
- Text rendering of the messages: the fixed lines, the HTML tags and the
  `:,.2f` amount format are not modelled. A message carries its counts and
  exact amounts instead.
- Floating point: amounts and sums are exact rationals. A float sum may
  differ from the exact one in its last bits. Also, `float()` reads an
  amount with more than about 324 zeros after the dot before its first
  non-zero digit as 0.0, so main.py:140 drops that segment, while the
  model keeps it with its exact positive amount. An amount with more than
  about 308 digits before the dot reads as `inf`.
- Logging and `traceback.print_exc()`: no effect on the result.
- `browser.close()` in the `finally` block, and exceptions raised by the
  Telegram call itself, are not modelled.
- Unicode digits: `\d` is modelled as the ASCII digits `0`-`9`. Python's
  `\d` on a `str` also matches other decimal digits, such as Arabic-Indic
  ones. `\s` is modelled as the characters for which `str.isspace()`
  holds.
- `Report.ProcessLedger`: the exception path covers exceptions from the
  browser part only. No step of the modelled core can raise: the amount
  text is always a valid float, and both halves of a `DD:DD` time, split
  at main.py:168-169, are valid ints.
- `Aggregator.MorningBeforeHalfPastTwelve` requires minutes below 60,
  because the source does not range-check times.
