# Cross-venue spread monitor (DEBT_USDT futures, MEXC vs LBank)

This project models the signal pipeline of the polling loop in `main2.py`.
Each tick reads four prices off two exchanges' order-book pages: the MEXC
sell and buy prices and the LBank sell and buy prices. It compares one of
two cross-venue pairs and prints an alert when the pair's percentage spread
is strictly above 1.5% and the alert text differs from the last one printed.

Modules, in dependency order:

- `Wrappers` (`wrappers.dfy`): `Option` and `Result`.
- `Extraction` (`extraction.dfy`): the per-field reads with the zero
  sentinel. The two sell fields walk order-book rows 1..19 and keep the
  last row read before the first failure. The MEXC buy field is read once.
  The LBank buy field re-reads one cell nineteen times.
- `Spread` (`spread.dfy`): the choice of direction and the percentage spread.
- `Signal` (`signal.dfy`): the candidate, the strict threshold, the
  deduplication gate and one tick as a pure step.
- `Polling` (`polling.dfy`): the class `Monitor`. It holds the last alert
  and runs ticks imperatively. The `Run` function is the specification of
  a finite run, and lemmas about the alert history sit beside it.

Each page read is an `Option<real>`. `None` stands for an element that is
not found or text that does not parse as a float; the source catches both
in the field's `except`. The printed text is modelled by the key
`(direction, p1, p2)`. The text shows the direction's colours (green and
red swap between the two branches), the two prices and the two differences,
which are functions of the prices. The timestamp is appended only when
printing. So two candidates print the same text exactly when their keys
are equal. The initial empty text is `None`, which equals no key.

Three behaviours of the code are worth stating outright:

- Ties: when the two gaps are equal, the strict `<` at main2.py:81 is
  false and the `else` branch (main2.py:100) compares MEXC sell against
  LBank buy.
- The zero sentinel of a failed field is not filtered out. If every LBank
  read fails while MEXC's prices are positive, the chosen pair compares a
  MEXC price with 0 and the spread is 200%. That alerts unless the same text
  was the last alert printed (`Signal.DeadVenueReportsFullSpread`).
- A zero price sum raises in the division. The error is caught and printed
  (main2.py:96-98, 116-118); this is the `Fault` outcome, and the last
  alert is kept.

## Model

| member | source | states |
|---|---|---|
| Extraction.ReadableRun | main2.py:39-44 | the number of successful reads from row 1 on, capped at the row limit: every counted row read successfully, and the next row (if within the limit and present) failed |
| Extraction.LadderPrice | main2.py:38-44 | a ladder (or the repeated LBank buy reads, main2.py:64-70, or the LBank sell ladder, main2.py:55-61) whose first row fails gives 0; otherwise the price is the value of one of the first 19 rows |
| Extraction.SinglePrice | main2.py:46-51 | the MEXC buy field, read once, holds what a ladder of that one row would give: the value read, or 0 when the read fails |
| Extraction.ReadLadder | main2.py:38-44 | walking rows 1..19, overwriting on success and leaving at the first failure, yields `LadderPrice`: the last row read before the first failure, or 0 |
| Extraction.FirstRowFailureGivesSentinel | main2.py:31-44 | a ladder whose row 1 fails leaves the field at 0 |
| Extraction.LadderPriceIsLastBeforeFailure | main2.py:55-61 | if rows 1..n read successfully and row n+1 fails (or n is 19, or the ladder ends), the field holds row n's price |
| Extraction.LaterRowsNeverOverride | main2.py:55-61 | after a failed row, later rows cannot change the field: ladders that agree up to the failed row give the same price |
| Extraction.RepeatedReadIsSingleRead | main2.py:64-70 | re-reading the same LBank buy cell nineteen times gives the value of one read, or 0 if it fails |
| Extraction.ReadQuotes | main2.py:31-75 | reading the four fields in four separate steps yields exactly `Normalize`, so each price depends only on its own field's reads |
| Extraction.FieldReadsAreIsolated | main2.py:38-70 | replacing one field's reads by any others (failing ones included) changes that field alone, to what the new reads give; the other three fields keep their values |
| Spread.Gap | main2.py:77-78 | a direction's gap is the larger of its two prices minus the smaller |
| Spread.ChooseDirection | main2.py:77-81 | the chosen direction's gap is no larger than the other direction's gap, and equal gaps choose MEXC sell against LBank buy |
| Spread.ChooseDirectionStrict | main2.py:81-105 | MEXC buy against LBank sell is chosen if and only if its gap is strictly smaller |
| Spread.SpreadPercent | main2.py:86-87 | the spread raises exactly when the prices sum to zero; otherwise spread × (p1 + p2) = 200 × abs(p1 − p2) |
| Spread.SpreadSymmetric | main2.py:106-107 | swapping the two prices gives the same spread or the same error |
| Spread.SpreadBounds | main2.py:84-87 | for any positive price sum the spread is non-negative; for non-negative prices it is at most 200, and equals 200 exactly when one price is the 0 sentinel |
| Spread.EqualPricesHaveNoSpread | main2.py:104-107 | equal non-zero prices give a 0% spread |
| Signal.CandidateOf | main2.py:77-107 | the candidate carries the chosen direction and that direction's prices (MEXC buy with LBank sell at main2.py:84-85, MEXC sell with LBank buy at main2.py:104-105); it is an error exactly when those prices sum to zero, and otherwise its percentage is their spread |
| Signal.Gate | main2.py:88-95 | alerts if and only if the spread is strictly above 1.5 and the key differs from the last alert; after an alert the last alert is the new key, otherwise it is unchanged; at or below 1.5 the outcome is below-threshold; above 1.5 with the last alert's key it is a suppressed repeat |
| Signal.Step | main2.py:81-118 | a tick faults exactly when the candidate errs; it alerts if and only if the candidate is strictly above 1.5 and differs from the last alert; an alert stores the candidate's key; any other outcome keeps the last alert |
| Signal.ZeroSumFaults | main2.py:83-98 | when the chosen prices sum to zero the tick faults with a division by zero and keeps the last alert |
| Signal.SameQuotesTwiceAlertOnce | main2.py:93-95 | the same quotes on two consecutive ticks never alert on the second tick, and the second tick changes no state |
| Signal.RearmsAfterRepeat | main2.py:113-115 | after a suppressed duplicate, a different candidate above 1.5 alerts and becomes the last alert |
| Signal.FirstCandidateAboveThresholdAlerts | main2.py:25-95 | from the initial empty text, any candidate above 1.5 alerts |
| Signal.ThresholdIsStrict | main2.py:88 | a spread of exactly 1.5 does not alert and changes no state |
| Signal.DeadVenueReportsFullSpread | main2.py:35-88 | when every LBank read fails and both MEXC prices are positive, the candidate compares a MEXC price with 0 at 200%, and it alerts unless it repeats the last alert |
| Signal.AllReadsFailedFaults | main2.py:31-98 | when all four fields fail, the tick faults and keeps the last alert |
| Signal.SmallerGapHidesOpportunity | main2.py:77-108 | for quotes MEXC 100/98 and LBank 103/100, the unchosen direction is above 1.5% but the chosen one is 0% and nothing alerts |
| Polling.Run | main2.py:25-118 | a run of n ticks has n outcomes, and the remembered text afterwards is that of the latest alert printed, or the initial one if there was none |
| Polling.RunExtends | main2.py:27-118 | running the first i ticks and then tick i, by one step from the remembered alert, is the run of the first i + 1 ticks |
| Polling.RunPrefix | main2.py:27 | the first j ticks of a run produce the same outcomes as a run of those j ticks alone |
| Polling.StateBeforeTick | main2.py:93-95 | the outcome of tick j is that tick's step from the latest alert among the first j outcomes |
| Polling.AlertsNeverRepeat | main2.py:113-115 | every alert in a run differs from the latest alert before it, or from the initial text |
| Polling.FirstAboveThresholdAlerts | main2.py:24-95 | starting from the empty text, the first tick whose candidate is above 1.5 alerts |
| Polling.Monitor.constructor | main2.py:25 | the monitor starts with no last alert (the empty text) |
| Polling.Monitor.Tick | main2.py:27-118 | one loop iteration's outcome and new last alert are exactly `Step` on the tick's normalised quotes |
| Polling.Monitor.RunTicks | main2.py:27 | a finite stretch of the loop produces exactly the outcomes and final state of `Run` |

## Left out

- Browser sessions: the Chrome drivers, page loads, XPath lookups and `driver.quit()` (main2.py:1-22, 121-123). Each lookup-and-parse is an abstract `Option<real>` read.
- Output: colours, the Persian-calendar timestamp and `print` (main2.py:5-9, 94, 114). An alert is the outcome `Alert(key, pct)`, and a caught error is `Fault`.
- Floating point: prices are exact `real`s. IEEE-754 rounding, NaN and infinities are not modelled, and neither is the string rendering of floats (`str`, `:.5f`, `:.2f`). The rendered text is assumed injective in `(direction, p1, p2)`.
- Spread.SpreadPercent: states the spread exactly over the reals, not the rounded float the source computes.
- The unbounded `while True` (main2.py:27): `RunTicks` and `Run` cover any finite prefix of ticks.
- The commented-out single-price reads (main2.py:29-30) are dead code.
- Exceptions raised by `print` itself inside the `try` blocks are not modelled.
