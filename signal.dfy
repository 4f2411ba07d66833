/**
 * The per-tick decision (main2.py:81-118): the candidate of the chosen
 * direction, the strict 1.5% threshold and the deduplication against the
 * last alert printed.
 *
 * The alert text embeds the direction's colours and the two prices (the
 * absolute and percentage differences printed beside them are functions
 * of those prices), and the timestamp is appended only when printing, so
 * two candidates render the same text exactly when they have the same
 * `Key`. The model compares keys where the source compares texts.
 */
module Signal {
  import opened Wrappers
  import opened Extraction
  import opened Spread

  /** Alerts are raised only above this percentage, strictly. */
  const Threshold: real := 1.5

  /** What identifies an alert's text, timestamp excluded. */
  datatype Key = Key(direction: Direction, p1: real, p2: real)

  /** The direction chosen for a tick, its prices and their spread. */
  datatype Candidate = Candidate(key: Key, pct: real)

  /** What a tick does. */
  datatype Outcome =
    | Alert(key: Key, pct: real)  // a new alert is printed
    | Repeat(key: Key)            // above the threshold, but the same text as the last alert
    | BelowThreshold(pct: real)   // nothing to report
    | Fault(error: SpreadError)   // the spread raised; the error is printed

  /** A tick's outcome and the last alert remembered afterwards (`None`
      until the first alert, where the source holds the empty text). */
  datatype Transition = Transition(outcome: Outcome, last: Option<Key>)

  /** The candidate the quotes of a tick yield, or the error computing it raises. */
  function CandidateOf(q: Quotes): (r: Result<Candidate, SpreadError>)
    ensures r.Err? <==> Prices(q, ChooseDirection(q)).0 + Prices(q, ChooseDirection(q)).1 == 0.0
    ensures r.Ok? ==> r.value.key.direction == ChooseDirection(q)
    ensures r.Ok? ==> (r.value.key.p1, r.value.key.p2) == Prices(q, ChooseDirection(q))
    ensures r.Ok? ==> SpreadPercent(r.value.key.p1, r.value.key.p2) == Ok(r.value.pct)
  {
    var d := ChooseDirection(q);
    var (p1, p2) := Prices(q, d);
    match SpreadPercent(p1, p2)
    case Err(e) => Err(e)
    case Ok(pct) => Ok(Candidate(Key(d, p1, p2), pct))
  }

  /** The threshold test followed by the deduplication against `last`. */
  function Gate(last: Option<Key>, c: Candidate): (t: Transition)
    ensures t.outcome.Alert? <==> c.pct > Threshold && last != Some(c.key)
    ensures t.outcome.Alert? ==> t.outcome == Alert(c.key, c.pct) && t.last == Some(c.key)
    ensures !t.outcome.Alert? ==> t.last == last
    ensures c.pct <= Threshold ==> t.outcome == BelowThreshold(c.pct)
    ensures c.pct > Threshold && last == Some(c.key) ==> t.outcome == Repeat(c.key)
  {
    if c.pct > Threshold then
      if last != Some(c.key) then Transition(Alert(c.key, c.pct), Some(c.key))
      else Transition(Repeat(c.key), last)
    else Transition(BelowThreshold(c.pct), last)
  }

  /** One tick on already normalised quotes. */
  function Step(last: Option<Key>, q: Quotes): (t: Transition)
    ensures t.outcome.Fault? <==> CandidateOf(q).Err?
    ensures t.outcome.Alert? <==>
      CandidateOf(q).Ok? && CandidateOf(q).value.pct > Threshold && last != Some(CandidateOf(q).value.key)
    ensures t.outcome.Alert? ==> t.last == Some(CandidateOf(q).value.key)
    ensures !t.outcome.Alert? ==> t.last == last
  {
    match CandidateOf(q)
    case Err(e) => Transition(Fault(e), last)
    case Ok(c) => Gate(last, c)
  }

  /** When the chosen prices sum to zero the tick ends on the error path:
      nothing is printed but the error, and the last alert is kept. */
  lemma ZeroSumFaults(last: Option<Key>, q: Quotes)
    requires Prices(q, ChooseDirection(q)).0 + Prices(q, ChooseDirection(q)).1 == 0.0
    ensures Step(last, q) == Transition(Fault(DivisionByZero), last)
  {
  }

  /** The same quotes on two consecutive ticks never alert twice: the
      second tick is suppressed whatever the first did. */
  lemma SameQuotesTwiceAlertOnce(last: Option<Key>, q: Quotes)
    ensures !Step(Step(last, q).last, q).outcome.Alert?
    ensures Step(Step(last, q).last, q).last == Step(last, q).last
  {
  }

  /** After a duplicate was suppressed, a candidate with a different text
      that is above the threshold alerts and becomes the new last alert. */
  lemma RearmsAfterRepeat(last: Option<Key>, c: Candidate, c': Candidate)
    requires Gate(last, c).outcome.Repeat?
    requires c'.key != c.key && c'.pct > Threshold
    ensures Gate(Gate(last, c).last, c') == Transition(Alert(c'.key, c'.pct), Some(c'.key))
  {
  }

  /** Before any alert was printed, every candidate above the threshold alerts. */
  lemma FirstCandidateAboveThresholdAlerts(c: Candidate)
    requires c.pct > Threshold
    ensures Gate(None, c) == Transition(Alert(c.key, c.pct), Some(c.key))
  {
  }

  /** A spread of exactly 1.5% does not alert. */
  lemma ThresholdIsStrict(last: Option<Key>, k: Key)
    ensures Gate(last, Candidate(k, 1.5)) == Transition(BelowThreshold(1.5), last)
  {
  }

  /** The sentinel is not filtered out: when every LBank read fails and
      MEXC's prices are positive, the chosen candidate compares a real
      price with zero and reports a 200% spread, which is an alert unless
      it repeats the last one. */
  lemma DeadVenueReportsFullSpread(last: Option<Key>, t: TickReads)
    requires t.lbankSellRows == [] || t.lbankSellRows[0].None?
    requires t.lbankBuyReads == [] || t.lbankBuyReads[0].None?
    requires Normalize(t).mexcSell > 0.0 && Normalize(t).mexcBuy > 0.0
    ensures CandidateOf(Normalize(t)).Ok?
    ensures CandidateOf(Normalize(t)).value.pct == 200.0
    ensures CandidateOf(Normalize(t)).value.key.p2 == Sentinel
    ensures last != Some(CandidateOf(Normalize(t)).value.key) ==> Step(last, Normalize(t)).outcome.Alert?
  {
    var q := Normalize(t);
    FirstRowFailureGivesSentinel(t.lbankSellRows);
    FirstRowFailureGivesSentinel(t.lbankBuyReads);
    var (p1, p2) := Prices(q, ChooseDirection(q));
    SpreadBounds(p1, p2);
  }

  /** When all four fields fail the prices sum to zero and the tick faults. */
  lemma AllReadsFailedFaults(last: Option<Key>, t: TickReads)
    requires t.mexcSellRows == [] || t.mexcSellRows[0].None?
    requires t.mexcBuyTop.None?
    requires t.lbankSellRows == [] || t.lbankSellRows[0].None?
    requires t.lbankBuyReads == [] || t.lbankBuyReads[0].None?
    ensures Step(last, Normalize(t)) == Transition(Fault(DivisionByZero), last)
  {
    FirstRowFailureGivesSentinel(t.mexcSellRows);
    FirstRowFailureGivesSentinel(t.lbankSellRows);
    FirstRowFailureGivesSentinel(t.lbankBuyReads);
  }

  /** Picking the smaller gap can hide a larger opportunity: here MEXC buy
      against LBank sell spreads by about 5%, but the equal MEXC sell and
      LBank buy prices are chosen and nothing is reported. */
  lemma SmallerGapHidesOpportunity(last: Option<Key>)
    ensures SpreadPercent(98.0, 103.0).value > Threshold
    ensures Step(last, Quotes(100.0, 98.0, 103.0, 100.0)) == Transition(BelowThreshold(0.0), last)
  {
  }
}
