/**
 * The polling loop (main2.py:24-118): a monitor remembers the last alert
 * it printed and runs ticks one after another.
 */
module Polling {
  import opened Wrappers
  import opened Extraction
  import opened Spread
  import opened Signal

  /** What a run of ticks printed, and the last alert remembered at the end. */
  datatype History = History(outcomes: seq<Outcome>, last: Option<Key>)

  /** The ticks of a run, from the remembered alert `init`. */
  function Run(init: Option<Key>, ticks: seq<TickReads>): (h: History)
    ensures |h.outcomes| == |ticks|
    ensures h.last == LatestAlert(init, h.outcomes)
  {
    if ticks == [] then History([], init)
    else
      var h := Run(init, ticks[..|ticks| - 1]);
      var t := Step(h.last, Normalize(ticks[|ticks| - 1]));
      var outcomes := h.outcomes + [t.outcome];
      assert outcomes[..|outcomes| - 1] == h.outcomes;
      History(outcomes, t.last)
  }

  /** The key of the latest alert among `outcomes`, or `init` when there is none. */
  function LatestAlert(init: Option<Key>, outcomes: seq<Outcome>): Option<Key>
  {
    if outcomes == [] then init
    else if outcomes[|outcomes| - 1].Alert? then Some(outcomes[|outcomes| - 1].key)
    else LatestAlert(init, outcomes[..|outcomes| - 1])
  }

  /** A run of the first `i` ticks followed by tick `i` is the run of the
      first `i + 1` ticks. */
  lemma RunExtends(init: Option<Key>, ticks: seq<TickReads>, i: nat,
                   outcomes: seq<Outcome>, last: Option<Key>, t: Transition)
    requires i < |ticks|
    requires History(outcomes, last) == Run(init, ticks[..i])
    requires t == Step(last, Normalize(ticks[i]))
    ensures History(outcomes + [t.outcome], t.last) == Run(init, ticks[..i + 1])
  {
    var s := ticks[..i + 1];
    assert s[..|s| - 1] == ticks[..i];
    assert s[|s| - 1] == ticks[i];
  }

  /** A run's first ticks print what a run of those ticks alone prints. */
  lemma {:induction false} RunPrefix(init: Option<Key>, ticks: seq<TickReads>, j: nat)
    requires j <= |ticks|
    ensures Run(init, ticks[..j]).outcomes == Run(init, ticks).outcomes[..j]
  {
    if j < |ticks| {
      var n := |ticks| - 1;
      RunPrefix(init, ticks[..n], j);
      assert ticks[..n][..j] == ticks[..j];
    } else {
      assert ticks[..j] == ticks;
    }
  }

  /** The remembered alert before tick `j` is the latest alert among the
      first `j` outcomes. */
  lemma StateBeforeTick(init: Option<Key>, ticks: seq<TickReads>, j: nat)
    requires j < |ticks|
    ensures Run(init, ticks).outcomes[j] == Step(LatestAlert(init, Run(init, ticks).outcomes[..j]), Normalize(ticks[j])).outcome
  {
    var outs := Run(init, ticks).outcomes;
    var h := Run(init, ticks[..j]);
    var t := Step(h.last, Normalize(ticks[j]));
    RunExtends(init, ticks, j, h.outcomes, h.last, t);
    RunPrefix(init, ticks, j + 1);
    RunPrefix(init, ticks, j);
    assert outs[..j + 1] == h.outcomes + [t.outcome];
    assert outs[j] == outs[..j + 1][j];
  }

  /** No alert repeats the alert printed before it: every alert's text
      differs from the latest earlier alert (or from the start state). */
  lemma AlertsNeverRepeat(init: Option<Key>, ticks: seq<TickReads>, j: nat)
    requires j < |ticks| && Run(init, ticks).outcomes[j].Alert?
    ensures Some(Run(init, ticks).outcomes[j].key) != LatestAlert(init, Run(init, ticks).outcomes[..j])
  {
    StateBeforeTick(init, ticks, j);
  }

  /** With no alert among the outcomes, the latest alert is `init`. */
  lemma {:induction false} NoEarlierAlertMeansInit(init: Option<Key>, outcomes: seq<Outcome>)
    requires forall k :: 0 <= k < |outcomes| ==> !outcomes[k].Alert?
    ensures LatestAlert(init, outcomes) == init
  {
    if outcomes != [] {
      NoEarlierAlertMeansInit(init, outcomes[..|outcomes| - 1]);
    }
  }

  /** Starting from no alert, the first tick whose candidate clears the
      threshold always alerts. */
  lemma FirstAboveThresholdAlerts(ticks: seq<TickReads>, j: nat)
    requires j < |ticks|
    requires forall k :: 0 <= k < j ==> !Run(None, ticks).outcomes[k].Alert?
    requires CandidateOf(Normalize(ticks[j])).Ok? && CandidateOf(Normalize(ticks[j])).value.pct > Threshold
    ensures Run(None, ticks).outcomes[j].Alert?
  {
    var outs := Run(None, ticks).outcomes;
    forall k | 0 <= k < j
      ensures !outs[..j][k].Alert?
    {
      assert outs[..j][k] == outs[k];
    }
    NoEarlierAlertMeansInit(None, outs[..j]);
    StateBeforeTick(None, ticks, j);
    var q := Normalize(ticks[j]);
    assert Step(None, q) == Gate(None, CandidateOf(q).value);
  }

  /** The long-lived state of the polling loop: the last alert printed. */
  class Monitor {
    var lastKey: Option<Key>

    /** The loop starts with the empty text, which no alert renders to. */
    constructor ()
      ensures lastKey == None
    {
      lastKey := None;
    }

    /** One iteration of the polling loop. */
    method Tick(t: TickReads) returns (outcome: Outcome)
      modifies this
      ensures Transition(outcome, lastKey) == Step(old(lastKey), Normalize(t))
    {
      var q := ReadQuotes(t);
      var d, p1, p2;
      if Abs(q.mexcBuy - q.lbankSell) < Abs(q.mexcSell - q.lbankBuy) {
        d, p1, p2 := MexcBuyLbankSell, q.mexcBuy, q.lbankSell;
      } else {
        d, p1, p2 := MexcSellLbankBuy, q.mexcSell, q.lbankBuy;
      }
      assert d == ChooseDirection(q) && (p1, p2) == Prices(q, d);
      var absDiff := Abs(p1 - p2);
      if (p1 + p2) / 2.0 == 0.0 {
        assert CandidateOf(q) == Err(DivisionByZero);
        outcome := Fault(DivisionByZero);
        return;
      }
      var pct := absDiff / ((p1 + p2) / 2.0) * 100.0;
      assert CandidateOf(q) == Ok(Candidate(Key(d, p1, p2), pct));
      assert Step(lastKey, q) == Gate(lastKey, Candidate(Key(d, p1, p2), pct));
      if pct > Threshold {
        var key := Key(d, p1, p2);
        if lastKey != Some(key) {
          outcome := Alert(key, pct);
          lastKey := Some(key);
        } else {
          outcome := Repeat(key);
        }
      } else {
        outcome := BelowThreshold(pct);
      }
    }

    /** A finite stretch of the polling loop. */
    method RunTicks(ticks: seq<TickReads>) returns (outcomes: seq<Outcome>)
      modifies this
      ensures History(outcomes, lastKey) == Run(old(lastKey), ticks)
    {
      ghost var init := lastKey;
      outcomes := [];
      var i := 0;
      while i < |ticks|
        invariant i <= |ticks|
        invariant History(outcomes, lastKey) == Run(init, ticks[..i])
      {
        ghost var before := lastKey;
        var o := Tick(ticks[i]);
        RunExtends(init, ticks, i, outcomes, before, Transition(o, lastKey));
        outcomes := outcomes + [o];
        i := i + 1;
      }
      assert ticks[..i] == ticks;
    }
  }
}
