/**
 * Reading the four prices of one polling tick (main2.py:31-75).
 *
 * Every page read is abstracted as an `Option<real>`: `None` when the
 * element is not found or its text does not parse as a float, which is
 * where the source raises and lands in the field's `except` clause.
 * Row `k` of a ladder (1-based in the page's XPath) is `rows[k - 1]`;
 * rows past the end of `rows` are missing rows, so reading them fails.
 */
module Extraction {
  import opened Wrappers

  type Read = Option<real>

  /** The sell ladders are walked over rows 1..19 (`range(1, 20)`), and the
      LBank buy cell is re-read the same number of times. */
  const LadderRows: nat := 19

  /** What a field holds when no read of it succeeded during the tick. */
  const Sentinel: real := 0.0

  /** Length of the run of successful reads that starts at the first row,
      cut off after `limit` rows. */
  function ReadableRun(rows: seq<Read>, limit: nat): (n: nat)
    ensures n <= limit && n <= |rows|
    ensures forall k :: 0 <= k < n ==> rows[k].Some?
    ensures n < limit && n < |rows| ==> rows[n].None?
  {
    if limit == 0 || rows == [] || rows[0].None? then 0
    else 1 + ReadableRun(rows[1..], limit - 1)
  }

  /** The price a laddered field ends the tick with: the value of the last
      row read before the first failure, or the sentinel when row 1 fails. */
  function LadderPrice(rows: seq<Read>): (price: real)
    ensures rows == [] || rows[0].None? ==> price == Sentinel
    ensures rows != [] && rows[0].Some? ==>
      exists k :: 0 <= k < LadderRows && k < |rows| && rows[k] == Some(price)
  {
    var n := ReadableRun(rows, LadderRows);
    if n == 0 then Sentinel else rows[n - 1].value
  }

  /** The price a single-read field ends the tick with. */
  function SinglePrice(r: Read): (price: real)
    ensures price == LadderPrice([r])
  {
    r.GetOr(Sentinel)
  }

  /** The raw reads of one tick, one entry per field. */
  datatype TickReads = TickReads(
    mexcSellRows: seq<Read>,   // MEXC sell side of the order book, rows 1..19
    mexcBuyTop: Read,          // MEXC best buy, read once
    lbankSellRows: seq<Read>,  // LBank sell side of the order book, rows 1..19
    lbankBuyReads: seq<Read>)  // the nineteen successive reads of LBank's li[1] buy cell

  /** The four prices a tick works with; the sentinel stands for a failed field. */
  datatype Quotes = Quotes(mexcSell: real, mexcBuy: real, lbankSell: real, lbankBuy: real)

  /** The quotes a tick's reads produce. */
  function Normalize(t: TickReads): Quotes
  {
    Quotes(LadderPrice(t.mexcSellRows), SinglePrice(t.mexcBuyTop),
           LadderPrice(t.lbankSellRows), LadderPrice(t.lbankBuyReads))
  }

  /** Only one count of successful leading rows satisfies the stopping rule. */
  lemma ReadableRunUnique(rows: seq<Read>, limit: nat, n: nat)
    requires n <= limit && n <= |rows|
    requires forall k :: 0 <= k < n ==> rows[k].Some?
    requires n < limit && n < |rows| ==> rows[n].None?
    ensures ReadableRun(rows, limit) == n
  {
  }

  /** Walks the ladder's rows in order, overwriting the field on every
      successful read and leaving the loop at the first failing one. */
  method ReadLadder(rows: seq<Read>) returns (price: real)
    ensures price == LadderPrice(rows)
  {
    price := Sentinel;
    var i := 0;
    while i < LadderRows
      invariant i <= LadderRows && i <= |rows|
      invariant forall k :: 0 <= k < i ==> rows[k].Some?
      invariant price == if i == 0 then Sentinel else rows[i - 1].value
    {
      if i == |rows| || rows[i].None? {
        break;
      }
      price := rows[i].value;
      i := i + 1;
    }
    ReadableRunUnique(rows, LadderRows, i);
  }

  /** Reads the four fields of a tick, each on its own, so that one field's
      failure cannot disturb another. */
  method ReadQuotes(t: TickReads) returns (q: Quotes)
    ensures q == Normalize(t)
  {
    var mexcSell := ReadLadder(t.mexcSellRows);
    var mexcBuy := Sentinel;
    if t.mexcBuyTop.Some? {
      mexcBuy := t.mexcBuyTop.value;
    }
    var lbankSell := ReadLadder(t.lbankSellRows);
    var lbankBuy := ReadLadder(t.lbankBuyReads);
    q := Quotes(mexcSell, mexcBuy, lbankSell, lbankBuy);
  }

  /** A ladder whose first row fails leaves the field at the sentinel. */
  lemma FirstRowFailureGivesSentinel(rows: seq<Read>)
    requires rows == [] || rows[0].None?
    ensures LadderPrice(rows) == Sentinel
  {
  }

  /** The field holds the last successful row before the first failure. */
  lemma LadderPriceIsLastBeforeFailure(rows: seq<Read>, n: nat)
    requires 0 < n <= LadderRows && n <= |rows|
    requires forall k :: 0 <= k < n ==> rows[k].Some?
    requires n < LadderRows && n < |rows| ==> rows[n].None?
    ensures LadderPrice(rows) == rows[n - 1].value
  {
  }

  /** Once a row fails, nothing after it matters: any ladder agreeing with
      `rows` up to and including the failed row gives the same price. */
  lemma LaterRowsNeverOverride(rows: seq<Read>, other: seq<Read>, j: nat)
    requires j < |rows| && j < |other| && rows[j].None?
    requires rows[..j + 1] == other[..j + 1]
    ensures LadderPrice(rows) == LadderPrice(other)
  {
    var n := ReadableRun(rows, LadderRows);
    assert n <= j;
    forall k | 0 <= k < n
      ensures other[k].Some?
    {
      assert other[k] == other[..j + 1][k];
    }
    assert n < LadderRows && n < |other| ==> other[n].None? by {
      assert other[n] == other[..j + 1][n] == rows[..j + 1][n];
    }
    ReadableRunUnique(other, LadderRows, n);
    if n > 0 {
      assert other[n - 1] == other[..j + 1][n - 1] == rows[..j + 1][n - 1];
    }
  }

  /** Re-reading one cell nineteen times, as the LBank buy field does, is
      the same as reading it once when the cell does not change. */
  lemma RepeatedReadIsSingleRead(r: Read, attempts: seq<Read>)
    requires |attempts| == LadderRows
    requires forall k :: 0 <= k < |attempts| ==> attempts[k] == r
    ensures LadderPrice(attempts) == SinglePrice(r)
  {
  }

  /** Each field's price depends on its own reads only: replacing one
      field's reads (by failing ones, say) changes that field alone, and
      the other three keep the values their own reads gave. */
  lemma FieldReadsAreIsolated(t: TickReads, rows: seq<Read>, r: Read)
    ensures Normalize(t.(mexcSellRows := rows)) == Normalize(t).(mexcSell := LadderPrice(rows))
    ensures Normalize(t.(mexcBuyTop := r)) == Normalize(t).(mexcBuy := SinglePrice(r))
    ensures Normalize(t.(lbankSellRows := rows)) == Normalize(t).(lbankSell := LadderPrice(rows))
    ensures Normalize(t.(lbankBuyReads := rows)) == Normalize(t).(lbankBuy := LadderPrice(rows))
  {
  }
}
