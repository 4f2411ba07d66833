/**
 * Choosing the direction to compare and measuring its spread
 * (main2.py:77-87 and 100-107).
 */
module Spread {
  import opened Wrappers
  import opened Extraction

  function Abs(x: real): (r: real)
    ensures x >= 0.0 ==> r == x
    ensures x < 0.0 ==> r == -x
  {
    if x < 0.0 then -x else x
  }

  /** The two cross-venue comparisons the loop can make. */
  datatype Direction =
    | MexcBuyLbankSell   // MEXC buy price against LBank sell price
    | MexcSellLbankBuy   // MEXC sell price against LBank buy price

  function Other(d: Direction): Direction
  {
    match d
    case MexcBuyLbankSell => MexcSellLbankBuy
    case MexcSellLbankBuy => MexcBuyLbankSell
  }

  /** The prices a direction compares, MEXC's first and LBank's second. */
  function Prices(q: Quotes, d: Direction): (real, real)
  {
    match d
    case MexcBuyLbankSell => (q.mexcBuy, q.lbankSell)
    case MexcSellLbankBuy => (q.mexcSell, q.lbankBuy)
  }

  /** The absolute price difference in a direction. */
  function Gap(q: Quotes, d: Direction): (g: real)
    ensures Prices(q, d).0 >= Prices(q, d).1 ==> g == Prices(q, d).0 - Prices(q, d).1
    ensures Prices(q, d).0 < Prices(q, d).1 ==> g == Prices(q, d).1 - Prices(q, d).0
  {
    Abs(Prices(q, d).0 - Prices(q, d).1)
  }

  /** The direction the tick goes on with: the one with the smaller gap,
      and MEXC sell against LBank buy whenever the gaps are equal. */
  function ChooseDirection(q: Quotes): (d: Direction)
    ensures Gap(q, d) <= Gap(q, Other(d))
    ensures Gap(q, MexcBuyLbankSell) == Gap(q, MexcSellLbankBuy) ==> d == MexcSellLbankBuy
  {
    if Abs(q.mexcBuy - q.lbankSell) < Abs(q.mexcSell - q.lbankBuy) then MexcBuyLbankSell
    else MexcSellLbankBuy
  }

  /** MEXC buy against LBank sell is chosen exactly when its gap is strictly smaller. */
  lemma ChooseDirectionStrict(q: Quotes)
    ensures ChooseDirection(q) == MexcBuyLbankSell <==> Gap(q, MexcBuyLbankSell) < Gap(q, MexcSellLbankBuy)
  {
  }

  /** The one error the spread computation raises. */
  datatype SpreadError = DivisionByZero

  /** The percentage difference of two prices relative to their mean; the
      mean is zero exactly when the division raises. */
  function SpreadPercent(p1: real, p2: real): (r: Result<real, SpreadError>)
    ensures r.Err? <==> p1 + p2 == 0.0
    ensures r.Ok? ==> r.value * (p1 + p2) == 200.0 * Abs(p1 - p2)
  {
    if p1 + p2 == 0.0 then Err(DivisionByZero)
    else Ok(Abs(p1 - p2) / ((p1 + p2) / 2.0) * 100.0)
  }

  /** Swapping the two prices does not change the spread. */
  lemma SpreadSymmetric(p1: real, p2: real)
    ensures SpreadPercent(p1, p2) == SpreadPercent(p2, p1)
  {
  }

  /** With a positive price sum the spread is a non-negative percentage;
      for non-negative prices it is at most 200, reaching 200 only when one
      of the prices is zero. */
  lemma SpreadBounds(p1: real, p2: real)
    requires p1 + p2 > 0.0
    ensures SpreadPercent(p1, p2).Ok?
    ensures 0.0 <= SpreadPercent(p1, p2).value
    ensures p1 >= 0.0 && p2 >= 0.0 ==> SpreadPercent(p1, p2).value <= 200.0
    ensures p1 >= 0.0 && p2 >= 0.0 ==> (SpreadPercent(p1, p2).value == 200.0 <==> p1 == 0.0 || p2 == 0.0)
  {
    var v := SpreadPercent(p1, p2).value;
    var s := p1 + p2;
    assert v * s == 200.0 * Abs(p1 - p2);
    if p1 >= 0.0 && p2 >= 0.0 {
      assert Abs(p1 - p2) <= s;
    }
    if v == 200.0 {
      assert Abs(p1 - p2) == s;
    }
    if (p1 == 0.0 || p2 == 0.0) && p1 >= 0.0 && p2 >= 0.0 {
      assert Abs(p1 - p2) == s;
      CancelNonZero(v, 200.0, s);
    }
  }

  lemma CancelNonZero(a: real, b: real, c: real)
    requires c != 0.0 && a * c == b * c
    ensures a == b
  {
    assert (a - b) * c == 0.0;
  }

  /** Equal prices have no spread. */
  lemma EqualPricesHaveNoSpread(p: real)
    requires p != 0.0
    ensures SpreadPercent(p, p) == Ok(0.0)
  {
  }
}
