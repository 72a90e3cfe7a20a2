// The headline valuation of the dashboard: a single-stage discounted-cash-flow
// (Gordon growth) value per share, and the upside of that value against the
// last closing price. All quantities are exact reals; the source computes
// them in IEEE-754 doubles.

module Valuation {

  /** Rate entered on a percentage slider, as a fraction (the slider value
      divided by 100). */
  function SliderRate(percent: real): (rate: real)
    ensures rate * 100.0 == percent
    ensures percent > 0.0 ==> 0.0 < rate < percent
  {
    percent / 100.0
  }

  /** The ranges the two sliders allow: discount rate (WACC) from 5% to 15%,
      terminal growth from 1% to 4%. The growth range lies wholly below the
      discount-rate range, at least one point apart. */
  predicate SliderPercents(waccPercent: real, growthPercent: real)
    ensures SliderPercents(waccPercent, growthPercent) ==> waccPercent - growthPercent >= 1.0
  {
    5.0 <= waccPercent <= 15.0 && 1.0 <= growthPercent <= 4.0
  }

  /** Per-share intrinsic value: next year's free cash flow fcf * (1 + growth),
      capitalised at wacc - growth, divided over the shares outstanding.
      The source does not guard the two divisions; a caller must. */
  function IntrinsicValue(fcf: real, shares: real, wacc: real, growth: real): (iv: real)
    requires wacc != growth && shares != 0.0
    ensures iv * shares * (wacc - growth) == fcf * (1.0 + growth)
  {
    (fcf * (1.0 + growth)) / (wacc - growth) / shares
  }

  /** Upside (positive) or downside (negative) of the intrinsic value against
      the current price, in percent. */
  function Upside(iv: real, price: real): (u: real)
    requires price > 0.0
    ensures iv == price * (1.0 + u / 100.0)
    ensures u == 0.0 <==> iv == price
    ensures u > 0.0 <==> iv > price
    ensures u < 0.0 <==> iv < price
  {
    ((iv / price) - 1.0) * 100.0
  }

  /** Whatever the sliders are set to, the capitalisation rate wacc - growth
      is at least one percentage point, so the headline value is defined. */
  lemma SliderRatesKeepValueDefined(waccPercent: real, growthPercent: real)
    requires SliderPercents(waccPercent, growthPercent)
    ensures 0.05 <= SliderRate(waccPercent) <= 0.15
    ensures 0.01 <= SliderRate(growthPercent) <= 0.04
    ensures SliderRate(waccPercent) - SliderRate(growthPercent) >= 0.01
  {
  }

  /** The worked example: a 1e9 free cash flow over 5e8 shares at a 10%
      discount rate and 2% growth is worth 25.50 per share. */
  lemma WorkedExample()
    ensures IntrinsicValue(1000000000.0, 500000000.0, 0.10, 0.02) == 25.5
  {
  }

  /** When growth stays above -100% and the discount rate exceeds growth, the
      value has the sign of the free cash flow. */
  lemma ValueSign(fcf: real, shares: real, wacc: real, growth: real)
    requires shares > 0.0 && wacc > growth > -1.0
    ensures IntrinsicValue(fcf, shares, wacc, growth) > 0.0 <==> fcf > 0.0
    ensures IntrinsicValue(fcf, shares, wacc, growth) == 0.0 <==> fcf == 0.0
    ensures IntrinsicValue(fcf, shares, wacc, growth) < 0.0 <==> fcf < 0.0
  {
    var iv := IntrinsicValue(fcf, shares, wacc, growth);
    var a := fcf * (1.0 + growth);
    ProductPositive(shares, wacc - growth);
    Reassociate(iv, shares, wacc - growth, a);
    PositiveFactor(iv, shares * (wacc - growth), a);
    PositiveFactor(fcf, 1.0 + growth, a);
  }

  /** The formula is not guarded against growth exceeding the discount rate:
      a positive cash flow then yields a negative "value". */
  lemma NegativeWhenGrowthExceedsWacc(fcf: real, shares: real, wacc: real, growth: real)
    requires fcf > 0.0 && shares > 0.0 && -1.0 < growth && wacc < growth
    ensures IntrinsicValue(fcf, shares, wacc, growth) < 0.0
  {
    var iv := IntrinsicValue(fcf, shares, wacc, growth);
    var a := fcf * (1.0 + growth);
    ProductPositive(fcf, 1.0 + growth);
    ProductPositive(shares, growth - wacc);
    Reassociate(iv, shares, wacc - growth, a);
    Negate(iv, shares * (wacc - growth), a);
    PositiveFactor(-iv, shares * (growth - wacc), a);
  }

  /** For a positive cash flow, a higher discount rate gives a lower value. */
  lemma ValueFallsWithWacc(fcf: real, shares: real, wacc1: real, wacc2: real, growth: real)
    requires fcf > 0.0 && shares > 0.0 && -1.0 < growth < wacc1 < wacc2
    ensures IntrinsicValue(fcf, shares, wacc2, growth) < IntrinsicValue(fcf, shares, wacc1, growth)
  {
    var v1 := IntrinsicValue(fcf, shares, wacc1, growth);
    var v2 := IntrinsicValue(fcf, shares, wacc2, growth);
    var a := fcf * (1.0 + growth);
    ValueSign(fcf, shares, wacc2, growth);
    ProductPositive(v2, shares);
    // v2 * shares is the firm value at wacc2; at the lower rate wacc1 it
    // would capitalise to less than the cash flow a
    SmallerFactor(v2 * shares, wacc1 - growth, wacc2 - growth, a);
    ScaleBelow(v1 * shares, v2 * shares, wacc1 - growth, a);
    ScaleBelow(v1, v2, shares, v1 * shares);
  }

  /** For a positive cash flow, a higher growth rate gives a higher value. */
  lemma ValueRisesWithGrowth(fcf: real, shares: real, wacc: real, growth1: real, growth2: real)
    requires fcf > 0.0 && shares > 0.0 && -1.0 < growth1 < growth2 < wacc
    ensures IntrinsicValue(fcf, shares, wacc, growth1) < IntrinsicValue(fcf, shares, wacc, growth2)
  {
    var v1 := IntrinsicValue(fcf, shares, wacc, growth1);
    var v2 := IntrinsicValue(fcf, shares, wacc, growth2);
    var a1 := fcf * (1.0 + growth1);
    var a2 := fcf * (1.0 + growth2);
    ProductPositive(fcf, growth2 - growth1);
    assert a2 - a1 == fcf * (growth2 - growth1);
    ValueSign(fcf, shares, wacc, growth1);
    ProductPositive(v1, shares);
    // v1 * shares capitalised at the smaller rate wacc - growth2 stays below a1 < a2
    SmallerFactor(v1 * shares, wacc - growth2, wacc - growth1, a1);
    ScaleBelow(v2 * shares, v1 * shares, wacc - growth2, a2);
    ScaleBelow(v2, v1, shares, v2 * shares);
  }

  /** The Gordon value solves the perpetuity pricing equation: a holding worth
      p today is worth p * (1 + wacc) in a year, which must equal the year's
      cash flow fcf * (1 + growth) plus the same perpetuity, grown, p * (1 + growth).
      The firm value (per-share value times shares) is its only solution. */
  lemma PerpetuityEquation(fcf: real, shares: real, wacc: real, growth: real, p: real)
    requires wacc != growth && shares != 0.0
    ensures p * (1.0 + wacc) == fcf * (1.0 + growth) + p * (1.0 + growth)
        <==> p == IntrinsicValue(fcf, shares, wacc, growth) * shares
  {
    var v := IntrinsicValue(fcf, shares, wacc, growth) * shares;
    assert v * (wacc - growth) == fcf * (1.0 + growth);
    if p * (1.0 + wacc) == fcf * (1.0 + growth) + p * (1.0 + growth) {
      assert p * (wacc - growth) == v * (wacc - growth);
      CancelFactor(p, v, wacc - growth);
    }
  }

  /** x to the power n. */
  function Pow(x: real, n: nat): real
  {
    if n == 0 then 1.0 else x * Pow(x, n - 1)
  }

  /** The present value of the first n years' cash flows fcf * (1 + growth)^t,
      each discounted by (1 + wacc)^t. */
  function DiscountedCashFlows(fcf: real, wacc: real, growth: real, n: nat): real
    requires wacc != -1.0
  {
    if n == 0 then 0.0
    else DiscountedCashFlows(fcf, wacc, growth, n - 1) + fcf * Pow((1.0 + growth) / (1.0 + wacc), n)
  }

  /** The single-stage value is a genuine perpetuity: for every horizon n it
      equals the discounted cash flows of the first n years plus the same
      perpetuity started n years later and discounted back. */
  lemma {:induction false} PerpetuityHorizon(fcf: real, shares: real, wacc: real, growth: real, n: nat)
    requires wacc != growth && shares != 0.0 && wacc != -1.0
    ensures IntrinsicValue(fcf, shares, wacc, growth) * shares
         == DiscountedCashFlows(fcf, wacc, growth, n)
            + IntrinsicValue(fcf, shares, wacc, growth) * shares * Pow((1.0 + growth) / (1.0 + wacc), n)
  {
    var v := IntrinsicValue(fcf, shares, wacc, growth) * shares;
    var q := (1.0 + growth) / (1.0 + wacc);
    if n > 0 {
      PerpetuityHorizon(fcf, shares, wacc, growth, n - 1);
      // one year on: v is the discounted value of the year's cash flow plus v
      PerpetuityEquation(fcf, shares, wacc, growth, v);
      assert v * (1.0 + wacc) == (fcf + v) * (1.0 + growth);
      RatioFactor(v, fcf + v, 1.0 + growth, 1.0 + wacc);
      var p := Pow(q, n - 1);
      assert Pow(q, n) == q * p;
      SplitDiscount(v, fcf, q, p);
    }
  }

  // Arithmetic helpers over the reals.

  /** The product of two positive reals is positive. */
  lemma ProductPositive(x: real, y: real)
    requires x > 0.0 && y > 0.0
    ensures x * y > 0.0
  {
  }

  /** Regrouping a product of three factors. */
  lemma Reassociate(x: real, y: real, z: real, a: real)
    requires x * y * z == a
    ensures x * (y * z) == a
  {
  }

  /** Moving a sign from one factor to the other. */
  lemma Negate(x: real, k: real, a: real)
    requires x * k == a
    ensures (-x) * (-k) == a
  {
  }

  /** x * k == y with k positive: x and y have the same sign. */
  lemma PositiveFactor(x: real, k: real, y: real)
    requires k > 0.0 && x * k == y
    ensures x > 0.0 <==> y > 0.0
    ensures x == 0.0 <==> y == 0.0
    ensures x < 0.0 <==> y < 0.0
  {
    if x > 0.0 { ProductPositive(x, k); }
    if x < 0.0 { ProductPositive(-x, k); }
  }

  /** A positive x times the smaller of two positive factors gives less:
      if x * big == a then x * small < a. */
  lemma SmallerFactor(x: real, small: real, big: real, a: real)
    requires x > 0.0 && 0.0 < small < big && x * big == a
    ensures x * small < a
  {
    ProductPositive(x, big - small);
    assert x * big - x * small == x * (big - small);
  }

  /** x * k == y and z * k < y with k positive: z < x. */
  lemma ScaleBelow(x: real, z: real, k: real, y: real)
    requires k > 0.0 && x * k == y && z * k < y
    ensures z < x
  {
    assert (x - z) * k == x * k - z * k;
    PositiveFactor(x - z, k, (x - z) * k);
  }

  /** A nonzero factor cancels. */
  lemma CancelFactor(x: real, y: real, k: real)
    requires k != 0.0 && x * k == y * k
    ensures x == y
  {
    assert (x - y) * k == 0.0;
  }

  /** v * d == a * n with d nonzero: v is a scaled by n / d. */
  lemma RatioFactor(v: real, a: real, n: real, d: real)
    requires d != 0.0 && v * d == a * n
    ensures v == (n / d) * a
  {
    assert (n / d) * d == n;
    assert ((n / d) * a) * d == a * ((n / d) * d);
    CancelFactor(v, (n / d) * a, d);
  }

  /** From v == q * (fcf + v): v * p == fcf * (q * p) + v * (q * p). */
  lemma SplitDiscount(v: real, fcf: real, q: real, p: real)
    requires v == q * (fcf + v)
    ensures v * p == fcf * (q * p) + v * (q * p)
  {
    calc {
      v * p;
      (q * (fcf + v)) * p;
      fcf * (q * p) + v * (q * p);
    }
  }
}
