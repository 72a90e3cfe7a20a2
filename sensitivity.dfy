// The sensitivity matrix of the dashboard: the per-share value recomputed on
// a 5 x 5 grid of discount rates (columns) and growth rates (rows), each axis
// spread evenly around the rate chosen on its slider.

module Sensitivity {
  import opened Valuation

  /** Number of rates on each axis of the matrix. */
  const GridSize: nat := 5

  /** Half-width of the discount-rate axis: two percentage points. */
  const WaccSpread: real := 0.02

  /** Half-width of the growth-rate axis: one percentage point. */
  const GrowthSpread: real := 0.01

  /** One entry of the matrix. Where the discount rate equals the growth rate
      the formula divides by zero (the source shows an infinite or NaN
      value); the model marks that entry Undefined. */
  datatype Cell = Defined(value: real) | Undefined

  /** n evenly spaced values from lo to hi, both ends included (numpy's
      linspace with its default endpoint=True). */
  function Linspace(lo: real, hi: real, n: nat): (s: seq<real>)
    ensures |s| == n
    ensures n >= 1 ==> s[0] == lo
    ensures n >= 2 ==> s[n - 1] == hi
  {
    if n == 0 then []
    else if n == 1 then [lo]
    else
      var step := (hi - lo) / ((n - 1) as real);
      assert ((n - 1) as real) * step == hi - lo;
      seq(n, i requires 0 <= i < n => lo + (i as real) * step)
  }

  /** Consecutive values are one step (hi - lo) / (n - 1) apart. */
  lemma LinspaceStep(lo: real, hi: real, n: nat, i: nat)
    requires n >= 2 && i + 1 < n
    ensures Linspace(lo, hi, n)[i + 1] - Linspace(lo, hi, n)[i] == (hi - lo) / ((n - 1) as real)
  {
  }

  /** Values at mirrored positions average to the midpoint of lo and hi. */
  lemma LinspaceSymmetric(lo: real, hi: real, n: nat, i: nat)
    requires n >= 2 && i < n
    ensures Linspace(lo, hi, n)[i] + Linspace(lo, hi, n)[n - 1 - i] == lo + hi
  {
    var step := (hi - lo) / ((n - 1) as real);
    assert ((n - 1) as real) * step == hi - lo;
    assert (i as real) * step + ((n - 1 - i) as real) * step == ((n - 1) as real) * step;
  }

  /** On an ascending interval the values ascend strictly. */
  lemma LinspaceIncreasing(lo: real, hi: real, n: nat, i: nat, j: nat)
    requires lo < hi && i < j < n
    ensures Linspace(lo, hi, n)[i] < Linspace(lo, hi, n)[j]
  {
    var s := Linspace(lo, hi, n);
    var step := (hi - lo) / ((n - 1) as real);
    assert step * ((n - 1) as real) == hi - lo;
    PositiveFactor(step, (n - 1) as real, hi - lo);
    ProductPositive((j - i) as real, step);
    assert s[j] - s[i] == ((j - i) as real) * step;
  }

  /** The axis of rates around base: GridSize values from base - spread to
      base + spread. */
  function RateRange(base: real, spread: real): (r: seq<real>)
    ensures |r| == GridSize
    ensures r[0] == base - spread && r[GridSize - 1] == base + spread
  {
    Linspace(base - spread, base + spread, GridSize)
  }

  /** Closed form of the k-th rate: the axis moves in steps of half the spread. */
  lemma RateRangeAt(base: real, spread: real, k: nat)
    requires k < GridSize
    ensures RateRange(base, spread)[k] == base - spread + (k as real) * (spread / 2.0)
  {
    assert (base + spread - (base - spread)) / ((GridSize - 1) as real) == spread / 2.0;
  }

  /** The middle rate of an axis is the base rate itself, the axis is
      symmetric about it, consecutive rates are spread / 2 apart, and for a
      positive spread the rates ascend strictly. */
  lemma RateRangeShape(base: real, spread: real)
    ensures RateRange(base, spread)[2] == base
    ensures forall k :: 0 <= k < GridSize ==>
      RateRange(base, spread)[k] + RateRange(base, spread)[GridSize - 1 - k] == 2.0 * base
    ensures forall k :: 0 <= k < GridSize - 1 ==>
      RateRange(base, spread)[k + 1] - RateRange(base, spread)[k] == spread / 2.0
    ensures spread > 0.0 ==> forall i, j :: 0 <= i < j < GridSize ==>
      RateRange(base, spread)[i] < RateRange(base, spread)[j]
  {
    var r := RateRange(base, spread);
    forall k | 0 <= k < GridSize
      ensures r[k] == base - spread + (k as real) * (spread / 2.0)
    {
      RateRangeAt(base, spread, k);
    }
  }

  /** One entry of the matrix: the headline formula at the given pair of
      rates, Undefined exactly where the two rates coincide. A discount rate
      below the growth rate is not caught: its (meaningless) value is kept. */
  function CellValue(fcf: real, shares: real, wacc: real, growth: real): (c: Cell)
    requires shares != 0.0
    ensures c.Undefined? <==> wacc == growth
    ensures c.Defined? ==> c.value == IntrinsicValue(fcf, shares, wacc, growth)
  {
    if wacc == growth then Undefined
    else Defined((fcf * (1.0 + growth)) / (wacc - growth) / shares)
  }

  /** The matrix loop: one row per growth rate, in order; within a row one
      entry per discount rate, in order. */
  method BuildGrid(fcf: real, shares: real, waccs: seq<real>, growths: seq<real>)
    returns (grid: seq<seq<Cell>>)
    requires shares != 0.0
    ensures |grid| == |growths|
    ensures forall i :: 0 <= i < |grid| ==> |grid[i]| == |waccs|
    ensures forall i, j :: 0 <= i < |grid| && 0 <= j < |waccs| ==>
      grid[i][j] == CellValue(fcf, shares, waccs[j], growths[i])
  {
    grid := [];
    for i := 0 to |growths|
      invariant |grid| == i
      invariant forall k :: 0 <= k < i ==> |grid[k]| == |waccs|
      invariant forall k, j :: 0 <= k < i && 0 <= j < |waccs| ==>
        grid[k][j] == CellValue(fcf, shares, waccs[j], growths[k])
    {
      var g := growths[i];
      var row := seq(|waccs|, j requires 0 <= j < |waccs| => CellValue(fcf, shares, waccs[j], g));
      grid := grid + [row];
    }
  }

  /** Entry [i][j] of the matrix around (wacc, growth): the formula at the
      j-th discount rate wacc - 2% + j * 1% and the i-th growth rate
      growth - 1% + i * 0.5%, Undefined where those two coincide. */
  function SensitivityCell(fcf: real, shares: real, wacc: real, growth: real, i: nat, j: nat): (c: Cell)
    requires shares != 0.0 && i < GridSize && j < GridSize
    ensures var w := wacc - WaccSpread + (j as real) * (WaccSpread / 2.0);
            var g := growth - GrowthSpread + (i as real) * (GrowthSpread / 2.0);
            (c.Undefined? <==> w == g) && (c.Defined? ==> c.value == IntrinsicValue(fcf, shares, w, g))
  {
    RateRangeAt(wacc, WaccSpread, j);
    RateRangeAt(growth, GrowthSpread, i);
    CellValue(fcf, shares, RateRange(wacc, WaccSpread)[j], RateRange(growth, GrowthSpread)[i])
  }

  /** Entry [i][j] is Undefined exactly when the base rates differ by
      1% - j% + i/2%: the column's discount rate has come down to the row's
      growth rate. */
  lemma CellUndefinedIff(fcf: real, shares: real, wacc: real, growth: real, i: nat, j: nat)
    requires shares != 0.0 && i < GridSize && j < GridSize
    ensures SensitivityCell(fcf, shares, wacc, growth, i, j).Undefined?
        <==> wacc - growth == 0.01 - 0.01 * (j as real) + 0.005 * (i as real)
  {
    RateRangeAt(wacc, WaccSpread, j);
    RateRangeAt(growth, GrowthSpread, i);
  }

  /** The centre entry is the headline value. */
  lemma CentreIsHeadline(fcf: real, shares: real, wacc: real, growth: real)
    requires shares != 0.0 && wacc != growth
    ensures SensitivityCell(fcf, shares, wacc, growth, 2, 2) == Defined(IntrinsicValue(fcf, shares, wacc, growth))
  {
    RateRangeShape(wacc, WaccSpread);
    RateRangeShape(growth, GrowthSpread);
  }

  /** Once the discount rate exceeds growth by more than three points, every
      entry is defined; for a positive cash flow every entry is then positive,
      falls along each row (higher discount rate) and rises down each column
      (higher growth rate). */
  lemma GridOrdered(fcf: real, shares: real, wacc: real, growth: real)
    requires fcf > 0.0 && shares > 0.0 && wacc - growth > 0.03 && growth > -0.99
    ensures forall i, j :: 0 <= i < GridSize && 0 <= j < GridSize ==>
      SensitivityCell(fcf, shares, wacc, growth, i, j).Defined? &&
      SensitivityCell(fcf, shares, wacc, growth, i, j).value > 0.0
    ensures forall i, j :: 0 <= i < GridSize && 0 <= j < GridSize - 1 ==>
      SensitivityCell(fcf, shares, wacc, growth, i, j + 1).value
        < SensitivityCell(fcf, shares, wacc, growth, i, j).value
    ensures forall i, j :: 0 <= i < GridSize - 1 && 0 <= j < GridSize ==>
      SensitivityCell(fcf, shares, wacc, growth, i, j).value
        < SensitivityCell(fcf, shares, wacc, growth, i + 1, j).value
  {
    var ws := RateRange(wacc, WaccSpread);
    var gs := RateRange(growth, GrowthSpread);
    RateRangeShape(wacc, WaccSpread);
    RateRangeShape(growth, GrowthSpread);
    assert -1.0 < gs[0] && gs[GridSize - 1] < ws[0];
    forall i, j | 0 <= i < GridSize && 0 <= j < GridSize
      ensures -1.0 < gs[i] < ws[j]
    {
      assert gs[0] <= gs[i] && gs[i] <= gs[GridSize - 1];
      assert ws[0] <= ws[j];
    }
    forall i, j | 0 <= i < GridSize && 0 <= j < GridSize
      ensures SensitivityCell(fcf, shares, wacc, growth, i, j).Defined?
      ensures SensitivityCell(fcf, shares, wacc, growth, i, j).value > 0.0
    {
      ValueSign(fcf, shares, ws[j], gs[i]);
    }
    forall i, j | 0 <= i < GridSize && 0 <= j < GridSize - 1
      ensures SensitivityCell(fcf, shares, wacc, growth, i, j + 1).value
        < SensitivityCell(fcf, shares, wacc, growth, i, j).value
    {
      ValueFallsWithWacc(fcf, shares, ws[j], ws[j + 1], gs[i]);
    }
    forall i, j | 0 <= i < GridSize - 1 && 0 <= j < GridSize
      ensures SensitivityCell(fcf, shares, wacc, growth, i, j).value
        < SensitivityCell(fcf, shares, wacc, growth, i + 1, j).value
    {
      ValueRisesWithGrowth(fcf, shares, ws[j], gs[i], gs[i + 1]);
    }
  }

  /** The sliders do not rule out a division by zero in the matrix: at a 5%
      discount rate and 4% growth, entries [0][0], [2][1] and [4][2] are
      Undefined, and only those. */
  lemma SliderCornerHasUndefinedCells(fcf: real, shares: real)
    requires shares != 0.0
    ensures forall i, j :: 0 <= i < GridSize && 0 <= j < GridSize ==>
      (SensitivityCell(fcf, shares, 0.05, 0.04, i, j).Undefined? <==> i == 2 * j)
  {
    forall i, j | 0 <= i < GridSize && 0 <= j < GridSize
      ensures SensitivityCell(fcf, shares, 0.05, 0.04, i, j).Undefined? <==> i == 2 * j
    {
      CellUndefinedIff(fcf, shares, 0.05, 0.04, i, j);
      assert 0.01 == 0.01 - 0.01 * (j as real) + 0.005 * (i as real) <==> (i as real) == 2.0 * (j as real);
    }
  }

  /** In the worked example (a 1e9 cash flow over 5e8 shares, 10% discount
      rate, 2% growth) the matrix holds 25.50 at its centre and nowhere else. */
  lemma WorkedExampleGrid()
    ensures forall i, j :: 0 <= i < GridSize && 0 <= j < GridSize ==>
      (SensitivityCell(1000000000.0, 500000000.0, 0.10, 0.02, i, j) == Defined(25.5) <==> i == 2 && j == 2)
  {
    forall i, j | 0 <= i < GridSize && 0 <= j < GridSize
      ensures SensitivityCell(1000000000.0, 500000000.0, 0.10, 0.02, i, j) == Defined(25.5) <==> i == 2 && j == 2
    {
      RateRangeAt(0.10, WaccSpread, j);
      RateRangeAt(0.02, GrowthSpread, i);
      var w := RateRange(0.10, WaccSpread)[j];
      var g := RateRange(0.02, GrowthSpread)[i];
      assert w - g > 0.0;
      if SensitivityCell(1000000000.0, 500000000.0, 0.10, 0.02, i, j) == Defined(25.5) {
        assert 25.5 * 500000000.0 * (w - g) == 1000000000.0 * (1.0 + g);
        assert 102.0 * (j as real) - 55.0 * (i as real) == 94.0;
        assert 102 * j - 55 * i == 94;
      }
      if i == 2 && j == 2 {
        CentreIsHeadline(1000000000.0, 500000000.0, 0.10, 0.02);
        WorkedExample();
      }
    }
  }

  /** The matrix of the dashboard: the two rate axes and the grid of values
      built over them. */
  method SensitivityMatrix(fcf: real, shares: real, wacc: real, growth: real)
    returns (waccRange: seq<real>, growthRange: seq<real>, grid: seq<seq<Cell>>)
    requires shares != 0.0
    ensures waccRange == RateRange(wacc, WaccSpread)
    ensures growthRange == RateRange(growth, GrowthSpread)
    ensures |grid| == GridSize
    ensures forall i :: 0 <= i < GridSize ==> |grid[i]| == GridSize
    ensures forall i, j :: 0 <= i < GridSize && 0 <= j < GridSize ==>
      grid[i][j] == SensitivityCell(fcf, shares, wacc, growth, i, j)
    ensures wacc != growth ==> grid[2][2] == Defined(IntrinsicValue(fcf, shares, wacc, growth))
  {
    waccRange := RateRange(wacc, WaccSpread);
    growthRange := RateRange(growth, GrowthSpread);
    grid := BuildGrid(fcf, shares, waccRange, growthRange);
    if wacc != growth {
      CentreIsHeadline(fcf, shares, wacc, growth);
    }
  }
}
