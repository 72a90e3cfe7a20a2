// One press of "Run Analytics": the headline value and upside from the
// fetched figures and the two slider settings, followed by the sensitivity
// matrix around the same rates. The fetched figures (free cash flow, shares
// outstanding, last close) arrive as plain inputs.

module Dashboard {
  import opened Valuation
  import opened Sensitivity

  method RunAnalytics(fcf: real, shares: real, price: real, waccPercent: real, growthPercent: real)
    returns (intrinsicValue: real, upside: real,
             waccRange: seq<real>, growthRange: seq<real>, grid: seq<seq<Cell>>)
    requires SliderPercents(waccPercent, growthPercent)
    requires shares != 0.0 && price > 0.0
    ensures intrinsicValue
         == IntrinsicValue(fcf, shares, SliderRate(waccPercent), SliderRate(growthPercent))
    ensures upside > 0.0 <==> intrinsicValue > price
    ensures upside < 0.0 <==> intrinsicValue < price
    ensures intrinsicValue == price * (1.0 + upside / 100.0)
    ensures waccRange == RateRange(SliderRate(waccPercent), WaccSpread)
    ensures growthRange == RateRange(SliderRate(growthPercent), GrowthSpread)
    ensures |grid| == GridSize
    ensures forall i :: 0 <= i < GridSize ==> |grid[i]| == GridSize
    ensures forall i, j :: 0 <= i < GridSize && 0 <= j < GridSize ==>
      grid[i][j] == CellValue(fcf, shares, waccRange[j], growthRange[i])
    ensures grid[2][2] == Defined(intrinsicValue)
  {
    var wacc := SliderRate(waccPercent);
    var growth := SliderRate(growthPercent);
    SliderRatesKeepValueDefined(waccPercent, growthPercent);
    intrinsicValue := IntrinsicValue(fcf, shares, wacc, growth);
    upside := Upside(intrinsicValue, price);
    waccRange, growthRange, grid := SensitivityMatrix(fcf, shares, wacc, growth);
  }
}
