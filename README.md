# Equity valuation dashboard: the valuation engine

This project models the computational core of a one-page equity dashboard
(`equity-valuation-dashboard-app.py`). The user picks a discount rate (WACC)
and a terminal growth rate on two sliders. The page then computes:

- a per-share intrinsic value with the single-stage Gordon growth formula
  `fcf * (1 + growth) / (wacc - growth) / shares`;
- the upside (or downside) of that value against the last closing price, in percent;
- a 5 x 5 sensitivity matrix. Its columns are five discount rates spread evenly
  over `wacc ± 2%`. Its rows are five growth rates spread evenly over
  `growth ± 1%`. Each entry is the same formula at that pair of rates.

All arithmetic is over Dafny's exact `real`. The fetched figures (free cash
flow, shares outstanding, last close) are plain inputs.

Files and modules:

- `valuation.dfy`, module `Valuation`: slider conversion, the intrinsic value,
  the upside, and lemmas about the formula. These lemmas cover its sign, its
  monotonicity in each rate, the worked example, and the perpetuity pricing
  equation it solves. A further lemma shows the value splits into the present
  value of any number of years of cash flows plus the discounted perpetuity
  that remains.
- `sensitivity.dfy`, module `Sensitivity`: numpy-style `Linspace`, the two rate
  axes, the matrix entry (`Cell`: `Defined(value)` or `Undefined`), the loop
  that builds the matrix, and lemmas about the axes and the matrix.
- `dashboard.dfy`, module `Dashboard`: one press of "Run Analytics", from the
  slider values to the headline figures and the matrix.

In three places a stricter reading of the dashboard is possible; the model follows the code:

- The code raises no "divergent model" error when `wacc <= growth`. The headline
  formula is left unguarded. The model therefore requires `wacc != growth`, and
  `SliderRatesKeepValueDefined` shows that the slider bounds always guarantee
  `wacc - growth >= 1%`.
- A stricter reading would mark a matrix entry undefined whenever its discount
  rate is at or below its growth rate. The code only breaks down when the two
  are equal: the division by zero then gives numpy's `inf`/`nan`. Below that point the code
  shows a negative "value". The model marks `Undefined` exactly when the rates
  are equal and keeps the negative values (`CellValue`,
  `NegativeWhenGrowthExceedsWacc`).
- The code stops the run when the one-day price history is empty (lines 27-29),
  but it never checks the closing price itself (line 41), so a NaN, zero or
  negative close goes straight into the division at line 42. The model
  requires `price > 0`.

## Model

| member | source | states |
|---|---|---|
| `Valuation.SliderRate` | equity-valuation-dashboard-app.py:14-15 | the rate is the slider percentage divided by 100: rate * 100 equals the percentage, and a positive percentage gives a rate between 0 and itself |
| `Valuation.SliderRatesKeepValueDefined` | equity-valuation-dashboard-app.py:14-15 | within the slider bounds WACC lies in [0.05, 0.15], growth in [0.01, 0.04], and WACC - growth >= 0.01, so the headline division is defined |
| `Valuation.SliderPercents` | equity-valuation-dashboard-app.py:14-15 | the slider bounds: WACC 5-15%, growth 1-4%; within them WACC exceeds growth by at least one percentage point |
| `Valuation.IntrinsicValue` | equity-valuation-dashboard-app.py:34 | the per-share value times shares times (WACC - growth) is next year's cash flow fcf * (1 + growth), which determines it uniquely; defined for WACC != growth and shares != 0 |
| `Valuation.WorkedExample` | equity-valuation-dashboard-app.py:34 | fcf 1e9, 5e8 shares, WACC 10%, growth 2% gives 25.50 per share |
| `Valuation.ValueSign` | equity-valuation-dashboard-app.py:34 | with shares > 0 and WACC > growth > -100%, the value is positive, zero or negative exactly when the free cash flow is |
| `Valuation.NegativeWhenGrowthExceedsWacc` | equity-valuation-dashboard-app.py:56 | the unguarded formula gives a negative value for a positive cash flow when growth exceeds WACC |
| `Valuation.ValueFallsWithWacc` | equity-valuation-dashboard-app.py:34 | for a positive cash flow, a higher WACC (still above growth) gives a strictly lower value |
| `Valuation.ValueRisesWithGrowth` | equity-valuation-dashboard-app.py:34 | for a positive cash flow, a higher growth rate (still below WACC) gives a strictly higher value |
| `Valuation.PerpetuityEquation` | equity-valuation-dashboard-app.py:34 | the firm value (per-share value times shares) is the one and only solution p of p * (1 + WACC) = fcf * (1 + growth) + p * (1 + growth) |
| `Valuation.PerpetuityHorizon` | equity-valuation-dashboard-app.py:34 | for every horizon n, the firm value equals the discounted cash flows of years 1..n plus the firm value discounted n years at ((1 + growth) / (1 + WACC))^n |
| `Valuation.Upside` | equity-valuation-dashboard-app.py:42 | for a positive price, the value is price * (1 + upside / 100); the upside is zero, positive or negative exactly when the value equals, exceeds or falls short of the price |
| `Sensitivity.Linspace` | equity-valuation-dashboard-app.py:51-52 | n values; the first is lo and, for n >= 2, the last is hi |
| `Sensitivity.LinspaceStep` | equity-valuation-dashboard-app.py:51-52 | consecutive values differ by (hi - lo) / (n - 1) |
| `Sensitivity.LinspaceSymmetric` | equity-valuation-dashboard-app.py:51-52 | values at mirrored positions sum to lo + hi |
| `Sensitivity.LinspaceIncreasing` | equity-valuation-dashboard-app.py:51-52 | for lo < hi the values ascend strictly |
| `Sensitivity.RateRange` | equity-valuation-dashboard-app.py:51-52 | a rate axis has 5 values, from base - spread to base + spread |
| `Sensitivity.RateRangeAt` | equity-valuation-dashboard-app.py:51-52 | the k-th rate of an axis is base - spread + k * spread / 2 |
| `Sensitivity.RateRangeShape` | equity-valuation-dashboard-app.py:51-52 | the middle rate is exactly the base, the axis is symmetric about it, rates are spread / 2 apart, and they ascend strictly for a positive spread |
| `Sensitivity.CellValue` | equity-valuation-dashboard-app.py:56 | an entry is Undefined exactly when its two rates coincide; otherwise it is the headline formula at those rates, negative values included |
| `Sensitivity.BuildGrid` | equity-valuation-dashboard-app.py:54-57 | one row per growth rate in order, one entry per discount rate in order, entry [i][j] computed at (WACC j, growth i) with the same fcf and shares |
| `Sensitivity.SensitivityCell` | equity-valuation-dashboard-app.py:51-56 | entry [i][j] of the matrix is the formula at discount rate WACC - 2% + j * 1% and growth rate growth - 1% + i * 0.5%, Undefined exactly where those two rates coincide |
| `Sensitivity.CellUndefinedIff` | equity-valuation-dashboard-app.py:51-56 | entry [i][j] is Undefined exactly when WACC - growth = 1% - j% + i/2% |
| `Sensitivity.CentreIsHeadline` | equity-valuation-dashboard-app.py:34-57 | the centre entry [2][2] is the headline intrinsic value |
| `Sensitivity.GridOrdered` | equity-valuation-dashboard-app.py:51-57 | when WACC exceeds growth by more than 3 points, every entry is defined; with a positive cash flow every entry is positive, falls strictly along each row and rises strictly down each column |
| `Sensitivity.SliderCornerHasUndefinedCells` | equity-valuation-dashboard-app.py:14-57 | at the slider-legal setting WACC 5%, growth 4%, exactly the entries [0][0], [2][1] and [4][2] are Undefined |
| `Sensitivity.WorkedExampleGrid` | equity-valuation-dashboard-app.py:51-57 | in the worked example the matrix holds 25.50 at the centre and nowhere else |
| `Sensitivity.SensitivityMatrix` | equity-valuation-dashboard-app.py:51-57 | the two axes are the WACC ± 2% and growth ± 1% ranges; the matrix is 5 x 5 with entry [i][j] at (WACC j, growth i); the centre is the headline value whenever that is defined |
| `Dashboard.RunAnalytics` | equity-valuation-dashboard-app.py:14-57 | from slider percentages within bounds: the headline value at the converted rates, its upside against the price (sign and round trip), the two axes, and the 5 x 5 matrix whose centre equals the headline value |

## Left out

- Page setup, sidebar widgets, the button, metrics and the table display (lines 7-16, 20, 45-48, 63-64) are presentation only. The exception is the slider bounds and the division by 100 on lines 14-15, which `SliderPercents` and `SliderRate` model.
- Fetching price history, cash flow, share count and news from the market-data service (lines 18, 26-32, 41, 73) is network I/O. Free cash flow, shares outstanding and the last close are inputs.
- The `try`/`except` error messages and `st.stop()` (lines 25-37, 72-82) report fetch and data failures, including an error in the computation at line 34, and end the page run. A missing ticker or missing data is not modelled.
- The news sidebar (lines 66-82) is presentation only.
- Building the DataFrame and formatting the row/column labels and values (lines 59-64) is string formatting of floats for display.
- IEEE-754 rounding in `np.linspace` and in the divisions is not modelled. Over the reals the centre entry equals the headline value exactly. In doubles the two agree only approximately. In doubles, whether a matrix entry's two rates are exactly equal, and so print as `inf`, also depends on rounding.
- Valuation.IntrinsicValue: the unguarded divisions by `wacc - growth` and by `shares` are modelled as preconditions. In doubles a zero divisor gives `inf` or `nan`, not an error.
- Sensitivity.CellValue: a zero share count is a precondition, as it is for `BuildGrid`, `SensitivityCell` and `SensitivityMatrix`. At line 56 numpy would give `inf` or `nan` for it, as it does for equal rates, but the model marks only equal rates as `Undefined`.
- Valuation.Upside: the division by a zero or negative price is modelled as the precondition `price > 0`.
- Valuation.ValueSign: also needs growth > -100%, which the formula's factor `1 + growth` demands. The sliders keep growth at 1% or more.
