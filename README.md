# SROI valuation engine in Dafny

This project models the valuation engine of a Social Return on Investment
(SROI) calculator. The engine is `calculate_advanced_sroi` in `sroi_app.py`.
It takes four inputs:

- a total investment;
- an annual discount rate in percent;
- a duration in years;
- an ordered list of outcome records.

Each record carries a stakeholder/outcome label, a financial proxy, a
quantity, and the deadweight, displacement, attribution and drop-off
fractions.

For every record with a non-empty label, the engine:

1. computes the first-year net impact;
2. decays that impact by the drop-off once per year from year 2 on;
3. divides each year's impact by `(1 + r/100)^n`;
4. adds each year's present value into a per-year totals list, in place.

It returns four things:

- the SROI ratio, which is 0 when the investment is not positive;
- the total present value, the sum of the per-year totals;
- one breakdown row per record;
- the per-year totals.

Around the call, the program derives the net present value and appends a
synthetic summary row, "TOTAL PV PER YEAR". It also keeps a session
counter of form rows, bounded to 1..10.

Files:

- `sroi_spec.dfy` (module `SroiSpec`) holds the closed-form definitions:
  impact, present value, per-record rows, per-year totals, ratio, NPV, the
  summary row and the whole report (`Calculate`). It also holds the lemmas
  about them.
- `sroi_engine.dfy` (module `SroiEngine`) holds the engine as the program
  runs it. It has a loop over the records, a year loop that keeps a running
  decayed impact and a running record total, and an array of per-year
  totals updated in place. It is proved equal to `Calculate`.
- `row_counter.dfy` (module `Session`) holds the row counter as a class
  with add-row and remove-row methods.

Modelling decisions:

- Money, rates and fractions are mathematical reals. `Pow` is the integer
  power that `**` computes at `sroi_app.py:62`.
- A record dictionary becomes the datatype `Outcome`. The label field is
  named `stakeholder`, the dictionary's own key.
- The result dictionary with `"Y{n} PV"` keys becomes
  `Row(stakeholder, totalPv, yearPvs)`. `yearPvs[n-1]` is the `Yn PV`
  column.
- A record is skipped when its label is the empty string. The form's text
  input always yields a string, and the empty string is the only falsy one.
- A duration of zero or less gives an empty totals list and an empty year
  loop, as `[0.0] * duration` and `range(duration)` do (`Horizon`).
- The engine requires `1 + rate/100 != 0` (`RateDefined`). At a rate of
  -100% the program divides by `0.0 ** n`, which is zero. Python raises
  `ZeroDivisionError` there; it does not return an infinity. The
  precondition also excludes -100% runs where no division happens and the
  program returns normally: a duration of zero or less, or every label
  empty.
- The year loop is its own method, `AccumulateRecord`. In the source it is
  the inner loop of `calculate_advanced_sroi`. Splitting it keeps each proof
  small. The outer method still runs the records loop and owns the totals
  array.
- Worked example: take one Employment record (50000 x 2, all fractions
  0.1) over 3 years at 3.5% with an investment of 100000.
  `EmploymentYearPvs` and `EmploymentReport` give its year PVs and the
  whole report as exact quotients. `EmploymentExample` states the impacts
  exactly: 72900, 65610 and 59049. It bounds the year PVs near 70434.78,
  61247.64 and 53258.81, the total near 184941.23, the ratio near 1.8494
  and the NPV near 84941.23.

## Model

| member | source | states |
|---|---|---|
| `SroiEngine.CalculateAdvancedSroi` | sroi_app.py:41-79 | The nested loops return exactly the closed-form report: `details` are the rows of the non-empty-labelled records in input order, `yearlyTotals` has one entry per year and entry y is the year-(y+1) PV summed over those records, the total is the sum of the yearly totals and equals the sum of the row totals, the ratio is total/input if input > 0 else 0 |
| `SroiEngine.AccumulateRecord` | sroi_app.py:52-66 | The year loop's running decay and discounting yield the record's PVs for years 1..duration, its running total is their sum, and each year's PV is added to that year's slot of the totals buffer and nothing else changes |
| `SroiSpec.YearPvs` | sroi_app.py:56-64 | A record's yearly PV list has exactly `duration` entries, and entry i is the PV of year i+1 |
| `SroiSpec.ImpactRecurrence` | sroi_app.py:52-59 | Year 1 carries the undecayed first-year impact, and each later year's impact is the previous year's times (1 - drop_off), so the in-place update computes impact1 * (1 - drop_off)^(n-1) |
| `SroiSpec.NoDecayWithoutDropOff` | sroi_app.py:52-59 | With drop_off = 0 every year's impact equals the first-year impact |
| `SroiSpec.DropOffIrrelevantForOneYear` | sroi_app.py:56-62 | Over a one-year horizon the drop-off has no effect on one record's row |
| `SroiSpec.DropOffIrrelevantReport` | sroi_app.py:41-79 | Over a one-year horizon, changing any records' drop-off fractions leaves the whole result unchanged: rows, yearly totals, total present value and ratio |
| `SroiSpec.FullAdjustmentRemovesImpact` | sroi_app.py:49-50 | A deadweight, displacement or attribution of exactly 1 makes the first-year impact 0 |
| `SroiSpec.InitialImpactAntitone` | sroi_app.py:49-50 | For a non-negative proxy*qty, raising deadweight, displacement or attribution (each up to 1) never raises the first-year impact, which stays non-negative |
| `SroiSpec.PvDiscountsImpact` | sroi_app.py:62 | The year-n PV times (1 + r/100)^n is the year-n impact, and it is non-negative for a positive base and a non-negative impact |
| `SroiSpec.Pow` | sroi_app.py:62 | The discount factor (1 + r/100)^n is non-zero when the base is, so the division is defined, and positive when the base is |
| `SroiSpec.IncludedMembers` | sroi_app.py:45-46 | A record is processed exactly when it occurs in the input with a non-empty label; filtering never adds records |
| `SroiSpec.IncludedConcat` | sroi_app.py:45-46 | Filtering distributes over concatenation, so processed records keep their input order |
| `SroiSpec.IncludedSkipsEmpty` | sroi_app.py:46 | Removing an empty-labelled record anywhere in the input leaves the processed list unchanged |
| `SroiSpec.EmptyLabelIgnored` | sroi_app.py:45-46 | An empty-labelled record anywhere in the input changes nothing in the returned ratio, total, rows or yearly totals |
| `SroiSpec.RowsOf` | sroi_app.py:68-75 | One row per processed record, in the same order, each being that record's row |
| `SroiSpec.RowsShape` | sroi_app.py:49-75 | The number of rows equals the number of non-empty-labelled records; each row has its record's non-empty label, exactly `duration` yearly PVs, each equal to impact_n / (1 + r/100)^n, and a total equal to the sum of its yearly PVs |
| `SroiSpec.TotalPvIsSumOfRowTotals` | sroi_app.py:65-77 | The total PV, the sum of the per-year totals, equals the sum of the per-record totals |
| `SroiSpec.YearlyTotalsAreColumnSums` | sroi_app.py:43-66 | The per-year totals list has `duration` entries, and entry y is the sum of column y of the breakdown rows |
| `SroiSpec.Ratio` | sroi_app.py:78 | For a positive investment the ratio times the investment is the total PV; otherwise the ratio is 0 |
| `SroiSpec.NpvAgreesWithRatio` | sroi_app.py:128 | NPV is total PV minus investment; for a positive investment NPV is positive exactly when the ratio exceeds 1 and zero exactly when it is 1; the ratio is total/input or 0 |
| `SroiSpec.SummaryRowConsistent` | sroi_app.py:148-150 | The "TOTAL PV PER YEAR" row has one column per year, each the sum of that column of the breakdown; its total is the grand total, the sum of its own columns and the sum of the row totals |
| `SroiSpec.EmploymentYearPvs` | sroi_app.py:49-64 | For one Employment record (50000 x 2, all fractions 0.1) at 3.5% over 3 years the yearly PVs are exactly 72900/1.035, 65610/1.071225 and 59049/1.108717875 |
| `SroiSpec.EmploymentReport` | sroi_app.py:41-79 | For that record with an investment of 100000 the result is one "Employment" row whose yearly PVs are those three quotients and whose total is their sum; the yearly totals equal that row's PVs, the total PV is the same sum and the ratio is that sum / 100000 |
| `SroiSpec.EmploymentExample` | sroi_app.py:41-79 | For that record the impacts are 72900, 65610, 59049; the single row's three year PVs lie in (70434.78, 70434.79), (61247.63, 61247.64) and (53258.81, 53258.82); the total PV lies in (184941, 184942), the ratio in (1.8494, 1.8495) and the NPV in (84941, 84942) |
| `Session.AfterAdd` | sroi_app.py:95-96 | An add-row click raises the count by exactly one when it is below 10, else leaves it; it never takes a count of at most 10 above 10 |
| `Session.AfterRemove` | sroi_app.py:97-98 | A remove-row click lowers the count by exactly one when it is above 1, else leaves it; it never takes a count of at least 1 below 1 |
| `Session.AddRemoveUndo` | sroi_app.py:95-98 | Within the bounds, remove undoes add and add undoes remove |
| `Session.RowCounter.constructor` | sroi_app.py:92-93 | A new session starts with one row, within [1, 10] |
| `Session.RowCounter.AddRow` | sroi_app.py:95-96 | The counter becomes AfterAdd of its old value and stays within [1, 10] |
| `Session.RowCounter.RemoveRow` | sroi_app.py:97-98 | The counter becomes AfterRemove of its old value and stays within [1, 10] |

## Left out

- Page setup, the CSS and glossary markup, the sidebar inputs and the
  per-row form widgets (`sroi_app.py:1-38`, `82-89`, `100-122`): these are
  user-interface code. The slider ranges [0, 1] and the 1..10 horizon are
  bounds on the caller's side. The engine does not assume them, so the
  model does not either.
- Storing results in the session and displaying them (`sroi_app.py:125-153`).
  This covers the `:.2f` and thousands-separator formatting and the metric
  and table widgets. It is presentation. The NPV expression and the summary
  row in this range are modelled.
- DataFrame construction, concatenation and the UTF-8-with-BOM CSV export
  (`sroi_app.py:145`, `152`, `160-161`). These are foreign library calls and
  byte encoding.
- PDF generation, its latin-1 encoding and the fallback warning
  (`sroi_app.py:164-182`). This is a foreign library plus I/O.
- IEEE-754 floating point. All arithmetic is over exact reals, so neither
  rounding error nor float overflow is modelled. Overflow in `**`
  (`sroi_app.py:62`) and in converting an integer `proxy * qty` to float
  (`sroi_app.py:49-50`) raises `OverflowError`. Overflow in `*`, `+` and
  `/` (`sroi_app.py:59`, `62`, `65-66`, `77`, `128`) silently yields an
  infinity, and later results can hold inf or nan.
- A rate of exactly -100% is excluded by a precondition. Neither the
  `ZeroDivisionError` nor the normal return it gives is modelled. The
  program returns normally when the duration is at most 0 or every label is
  empty.
- Dictionary keys and the column names of the breakdown. The row's field
  order replaces the `"Stakeholder/Outcome"`, `"Total PV (by Item)"` and
  `"Y{n} PV"` keys.
