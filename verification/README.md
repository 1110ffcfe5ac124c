# MeasurementTextField: the picker engine, in Dafny

MeasurementTextField is an iOS text field for physical quantities. A quantity is entered either on a
decimal keyboard in one unit, or on a picker whose columns each show one unit: feet and
inches, or degrees, arc minutes and arc seconds. This project models the logic under the UIKit
shell and proves properties of that model.

- **Units and measurements** (`Units`). Every unit is a positive factor to its dimension's base
  unit. Measurements convert, add and subtract as Foundation's `Measurement` does: operands that
  share a unit keep it, and otherwise the result is in the base unit.
- **Picker columns** (`PickerColumns`). `PickerColumn.init` generates its rows by repeatedly
  adding `step` to the lower bound while the row is below the upper bound. `Rows` is that
  recursion; `GenerateRows` is the loop as written.
- **Decomposition** (`Decomposition`). `setPicker(to:columns:)` splits a measurement into one row
  index per column, largest unit first. Each column sees a residual: the value minus the rows
  already chosen, in the column's unit. The repository has two versions of the row rule, and a
  third one is the corrected rule. `Rounding` names the three:
  - `Tolerance` is `MeasurementTextField/Classes/MeasurementTextField.swift`: the first row within
    0.0001 of the residual, with clamps at both edges, and otherwise row 0.
  - `Truncation` is the root `MeasurementTextField.swift`: one before the first row above the
    residual, and otherwise row 0.
  - `Floor` is the corrected rule: the last row not above the residual, clamped to the column.
  `Decompose` is generic over the rule. `None` stands for the trap on a column without rows.
- **Recomposition** (`Recomposition`). `value(at:in:)` and `sumOf` add the selected rows back
  into one measurement.
- **The control** (`MeasurementTextField`). It covers the `InputType` datatype and the
  construction-time check that columns go from the largest unit to the smallest. It also covers
  the `value` setter, `onTextChanged`, the keyboard edit gate `shouldChangeCharactersIn`,
  `showValue`'s text for a selection, and a row selection on the picker (`didSelectRow`).
- **The cartesian-product generator** (`CartesianProduct`). This is `Product.swift`: an odometer
  of indices, one per pool, advanced from the right with a carry.
- **Round trip** (`RoundTrip`). Under the corrected rule, reading a value off the picker and
  setting it back selects the same rows.
- **Fixtures** (`Fixtures`). These are the repository's concrete pickers: the imperial
  body-height columns and the example app's angle columns. Lemmas state what the rules do with
  1.6 m and 1.8 m on the height picker, and with 150.5° on the angle picker. The example app
  sets 1.6 m and 150.5° on the `UITextField` control, which uses the tolerance rule.

Values are exact reals, not IEEE doubles. The row threshold 0.0001 is kept as an exact constant.
The number and measurement formatters are foreign code, so they enter as function parameters
the model knows nothing about: `parse` for `NumberFormatter.number(from:)`, `format` for
`NumberFormatter.string(from:)` and `describe` for `MeasurementFormatter.string(from:)`.

`Floor` comes from the repository itself. Inside a column, the root file's truncation rule
already picks the largest row at or below the residual (`MeasurementTextField.swift:231-236`).
It fails only at the top edge, where the tolerance rule clamps to the last row
(`MeasurementTextField/Classes/MeasurementTextField.swift:209-211`). `Floor` combines the two.
The tolerance rule, in turn, shows the example app's 1.6 m as 0 ft 10 in and its 150.5° as
0° 59′ 59″ (`Example/MeasurementTextField/ViewController.swift:75` and `:83`); see Findings.

## Model

| member | source | states |
|---|---|---|
| `Units.Converted` | MeasurementTextField/Classes/MeasurementTextField.swift:194-196 | `converted(to:)` gives a measurement in the target unit with the same amount in base units |
| `Units.ConvertRoundTrip` | MeasurementTextField/Classes/MeasurementTextField.swift:194-196 | converting to any unit and back gives the original measurement exactly |
| `Units.Plus` | MeasurementTextField/Classes/MeasurementTextField.swift:215 | measurement `+` adds the amounts in base units; same units stay, mixed units give the base unit |
| `Units.Minus` | MeasurementTextField/Classes/MeasurementTextField.swift:194 | measurement `-` subtracts the amounts in base units, with the same unit rule as `+` |
| `PickerColumns.GenerateRows` | PickerColumn.swift:23-29 | the loop as written yields the progression `lower + k*step` of rows below `upper`, nothing for an empty range, and agrees with the recursive `Rows` |
| `PickerColumns.MakeColumn` | PickerColumn.swift:18-30 | the column stores unit, range and step unchanged; its rows are the progression below the upper bound, and empty when the range is degenerate |
| `PickerColumns.RowsAreProgression` | PickerColumn.swift:23-28 | `Rows`, the loop written as a recursion, is the progression: row `k` is `lower + k*step`, every row is below `upper`, and one more step would reach `upper` |
| `PickerColumns.ProgressionUnique` | PickerColumn.swift:23-28 | at most one sequence is such a progression, so the rows are determined by lower bound, upper bound and step |
| `PickerColumns.RowsAscendByStep` | PickerColumn.swift:25-27 | consecutive rows differ by exactly `step`, so the rows are strictly increasing |
| `PickerColumns.RowsBounds` | PickerColumn.swift:24-26 | there are rows exactly when lower < upper, and then the first row is the lower bound |
| `PickerColumns.RowsLength` | PickerColumn.swift:25-28 | there are exactly `n` rows when the `(n-1)`-th step is below `upper` and the `n`-th is not |
| `PickerColumns.ZeroToNineExcludesNine` | PickerColumn.swift:25 | the closed range `0...9` with step 1 gives rows 0 through 8 and never 9 |
| `Decomposition.FirstNearSpec` | MeasurementTextField/Classes/MeasurementTextField.swift:199-204 | the scan stops at the first row within the threshold, and finds nothing exactly when no row is that close |
| `Decomposition.FirstAboveSpec` | MeasurementTextField.swift:231-236 | the scan stops at the first row above the residual, and finds nothing exactly when every row is at or below it |
| `Decomposition.ToleranceCases` | MeasurementTextField/Classes/MeasurementTextField.swift:199-211 | `SelectTolerance`, the tolerance rule, case by case: below the first row or within the threshold of it gives 0; otherwise above the last row or within the threshold of it gives the last; otherwise the first row within the threshold, and row 0 when no row is that close |
| `Decomposition.ToleranceSelectsExactRow` | MeasurementTextField/Classes/MeasurementTextField.swift:199-211 | on rows spaced more than the threshold apart, a residual equal to a row selects that row |
| `Decomposition.TruncationCases` | MeasurementTextField.swift:231-236 | `SelectTruncation`, the truncation rule: with `j` the first row above the residual the index is `max(0, j-1)`, and 0 when no row is above it |
| `Decomposition.TruncationOnAscendingRows` | MeasurementTextField.swift:223-236 | on ascending rows, inside the column the index is the floor of the residual; below the first row and at or above the last row it is 0 |
| `Decomposition.FloorIsClampedFloor` | MeasurementTextField/Classes/MeasurementTextField.swift:199-211 | `SelectFloor`, the corrected rule, picks the last row that does not exceed the residual by the threshold or more, clamped to 0 and to the last row |
| `Decomposition.FloorSelectsExactRow` | MeasurementTextField/Classes/MeasurementTextField.swift:199-211 | under the corrected rule, a residual equal to a row selects that row |
| `Decomposition.DecomposeFromSpec` | MeasurementTextField/Classes/MeasurementTextField.swift:189-216 | `DecomposeFrom`, the loop over the columns with its accumulator, traps exactly on a column without rows; otherwise every column gets the row chosen for the value minus the rows before it |
| `Decomposition.Decompose` | MeasurementTextField.swift:222-243 | one valid row index per column, each chosen by the rule from that column's residual; `None` exactly when a column has no rows |
| `Decomposition.DecomposeWith` | MeasurementTextField/Classes/MeasurementTextField.swift:184-218 | the same for any row rule that names an existing row of a non-empty column |
| `Decomposition.ResidualInBase` | MeasurementTextField/Classes/MeasurementTextField.swift:192-197 | the residual computed with or without an accumulator is the value minus the accumulated amount, in the column's unit |
| `Decomposition.AccumulateRow` | MeasurementTextField/Classes/MeasurementTextField.swift:213-215 | the accumulator grows by exactly the selected row's amount |
| `Decomposition.DecomposeUnique` | MeasurementTextField.swift:222-243 | a full path whose every column follows the rule from its own residual is the decomposition |
| `Recomposition.SumOf` | MeasurementTextField/Classes/MeasurementTextField.swift:226-229 | no result exactly for no measurements; one measurement is returned as it is; otherwise the base-unit total, in the first unit when all units agree and in the base unit when any differs |
| `Recomposition.Reduce` | MeasurementTextField.swift:253 | a left fold of `+` adds every operand's base-unit amount; it keeps a unit all operands share, and gives the base unit as soon as one operand's unit differs |
| `Recomposition.ValueAt` | MeasurementTextField/Classes/MeasurementTextField.swift:152-162 | no value exactly for an empty path; otherwise the base-unit amount is the sum of each selected row times its unit's factor |
| `Recomposition.ValueAtSharedUnit` | MeasurementTextField.swift:187-197 | when every column has the same unit the recomposed value is in that unit |
| `Recomposition.RecomposeError` | MeasurementTextField.swift:216-254 | recomposing the rows chosen for a value loses exactly the last column's residual minus its row |
| `Recomposition.ShortfallOfRecomposition` | MeasurementTextField/Classes/MeasurementTextField.swift:152-162 | the shortfall is the value minus what `value(at:in:)` returns for the path |
| `Recomposition.FloorShortfallAbove` | MeasurementTextField/Classes/MeasurementTextField.swift:213-215 | when the last row is not above the last residual, recomposition overshoots by at most the threshold in the last unit |
| `Recomposition.FloorShortfall` | MeasurementTextField/Classes/MeasurementTextField.swift:181-229 | for the path the corrected rule decomposes a value into, recomposition overshoots by at most the threshold in the last unit (unless the last residual is below that column's first row), and falls short by less than the gap to the last column's next row |
| `Recomposition.FloorShortfallBelow` | MeasurementTextField/Classes/MeasurementTextField.swift:213-215 | when the next row is above the last residual, recomposition falls short by less than the gap to that row |
| `MeasurementTextField.UnitInBase` | MeasurementTextField/Classes/MeasurementTextField.swift:37 | one unit of a column, converted to the base unit, is the unit's factor |
| `MeasurementTextField.OrderedBelowIff` | MeasurementTextField/Classes/MeasurementTextField.swift:35-40 | `OrderedBelow`, the check's loop, passes exactly when unit sizes strictly decrease and the first is below the starting bound |
| `MeasurementTextField.ColumnsOrderedIff` | MeasurementTextField.swift:42-47 | starting from the largest finite double, the loop passes exactly on columns ordered from largest unit to smallest |
| `MeasurementTextField.Init` | MeasurementTextField/Classes/MeasurementTextField.swift:32-47 | a debug build refuses exactly the pickers whose columns are out of order; the new control has no value, empty text and no selection |
| `MeasurementTextField.SplitJoin` | MeasurementTextField/Classes/MeasurementTextField.swift:178 | the joined text falls apart into the same segments again when no segment holds a space |
| `MeasurementTextField.JoinLayout` | MeasurementTextField/Classes/MeasurementTextField.swift:178 | `joined(separator: " ")` puts each segment after all earlier segments and one space per earlier segment, puts a space after every segment but the last, and ends with the last segment |
| `MeasurementTextField.SpaceSeparatedIsJoin` | MeasurementTextField/Classes/MeasurementTextField.swift:178 | any text with that layout is the joined text, so the layout determines it completely |
| `MeasurementTextField.ShowValue` | MeasurementTextField/Classes/MeasurementTextField.swift:164-179 | the shown text is the described row measurements, one per column in column order, with a single space between neighbours; the empty text for an empty path; when no description holds a space, splitting the text at its spaces gives them back |
| `MeasurementTextField.SetValue` | MeasurementTextField/Classes/MeasurementTextField.swift:107-126 | the value is stored; keyboard text becomes `""` or the formatted value in the keyboard's unit; a picker keeps its text and selection for no value, and otherwise shows and selects the decomposition |
| `MeasurementTextField.SetValueSelects` | MeasurementTextField.swift:100-101 | the selection the setter leaves is the decomposition of the value |
| `MeasurementTextField.OnTextChanged` | MeasurementTextField/Classes/MeasurementTextField.swift:131-150 | a picker only reacts to empty text, by clearing the value and notifying; a keyboard stores the parsed amount in its unit, or none, and notifies |
| `MeasurementTextField.PickerTextChangeNeverSets` | MeasurementTextField.swift:115-121 | in picker mode a text change keeps or clears the value and never sets a new one |
| `MeasurementTextField.ShouldChangeCharacters` | MeasurementTextField/Classes/MeasurementTextField.swift:290-295 | a picker refuses every edit; a keyboard accepts an edit exactly when the spliced text parses or is empty |
| `MeasurementTextField.SpliceUndo` | MeasurementTextField.swift:145 | putting the removed characters back over the replacement restores the text |
| `MeasurementTextField.UserEditKeepsSync` | MeasurementTextField.swift:112-147 | gated edits keep a keyboard control's value equal to what its text parses to, and an accepted edit notifies with the new value |
| `MeasurementTextField.SetThenTextChange` | MeasurementTextField.swift:88-131 | the text the keyboard setter writes would, if it were handled as an edit, give back the same amount whenever parsing undoes formatting for it; the control itself never handles its own assignment as an edit, so this says the shown text and the stored value agree |
| `CartesianProduct.Init` | Product.swift:35-39 | every index starts at 0, and the generator is done at once exactly when every pool is empty |
| `CartesianProduct.InitRepeating` | Product.swift:47-50 | `count` copies of the collection, every index at 0, done exactly when the count is 0 or the collection is empty |
| `CartesianProduct.Next` | Product.swift:56-67 | once done, no element and no change; otherwise the tuple of each pool's element at its index, or a trap when an index is outside its pool |
| `CartesianProduct.IncrementLocation` | Product.swift:82-94 | pools and positions right of the increment are unchanged, and a finished generator stays finished |
| `CartesianProduct.IncrementCounts` | Product.swift:82-94 | as a mixed-radix number the indices go up by one, or wrap to 0 with `done` set when they were at the largest value |
| `CartesianProduct.IncrementOdometer` | Product.swift:82-94 | when the generator goes on, one position goes up by one, the positions right of it return to 0 and those left of it stay |
| `CartesianProduct.NextAdvances` | Product.swift:56-67 | each `next()` hands out an element, leaves one fewer to go, and moves to indices later in lexicographic order |
| `CartesianProduct.Run` | Product.swift:11-17 | the whole run hands out the tuples at its indices in strictly increasing lexicographic order, as many as remain |
| `CartesianProduct.RunLength` | Product.swift:11-17 | from `init` over non-empty pools the run has exactly the product of the pool sizes many elements |
| `CartesianProduct.MixedPoolsTrap` | Product.swift:38 | with an empty pool beside a non-empty one, `init` is not done and the first `next()` traps |
| `CartesianProduct.InitGuarded` | Product.swift:35-39 | the corrected initialiser is done exactly when there are no pools or some pool is empty, and its state is valid |
| `CartesianProduct.GuardedRunLength` | Product.swift:11-17 | the corrected initialiser's run has the product of the pool sizes many elements, and never traps |
| `RoundTrip.FloorKeepsColumn` | MeasurementTextField/Classes/MeasurementTextField.swift:189-215 | on a value equal to a path's total, each column of a nested path selects its own row again under the corrected rule |
| `RoundTrip.FloorRecoversPath` | MeasurementTextField/Classes/MeasurementTextField.swift:181-224 | a value equal to the total of a nested path decomposes to exactly that path under the corrected rule |
| `MeasurementTextField.PickerSelected` | MeasurementTextField/Classes/MeasurementTextField.swift:275-285 | a row selection traps exactly when a selected row does not exist (-1 for a column without rows) or there are more components than columns; otherwise the text shows the selection, the value becomes the base-unit total of the selected rows, and observers are told that value; outside picker mode a debug build fails and a release build changes nothing |
| `RoundTrip.SelectThenSetIsStable` | MeasurementTextField.swift:175-185 | after a nested selection on every column, setting the value it stands for under the corrected rule leaves rows, text and value as they are |
| `RoundTrip.FloorRoundTrip` | MeasurementTextField/Classes/MeasurementTextField.swift:152-162 | reading a nested selection with `value(at:in:)` and setting the value back selects the same rows |
| `Fixtures.MakeColumnIsColumnOf` | PickerColumn.swift:18-30 | the column `init` builds has the rows its range and step generate |
| `Fixtures.AngleTolerance` | Example/MeasurementTextField/ViewController.swift:20-24 | under the tolerance rule, which the example app's control uses, 150.5° decomposes to [0, 59, 59] on the same columns |
| `Fixtures.AngleTruncation` | Example/MeasurementTextField/ViewController.swift:20-24 | on degrees `0...360` and arc minutes and arc seconds `0...60`, 150.5° decomposes to [150, 30, 0] |
| `Fixtures.HeightDecomposes` | MeasurementTextField/Classes/MeasurementTextField+BodyMetrics.swift:15-18 | on feet and inches columns, a height decomposes to `[feet, inches]` when the rule picks those rows from the two residuals |
| `Fixtures.HeightTruncation` | MeasurementTextField/Classes/MeasurementTextField+BodyMetrics.swift:15-18 | under truncation 1.6 m shows as 5 ft 2 in |
| `Fixtures.HeightTolerance` | Example/MeasurementTextField/ViewController.swift:75 | under the tolerance rule 1.6 m shows as 0 ft 10 in |
| `Fixtures.TallHeightTruncation` | MeasurementTextField.swift:231-236 | under truncation 1.8 m shows as 5 ft 0 in |
| `Fixtures.HeightFloor` | MeasurementTextField/Classes/MeasurementTextField+BodyMetrics.swift:15-18 | under the corrected rule 1.6 m shows as 5 ft 2 in and 1.8 m as 5 ft 10 in |
| `Fixtures.HeightColumnOrder` | MeasurementTextField.swift:40-49 | feet before inches passes the debug check, and inches before feet fails it |

## Left out

- The UIKit shell is not modelled. This covers the picker data source and the delegate methods
  other than `didSelectRow`, and the forwarding of text field delegate calls. It also covers the
  caret, the unit label, tint, font, layout and `TextField.swift`. The selected rows that
  `UIPickerView+ColumnPath.swift` reads off the picker are a parameter of `PickerSelected`.
- Recomposition.ValueAt: requires every index of the path to name an existing row, and so do
  `MeasurementTextField.Described` and `MeasurementTextField.ShowValue`. In the source an index
  that names no row traps. `PickerSelected` models that trap as `None` before it calls them.
  `setPicker` only ever passes them paths that `Decompose` returned.
- Units.Plus, Units.Minus: accept operands of different dimensions, which Swift's generic
  `Measurement<UnitType>` rules out at compile time. The model gives them base-unit arithmetic
  in the left operand's dimension instead of a precondition. Every contract still holds for
  the operands Swift accepts.
- `pickerView.selectRow` calls are not modelled. The row they would select is kept as the
  field's `selection`.
- IEEE double rounding is not modelled. All values are exact reals, so the drift of repeated
  `row += step` and of the base-unit conversions is not modelled.
- `Double.greatestFiniteMagnitude` is kept as its exact value. The infinities and NaN of
  `Double` do not exist in the model.
- Number and measurement formatters are foreign and locale-dependent. They are uninterpreted
  function parameters, so nothing is proved about what they print or parse.
- The debug-only `assert` in `init` is modelled by a `debug` flag. A failed assertion is `None`.
- The `assert(columnPath.count == columns.count)` in `setPicker` is not a separate member. Its
  content is part of the `Decompose` contract.
- `Product` pools are sequences indexed `0 ..< count`. Swift's general `Collection` indices and
  `index(after:)` are not modelled.
- `Product.generate()` returns the generator itself and is not modelled.
- `init(repeating:count:)` traps on a negative count. The model states this as a precondition.
- The root `InputType.swift` declares a stale `keyboard(UnitType)` case, while the root control
  matches on `.keyboardInput(unit, _)`. Both controls are modelled on the two-case `InputType`
  of `MeasurementTextField/Classes/InputType.swift`, with `keyboard(_:showMeasureUnit:)` as its
  constructor.
- The locale factory in `MeasurementTextField+BodyMetrics.swift` is used only as fixtures.
- The notification differs between the two controls. The `UIView` wrapper in the root
  `MeasurementTextField.swift` calls `onValueChanged(value)`. The `UITextField` subclass in
  `MeasurementTextField/Classes/` sends `.valueChanged`, which carries no value. Both are
  modelled as `notified` holding the value observers can read at that point.
- MeasurementTextField.ShouldChangeCharacters: positions in the edited range are counted in
  `char`s, while `NSRange` and `replacingCharacters(in:with:)` count UTF-16 code units, so
  text outside the Basic Multilingual Plane is spliced differently. An `NSRange` beyond the
  text makes the source raise an exception; the model requires the range to lie inside the
  text and does not model that exception.
- RoundTrip.FloorRoundTrip: proved only for paths whose later columns add up to less than one
  step of each column (`Nested`). Without that condition a residual can reach the next row and
  the round trip is not expected to hold.

## Findings

| source | as written | input that shows it | evidently intended | confidence | as-written member | corrected member |
|---|---|---|---|---|---|---|
| MeasurementTextField/Classes/MeasurementTextField.swift:199-211 | a residual strictly between two rows that is within 0.0001 of neither keeps index 0 | 1.6 m on feet `0...9` and inches `0...11`: 5.249 ft matches no row, so feet is 0 and inches is 10 (0 ft 10 in); likewise 150.5° on the example app's angle picker shows as 0° 59′ 59″ (`Fixtures.AngleTolerance`) | the largest row not above the residual, 5 ft 2 in | not executed | `Fixtures.HeightTolerance` | `Fixtures.HeightFloor` |
| MeasurementTextField.swift:231-236 | a residual at or above the last row finds no row above it and keeps index 0 | 1.8 m on the same columns: 5 ft, then 10.866 in, which is past the last row 10, so 5 ft 0 in | the last row, 5 ft 10 in | not executed | `Fixtures.TallHeightTruncation` | `RoundTrip.FloorRecoversPath` |
| Product.swift:38 | `done` starts true only when every pool is empty | pools `[[], [1]]`: not done, and the first `next()` reads element 0 of the empty pool | no element when any pool is empty, since the product is then empty | not executed | `CartesianProduct.MixedPoolsTrap` | `CartesianProduct.GuardedRunLength` |
