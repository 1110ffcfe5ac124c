/**
 * `setPicker(to:columns:)`: splitting a measurement into one selected row per
 * picker column, largest unit first.
 *
 * Both source variants share one skeleton: for each column, the residual is
 * the value minus the rows already selected, expressed in the column's unit;
 * a row index is chosen for that residual; the chosen row joins the running
 * sum. They differ only in how the row is chosen, which `Rounding` names.
 */
module Decomposition {
  import opened Wrappers
  import opened Units
  import opened PickerColumns

  /** One selected row index per picker column, in column order. */
  type ColumnPath = seq<nat>

  datatype Rounding =
    /** MeasurementTextField/Classes: a row within `Threshold`, else an edge clamp, else row 0. */
    | Tolerance
    /** The root MeasurementTextField.swift: the row before the first row above the residual, else row 0. */
    | Truncation
    /** The corrected rule: the last row not above the residual (within `Threshold`), clamped to the column. */
    | Floor

  /** The absolute tolerance under which a row and a residual count as equal. */
  const Threshold: real := 0.0001

  function Abs(x: real): (r: real)
    ensures 0.0 <= r && (r == x || r == -x)
  {
    if x < 0.0 then -x else x
  }

  /** `abs(row - residual) < threshold`. */
  predicate Near(row: real, x: real) {
    Abs(row - x) < Threshold
  }

  /** Strictly ascending rows, more than `Threshold` apart. */
  ghost predicate Spaced(rows: seq<real>) {
    forall i, j :: 0 <= i < j < |rows| ==> rows[i] + Threshold < rows[j]
  }

  /** Non-decreasing rows. */
  ghost predicate Ascending(rows: seq<real>) {
    forall i, j :: 0 <= i <= j < |rows| ==> rows[i] <= rows[j]
  }

  /** The first index at or after `from` whose row is near `x`. */
  function FirstNear(rows: seq<real>, x: real, from: nat): (r: Option<nat>)
    requires from <= |rows|
    ensures r.Some? ==> from <= r.value < |rows|
    decreases |rows| - from
  {
    if from == |rows| then None
    else if Near(rows[from], x) then Some(from)
    else FirstNear(rows, x, from + 1)
  }

  /** `FirstNear` finds the first near row, and finds nothing only when no row is near. */
  lemma {:induction false} FirstNearSpec(rows: seq<real>, x: real, from: nat)
    requires from <= |rows|
    ensures var r := FirstNear(rows, x, from);
      && (r.Some? ==> Near(rows[r.value], x) && forall i :: from <= i < r.value ==> !Near(rows[i], x))
      && (r.None? <==> forall i :: from <= i < |rows| ==> !Near(rows[i], x))
    decreases |rows| - from
  {
    if from < |rows| && !Near(rows[from], x) {
      FirstNearSpec(rows, x, from + 1);
    }
  }

  /** The first index at or after `from` whose row lies strictly above `bound`. */
  function FirstAbove(rows: seq<real>, bound: real, from: nat): (r: Option<nat>)
    requires from <= |rows|
    ensures r.Some? ==> from <= r.value < |rows|
    decreases |rows| - from
  {
    if from == |rows| then None
    else if bound < rows[from] then Some(from)
    else FirstAbove(rows, bound, from + 1)
  }

  /** `FirstAbove` finds the first row above the bound, and finds nothing only when every row is at or below it. */
  lemma {:induction false} FirstAboveSpec(rows: seq<real>, bound: real, from: nat)
    requires from <= |rows|
    ensures var r := FirstAbove(rows, bound, from);
      && (r.Some? ==> bound < rows[r.value] && forall i :: from <= i < r.value ==> rows[i] <= bound)
      && (r.None? <==> forall i :: from <= i < |rows| ==> rows[i] <= bound)
    decreases |rows| - from
  {
    if from < |rows| && rows[from] <= bound {
      FirstAboveSpec(rows, bound, from + 1);
    }
  }

  /**
   * The tolerance variant's choice of row: the first row near the residual,
   * else row 0; then overridden by the edge clamps.
   */
  function SelectTolerance(rows: seq<real>, x: real): (k: nat)
    ensures |rows| == 0 ==> k == 0
    ensures 0 < |rows| ==> k < |rows|
  {
    var scanned := FirstNear(rows, x, 0).GetOr(0);
    if 0 < |rows| && (rows[0] > x || Near(rows[0], x)) then 0
    else if 0 < |rows| && (rows[|rows| - 1] < x || Near(rows[|rows| - 1], x)) then |rows| - 1
    else scanned
  }

  /**
   * The tolerance rule, case by case: a residual at or below the first row
   * (within `Threshold`) selects it; otherwise one at or above the last row
   * selects that; otherwise the first row near the residual is chosen, and
   * row 0 when no row is near, even when the residual lies between rows.
   */
  lemma ToleranceCases(rows: seq<real>, x: real)
    requires 0 < |rows|
    ensures x < rows[0] || Near(rows[0], x) ==> SelectTolerance(rows, x) == 0
    ensures !(x < rows[0] || Near(rows[0], x)) && (rows[|rows| - 1] < x || Near(rows[|rows| - 1], x))
      ==> SelectTolerance(rows, x) == |rows| - 1
    ensures rows[0] < x < rows[|rows| - 1] && !Near(rows[0], x) && !Near(rows[|rows| - 1], x) ==>
      var k := SelectTolerance(rows, x);
      if exists i :: 0 <= i < |rows| && Near(rows[i], x)
      then Near(rows[k], x) && forall i :: 0 <= i < k ==> !Near(rows[i], x)
      else k == 0
  {
    FirstNearSpec(rows, x, 0);
  }

  /**
   * The truncation variant's choice of row: one before the first row above
   * the residual (never below 0), and row 0 when no row is above it.
   */
  function SelectTruncation(rows: seq<real>, x: real): (k: nat)
    ensures |rows| == 0 ==> k == 0
    ensures 0 < |rows| ==> k < |rows|
  {
    match FirstAbove(rows, x, 0)
    case Some(j) => if j == 0 then 0 else j - 1
    case None => 0
  }

  /**
   * The truncation rule, case by case: with `j` the first row above the
   * residual the index is `max(0, j - 1)`; with no row above it, 0.
   */
  lemma TruncationCases(rows: seq<real>, x: real)
    ensures (forall i :: 0 <= i < |rows| ==> rows[i] <= x) ==> SelectTruncation(rows, x) == 0
    ensures forall j :: 0 <= j < |rows| && x < rows[j] && (forall i :: 0 <= i < j ==> rows[i] <= x) ==>
      SelectTruncation(rows, x) == if j == 0 then 0 else j - 1
  {
    FirstAboveSpec(rows, x, 0);
    forall j | 0 <= j < |rows| && x < rows[j] && (forall i :: 0 <= i < j ==> rows[i] <= x)
      ensures SelectTruncation(rows, x) == if j == 0 then 0 else j - 1
    {
      var f := FirstAbove(rows, x, 0);
      assert f.Some? && f.value <= j;
    }
  }

  /**
   * The corrected choice of row: the last row that is not above the residual
   * by `Threshold` or more, row 0 when the residual is below every row, and
   * the last row when the residual is above every row.
   */
  function SelectFloor(rows: seq<real>, x: real): (k: nat)
    ensures |rows| == 0 ==> k == 0
    ensures 0 < |rows| ==> k < |rows|
  {
    match FirstAbove(rows, x + Threshold, 0)
    case Some(j) => if j == 0 then 0 else j - 1
    case None => if |rows| == 0 then 0 else |rows| - 1
  }

  function Select(rounding: Rounding, rows: seq<real>, x: real): (k: nat)
    ensures |rows| == 0 ==> k == 0
    ensures 0 < |rows| ==> k < |rows|
  {
    match rounding
    case Tolerance => SelectTolerance(rows, x)
    case Truncation => SelectTruncation(rows, x)
    case Floor => SelectFloor(rows, x)
  }

  /** On ascending rows the corrected rule picks the floor of the residual, clamped to the column. */
  lemma FloorIsClampedFloor(rows: seq<real>, x: real)
    requires 0 < |rows| && Ascending(rows)
    ensures var k := SelectFloor(rows, x);
      && (rows[0] <= x + Threshold ==> rows[k] <= x + Threshold)
      && (k + 1 < |rows| ==> x + Threshold < rows[k + 1])
      && (x + Threshold < rows[0] ==> k == 0)
      && (rows[|rows| - 1] <= x + Threshold ==> k == |rows| - 1)
  {
    var k := SelectFloor(rows, x);
    FirstAboveSpec(rows, x + Threshold, 0);
    match FirstAbove(rows, x + Threshold, 0)
    case Some(j) =>
      if 0 < j {
        assert rows[j - 1] <= x + Threshold;
      }
    case None =>
  }

  /** A residual that equals a row exactly selects that row, under the corrected rule. */
  lemma FloorSelectsExactRow(rows: seq<real>, j: nat)
    requires j < |rows| && Spaced(rows)
    ensures SelectFloor(rows, rows[j]) == j
  {
    var x := rows[j];
    FirstAboveSpec(rows, x + Threshold, 0);
    assert forall i :: 0 <= i <= j ==> rows[i] <= x + Threshold;
    if j + 1 < |rows| {
      assert x + Threshold < rows[j + 1];
    }
  }

  /** A residual that equals a row exactly selects that row, under the tolerance rule too. */
  lemma ToleranceSelectsExactRow(rows: seq<real>, j: nat)
    requires j < |rows| && Spaced(rows)
    ensures SelectTolerance(rows, rows[j]) == j
  {
    var x := rows[j];
    FirstNearSpec(rows, x, 0);
    assert Near(rows[j], x);
    assert forall i :: 0 <= i < |rows| && i != j ==> !Near(rows[i], x);
  }

  /**
   * On ascending rows, inside the column's span, truncation picks the floor of
   * the residual; below the span it picks row 0, and so it does at or above
   * the last row.
   */
  lemma TruncationOnAscendingRows(rows: seq<real>, x: real)
    requires 0 < |rows| && Ascending(rows)
    ensures var k := SelectTruncation(rows, x);
      && (rows[0] <= x < rows[|rows| - 1] ==> rows[k] <= x < rows[k + 1])
      && (x < rows[0] ==> k == 0)
      && (rows[|rows| - 1] <= x ==> k == 0)
  {
    FirstAboveSpec(rows, x, 0);
    match FirstAbove(rows, x, 0)
    case Some(j) =>
      if 0 < j {
        assert rows[j - 1] <= x;
      }
    case None =>
  }

  /** The selected row's amount in base units. */
  function RowValue(columns: seq<PickerColumn>, path: ColumnPath, j: nat): real
    requires j < |path| <= |columns| && path[j] < |columns[j].rows|
  {
    columns[j].rows[path[j]] * columns[j].unit.factor
  }

  /** Every index of `path` selects an existing row of its column. */
  predicate ValidPath(path: ColumnPath, columns: seq<PickerColumn>) {
    |path| <= |columns| && forall j :: 0 <= j < |path| ==> path[j] < |columns[j].rows|
  }

  /** The base-unit total of the rows `path` selects in its first `n` columns. */
  function PartialSum(columns: seq<PickerColumn>, path: ColumnPath, n: nat): real
    requires n <= |path| && ValidPath(path, columns)
  {
    if n == 0 then 0.0 else PartialSum(columns, path, n - 1) + RowValue(columns, path, n - 1)
  }

  /** The residual column `i` sees: the value minus the rows selected before it, in that column's unit. */
  function ResidualAt(value: Measurement, columns: seq<PickerColumn>, path: ColumnPath, i: nat): real
    requires i < |path| && ValidPath(path, columns)
  {
    (BaseValue(value) - PartialSum(columns, path, i)) / columns[i].unit.factor
  }

  /** The residual as the loop computes it, with or without an accumulator. */
  function Residual(value: Measurement, acc: Option<Measurement>, u: Unit): real {
    match acc
    case None => Converted(value, u).value
    case Some(a) => Minus(Converted(value, u), Converted(a, u)).value
  }

  /** `accumulator.flatMap { $0 + selected } ?? selected`. */
  function Accumulate(acc: Option<Measurement>, selected: Measurement): Measurement {
    match acc
    case None => selected
    case Some(a) => Plus(a, selected)
  }

  /** A row-selection rule: the index chosen in a column's rows for a residual. */
  type Chooser = (seq<real>, real) -> nat

  /** The rule a `Rounding` stands for. */
  function ChooserOf(rounding: Rounding): (choose: Chooser)
    ensures forall rows, x :: choose(rows, x) == Select(rounding, rows, x)
  {
    (rows, x) => Select(rounding, rows, x)
  }

  /** A rule that always names an existing row of a non-empty column. */
  ghost predicate InColumn(choose: Chooser) {
    forall rows, x :: 0 < |rows| ==> choose(rows, x) < |rows|
  }

  lemma SelectInColumn(rounding: Rounding)
    ensures InColumn(ChooserOf(rounding))
  {
  }

  /**
   * The loop over the remaining `columns`, given the accumulator so far.
   * `None` stands for the trap of `column.rows[...]` on a column without rows.
   */
  function DecomposeFrom(choose: Chooser, value: Measurement, columns: seq<PickerColumn>, acc: Option<Measurement>)
    : Option<ColumnPath>
    decreases |columns|
  {
    if |columns| == 0 then Some([])
    else
      var column := columns[0];
      var k := choose(column.rows, Residual(value, acc, column.unit));
      if k < |column.rows| then
        var next := Accumulate(acc, Measurement(column.rows[k], column.unit));
        match DecomposeFrom(choose, value, columns[1..], Some(next))
        case None => None
        case Some(rest) => Some([k] + rest)
      else None
  }

  /** The base-unit amount an accumulator stands for; nothing accumulated is zero. */
  function AccumulatedBase(acc: Option<Measurement>): real {
    match acc
    case None => 0.0
    case Some(a) => BaseValue(a)
  }

  lemma ResidualInBase(value: Measurement, acc: Option<Measurement>, u: Unit)
    ensures Residual(value, acc, u) == (BaseValue(value) - AccumulatedBase(acc)) / u.factor
  {
    var r := Residual(value, acc, u);
    assert r * u.factor == BaseValue(value) - AccumulatedBase(acc);
    DivideExactly(BaseValue(value) - AccumulatedBase(acc), u.factor, r);
  }

  /** Dropping the first column shifts the partial sums by that column's row. */
  lemma {:induction false} PartialSumShift(columns: seq<PickerColumn>, path: ColumnPath, n: nat)
    requires 0 < |path| && n < |path| && ValidPath(path, columns)
    ensures ValidPath(path[1..], columns[1..])
    ensures PartialSum(columns, path, n + 1) == RowValue(columns, path, 0) + PartialSum(columns[1..], path[1..], n)
  {
    assert ValidPath(path[1..], columns[1..]) by {
      forall j | 0 <= j < |path[1..]|
        ensures path[1..][j] < |columns[1..][j].rows|
      {
        assert path[1..][j] == path[j + 1] && columns[1..][j] == columns[j + 1];
      }
    }
    if n > 0 {
      PartialSumShift(columns, path, n - 1);
      assert RowValue(columns, path, n) == RowValue(columns[1..], path[1..], n - 1);
    }
  }

  /**
   * The row `rounding` selects in column `i` for the residual left once `base`
   * and the rows `path` picks in the columns before `i` are taken away.
   */
  function ChoiceAt(choose: Chooser, value: Measurement, columns: seq<PickerColumn>, base: real, path: ColumnPath, i: nat): nat
    requires i < |path| && ValidPath(path, columns)
  {
    choose(columns[i].rows, (BaseValue(value) - base - PartialSum(columns, path, i)) / columns[i].unit.factor)
  }

  /** `path` picks, in every column, the row `rounding` selects there. */
  ghost predicate Chosen(choose: Chooser, value: Measurement, columns: seq<PickerColumn>, base: real, path: ColumnPath) {
    && |path| == |columns|
    && ValidPath(path, columns)
    && forall i {:trigger ChoiceAt(choose, value, columns, base, path, i)} :: 0 <= i < |columns| ==>
         path[i] == ChoiceAt(choose, value, columns, base, path, i)
  }

  /** Prefixing a chosen path with the choice for the first column gives a chosen path. */
  lemma ChosenCons(choose: Chooser, value: Measurement, columns: seq<PickerColumn>, base: real, base': real, k: nat, tail: ColumnPath)
    requires 0 < |columns| && k < |columns[0].rows|
    requires k == choose(columns[0].rows, (BaseValue(value) - base) / columns[0].unit.factor)
    requires base' == base + columns[0].rows[k] * columns[0].unit.factor
    requires Chosen(choose, value, columns[1..], base', tail)
    ensures Chosen(choose, value, columns, base, [k] + tail)
  {
    var path := [k] + tail;
    assert path[1..] == tail;
    forall i | 0 < i < |columns|
      ensures path[i] < |columns[i].rows|
    {
      assert columns[i] == columns[1..][i - 1];
    }
    assert ValidPath(path, columns);
    forall i | 0 <= i < |columns|
      ensures path[i] == ChoiceAt(choose, value, columns, base, path, i)
    {
      if 0 < i {
        ChosenConsAt(choose, value, columns, base, base', k, tail, i);
      }
    }
  }

  lemma ChosenConsAt(choose: Chooser, value: Measurement, columns: seq<PickerColumn>, base: real, base': real, k: nat, tail: ColumnPath, i: nat)
    requires 0 < i < |columns| && k < |columns[0].rows|
    requires base' == base + columns[0].rows[k] * columns[0].unit.factor
    requires Chosen(choose, value, columns[1..], base', tail)
    requires ValidPath([k] + tail, columns)
    ensures ([k] + tail)[i] == ChoiceAt(choose, value, columns, base, [k] + tail, i)
  {
    var path := [k] + tail;
    assert path[1..] == tail;
    PartialSumShift(columns, path, i - 1);
    assert columns[i] == columns[1..][i - 1];
    assert path[i] == tail[i - 1];
    assert tail[i - 1] == ChoiceAt(choose, value, columns[1..], base', tail, i - 1);
    var amount := BaseValue(value) - base - PartialSum(columns, path, i);
    var amount' := BaseValue(value) - base' - PartialSum(columns[1..], tail, i - 1);
    assert RowValue(columns, path, 0) == columns[0].rows[k] * columns[0].unit.factor;
    assert amount == amount';
    assert ChoiceAt(choose, value, columns, base, path, i) == choose(columns[i].rows, amount / columns[i].unit.factor);
    assert ChoiceAt(choose, value, columns[1..], base', tail, i - 1)
        == choose(columns[1..][i - 1].rows, amount' / columns[1..][i - 1].unit.factor);
  }

  /** Accumulating a selected row adds its amount in base units. */
  lemma AccumulateRow(acc: Option<Measurement>, column: PickerColumn, k: nat)
    requires k < |column.rows|
    ensures AccumulatedBase(Some(Accumulate(acc, Measurement(column.rows[k], column.unit))))
         == AccumulatedBase(acc) + column.rows[k] * column.unit.factor
  {
  }

  /** Some column has no rows at all. */
  predicate HasEmptyColumn(columns: seq<PickerColumn>) {
    exists i :: 0 <= i < |columns| && |columns[i].rows| == 0
  }

  /** The loop over `columns` traps exactly on an empty column, and otherwise chooses every row by `choose`. */
  ghost predicate LoopMeetsSpec(choose: Chooser, value: Measurement, columns: seq<PickerColumn>, acc: Option<Measurement>) {
    && (DecomposeFrom(choose, value, columns, acc).None? <==> HasEmptyColumn(columns))
    && (DecomposeFrom(choose, value, columns, acc).Some? ==>
          Chosen(choose, value, columns, AccumulatedBase(acc), DecomposeFrom(choose, value, columns, acc).value))
  }

  /** What the loop over the remaining columns computes, stated without the loop. */
  lemma {:induction false} DecomposeFromSpec(choose: Chooser, value: Measurement, columns: seq<PickerColumn>, acc: Option<Measurement>)
    requires InColumn(choose)
    ensures LoopMeetsSpec(choose, value, columns, acc)
    decreases |columns|
  {
    if |columns| > 0 {
      var column := columns[0];
      var k := choose(column.rows, Residual(value, acc, column.unit));
      if k < |column.rows| {
        var next := Accumulate(acc, Measurement(column.rows[k], column.unit));
        DecomposeFromSpec(choose, value, columns[1..], Some(next));
        DecomposeFromStep(choose, value, columns, acc, k, next);
      }
    }
  }

  /** The inductive step of `DecomposeFromSpec`: the first column is decided, the rest is as specified. */
  lemma DecomposeFromStep(choose: Chooser, value: Measurement, columns: seq<PickerColumn>, acc: Option<Measurement>,
                          k: nat, next: Measurement)
    requires 0 < |columns|
    requires k == choose(columns[0].rows, Residual(value, acc, columns[0].unit))
    requires k < |columns[0].rows|
    requires next == Accumulate(acc, Measurement(columns[0].rows[k], columns[0].unit))
    requires LoopMeetsSpec(choose, value, columns[1..], Some(next))
    ensures LoopMeetsSpec(choose, value, columns, acc)
  {
    var tail := DecomposeFrom(choose, value, columns[1..], Some(next));
    DecomposeFromUnfold(choose, value, columns, acc, k, next);
    if tail.None? {
      var i :| 0 <= i < |columns[1..]| && |columns[1..][i].rows| == 0;
      assert |columns[i + 1].rows| == 0;
    } else {
      ChosenStep(choose, value, columns, acc, k, tail.value);
      NoEmptyColumn(columns, [k] + tail.value);
    }
  }

  /** The loop's first choice, put in front of a path chosen for the remaining columns, gives a chosen path. */
  lemma ChosenStep(choose: Chooser, value: Measurement, columns: seq<PickerColumn>, acc: Option<Measurement>,
                   k: nat, tail: ColumnPath)
    requires 0 < |columns|
    requires k == choose(columns[0].rows, Residual(value, acc, columns[0].unit))
    requires k < |columns[0].rows|
    requires Chosen(choose, value, columns[1..], AccumulatedBase(Some(Accumulate(acc, Measurement(columns[0].rows[k], columns[0].unit)))), tail)
    ensures Chosen(choose, value, columns, AccumulatedBase(acc), [k] + tail)
  {
    ResidualInBase(value, acc, columns[0].unit);
    AccumulateRow(acc, columns[0], k);
    ChosenCons(choose, value, columns, AccumulatedBase(acc),
      AccumulatedBase(Some(Accumulate(acc, Measurement(columns[0].rows[k], columns[0].unit)))), k, tail);
  }

  /** One iteration of the loop: the first column's choice in front of what the rest of the loop returns. */
  lemma DecomposeFromUnfold(choose: Chooser, value: Measurement, columns: seq<PickerColumn>, acc: Option<Measurement>,
                            k: nat, next: Measurement)
    requires 0 < |columns|
    requires k == choose(columns[0].rows, Residual(value, acc, columns[0].unit))
    requires k < |columns[0].rows|
    requires next == Accumulate(acc, Measurement(columns[0].rows[k], columns[0].unit))
    ensures var tail := DecomposeFrom(choose, value, columns[1..], Some(next));
      DecomposeFrom(choose, value, columns, acc) == if tail.None? then None else Some([k] + tail.value)
  {
  }

  /** A valid path through every column shows that no column is empty. */
  lemma NoEmptyColumn(columns: seq<PickerColumn>, path: ColumnPath)
    requires |path| == |columns| && ValidPath(path, columns)
    ensures forall i :: 0 <= i < |columns| ==> |columns[i].rows| != 0
  {
    forall i | 0 <= i < |columns|
      ensures |columns[i].rows| != 0
    {
      assert path[i] < |columns[i].rows|;
    }
  }

  /**
   * `setPicker(to:columns:)`: one index per column, each a valid row, each
   * chosen by `rounding` for the residual left by the rows chosen before it.
   * `None` exactly when some column has no rows, where the source traps.
   */
  function DecomposeWith(choose: Chooser, value: Measurement, columns: seq<PickerColumn>): (r: Option<ColumnPath>)
    requires InColumn(choose)
    ensures r.None? <==> HasEmptyColumn(columns)
    ensures r.Some? ==> |r.value| == |columns| && ValidPath(r.value, columns)
    ensures r.Some? ==> forall i :: 0 <= i < |columns| ==>
      r.value[i] == choose(columns[i].rows, ResidualAt(value, columns, r.value, i))
  {
    DecomposeFromSpec(choose, value, columns, None);
    var r := DecomposeFrom(choose, value, columns, None);
    if r.Some? then
      assert forall i :: 0 <= i < |columns| ==>
        r.value[i] == choose(columns[i].rows, ResidualAt(value, columns, r.value, i)) by {
        forall i | 0 <= i < |columns|
          ensures r.value[i] == choose(columns[i].rows, ResidualAt(value, columns, r.value, i))
        {
          assert r.value[i] == ChoiceAt(choose, value, columns, 0.0, r.value, i);
        }
      }
      r
    else r
  }

  /** `setPicker(to:columns:)` with the row choice of `rounding`. */
  function Decompose(rounding: Rounding, value: Measurement, columns: seq<PickerColumn>): (r: Option<ColumnPath>)
    ensures r.None? <==> HasEmptyColumn(columns)
    ensures r.Some? ==> |r.value| == |columns| && ValidPath(r.value, columns)
    ensures r.Some? ==> forall i :: 0 <= i < |columns| ==>
      r.value[i] == Select(rounding, columns[i].rows, ResidualAt(value, columns, r.value, i))
  {
    SelectInColumn(rounding);
    DecomposeWith(ChooserOf(rounding), value, columns)
  }

  /** Each column's choice follows `rounding` applied to the residual it sees. */
  ghost predicate ChosenBy(rounding: Rounding, value: Measurement, columns: seq<PickerColumn>, path: ColumnPath)
    requires ValidPath(path, columns)
  {
    forall i :: 0 <= i < |path| ==> path[i] == Select(rounding, columns[i].rows, ResidualAt(value, columns, path, i))
  }

  /** The rows selected before column `n` are all that its residual depends on. */
  lemma {:induction false} PartialSumPrefix(columns: seq<PickerColumn>, p: ColumnPath, q: ColumnPath, n: nat)
    requires n <= |p| && n <= |q| && ValidPath(p, columns) && ValidPath(q, columns)
    requires p[..n] == q[..n]
    ensures PartialSum(columns, p, n) == PartialSum(columns, q, n)
  {
    if 0 < n {
      assert p[n - 1] == p[..n][n - 1] == q[..n][n - 1] == q[n - 1];
      assert p[..n - 1] == p[..n][..n - 1];
      assert q[..n - 1] == q[..n][..n - 1];
      PartialSumPrefix(columns, p, q, n - 1);
    }
  }

  lemma ResidualPrefix(value: Measurement, columns: seq<PickerColumn>, p: ColumnPath, q: ColumnPath, i: nat)
    requires i < |p| && i < |q| && ValidPath(p, columns) && ValidPath(q, columns)
    requires p[..i] == q[..i]
    ensures ResidualAt(value, columns, p, i) == ResidualAt(value, columns, q, i)
  {
    PartialSumPrefix(columns, p, q, i);
  }

  /** Each column's choice is `choose` applied to the residual it sees. */
  ghost predicate ChosenWith(choose: Chooser, value: Measurement, columns: seq<PickerColumn>, path: ColumnPath)
    requires ValidPath(path, columns)
  {
    forall i :: 0 <= i < |path| ==> path[i] == choose(columns[i].rows, ResidualAt(value, columns, path, i))
  }

  /** Two paths chosen by the same rule agree on every prefix. */
  lemma {:induction false} ChosenPathsAgree(choose: Chooser, value: Measurement, columns: seq<PickerColumn>,
                                            p: ColumnPath, q: ColumnPath, n: nat)
    requires |p| == |q| && n <= |p| && ValidPath(p, columns) && ValidPath(q, columns)
    requires ChosenWith(choose, value, columns, p) && ChosenWith(choose, value, columns, q)
    ensures p[..n] == q[..n]
  {
    if 0 < n {
      ChosenPathsAgree(choose, value, columns, p, q, n - 1);
      ResidualPrefix(value, columns, p, q, n - 1);
      assert p[n - 1] == q[n - 1];
      PrefixExtends(p, q, n);
    }
  }

  lemma PrefixExtends(p: ColumnPath, q: ColumnPath, n: nat)
    requires 0 < n <= |p| && n <= |q| && p[..n - 1] == q[..n - 1] && p[n - 1] == q[n - 1]
    ensures p[..n] == q[..n]
  {
    assert p[..n] == p[..n - 1] + [p[n - 1]];
    assert q[..n] == q[..n - 1] + [q[n - 1]];
  }

  /**
   * The decomposition is the only full path whose every column is chosen by
   * the rule from its residual: checking that property of a candidate path
   * is enough to know what `setPicker` selects.
   */
  lemma DecomposeUnique(rounding: Rounding, value: Measurement, columns: seq<PickerColumn>, path: ColumnPath)
    requires !HasEmptyColumn(columns)
    requires |path| == |columns| && ValidPath(path, columns)
    requires ChosenBy(rounding, value, columns, path)
    ensures Decompose(rounding, value, columns) == Some(path)
  {
    var r := Decompose(rounding, value, columns).value;
    var choose := ChooserOf(rounding);
    assert ChosenWith(choose, value, columns, r);
    assert ChosenWith(choose, value, columns, path);
    ChosenPathsAgree(choose, value, columns, r, path, |path|);
    assert r == r[..|path|];
    assert path == path[..|path|];
  }
}
