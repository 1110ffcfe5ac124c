/**
 * `value(at:in:)` and `sumOf`: turning the selected rows back into one
 * measurement, by adding the per-column measurements left to right.
 */
module Recomposition {
  import opened Wrappers
  import opened Units
  import opened PickerColumns
  import opened Decomposition

  /** The sum of the measurements' amounts in base units. */
  function BaseTotal(ms: seq<Measurement>): real {
    if |ms| == 0 then 0.0 else BaseTotal(ms[..|ms| - 1]) + BaseValue(ms[|ms| - 1])
  }

  lemma {:induction false} BaseTotalCons(ms: seq<Measurement>)
    requires 0 < |ms|
    ensures BaseTotal(ms) == BaseValue(ms[0]) + BaseTotal(ms[1..])
    decreases |ms|
  {
    if 1 < |ms| {
      BaseTotalCons(ms[..|ms| - 1]);
      assert ms[..|ms| - 1][1..] == ms[1..][..|ms[1..]| - 1];
    } else {
      assert ms[1..] == [];
    }
  }

  /**
   * `reduce(acc, +)`: adds the measurements to `acc` from left to right.
   * The total is exact in base units; the unit is that of `acc` as long as
   * every operand shares it, and otherwise the base unit.
   */
  function Reduce(acc: Measurement, ms: seq<Measurement>): (r: Measurement)
    ensures BaseValue(r) == BaseValue(acc) + BaseTotal(ms)
    ensures r.unit == acc.unit || r.unit == BaseUnit(acc.unit.dimension)
    ensures (forall i :: 0 <= i < |ms| ==> ms[i].unit == acc.unit) ==> r.unit == acc.unit
    ensures (exists i :: 0 <= i < |ms| && ms[i].unit != acc.unit) ==> r.unit == BaseUnit(acc.unit.dimension)
    decreases |ms|
  {
    if |ms| == 0 then acc
    else
      BaseTotalCons(ms);
      assert ms[0].unit == acc.unit && (exists i :: 0 <= i < |ms| && ms[i].unit != acc.unit) ==>
        exists i :: 0 <= i < |ms[1..]| && ms[1..][i].unit != acc.unit by {
        if ms[0].unit == acc.unit && exists i :: 0 <= i < |ms| && ms[i].unit != acc.unit {
          var i :| 0 <= i < |ms| && ms[i].unit != acc.unit;
          assert ms[1..][i - 1] == ms[i];
        }
      }
      Reduce(Plus(acc, ms[0]), ms[1..])
  }

  /**
   * `sumOf`: nothing for no measurements, the measurement itself for one,
   * and otherwise the left-to-right sum.
   */
  function SumOf(ms: seq<Measurement>): (r: Option<Measurement>)
    ensures r.None? <==> |ms| == 0
    ensures r.Some? ==> BaseValue(r.value) == BaseTotal(ms)
    ensures |ms| == 1 ==> r == Some(ms[0])
    ensures r.Some? ==> r.value.unit == ms[0].unit || r.value.unit == BaseUnit(ms[0].unit.dimension)
    ensures r.Some? && (forall i :: 0 <= i < |ms| ==> ms[i].unit == ms[0].unit) ==> r.value.unit == ms[0].unit
    ensures r.Some? && (exists i :: 0 <= i < |ms| && ms[i].unit != ms[0].unit) ==> r.value.unit == BaseUnit(ms[0].unit.dimension)
  {
    if |ms| <= 1 then
      if |ms| == 0 then None else Some(ms[0])
    else
      BaseTotalCons(ms);
      assert (exists i :: 0 <= i < |ms| && ms[i].unit != ms[0].unit) ==>
        exists i :: 0 <= i < |ms[1..]| && ms[1..][i].unit != ms[0].unit by {
        if exists i :: 0 <= i < |ms| && ms[i].unit != ms[0].unit {
          var i :| 0 <= i < |ms| && ms[i].unit != ms[0].unit;
          assert ms[1..][i - 1] == ms[i];
        }
      }
      Some(Reduce(ms[0], ms[1..]))
  }

  /** The row measurement `path` selects in each column, in column order. */
  function Measurements(path: ColumnPath, columns: seq<PickerColumn>): (ms: seq<Measurement>)
    requires ValidPath(path, columns)
    ensures |ms| == |path|
    ensures forall i :: 0 <= i < |path| ==> ms[i] == Measurement(columns[i].rows[path[i]], columns[i].unit)
  {
    seq(|path|, i requires 0 <= i < |path| => Measurement(columns[i].rows[path[i]], columns[i].unit))
  }

  lemma {:induction false} MeasurementsTotal(path: ColumnPath, columns: seq<PickerColumn>, n: nat)
    requires ValidPath(path, columns) && n <= |path|
    ensures BaseTotal(Measurements(path, columns)[..n]) == PartialSum(columns, path, n)
  {
    var ms := Measurements(path, columns);
    if 0 < n {
      MeasurementsTotal(path, columns, n - 1);
      assert ms[..n][..n - 1] == ms[..n - 1];
    }
  }

  /**
   * `value(at:in:)`: `None` exactly for an empty path; otherwise a measurement
   * whose amount is the sum of the selected rows in base units, stated in the
   * first column's unit or in the base unit.
   */
  function ValueAt(path: ColumnPath, columns: seq<PickerColumn>): (r: Option<Measurement>)
    requires ValidPath(path, columns)
    ensures r.None? <==> |path| == 0
    ensures r.Some? ==> BaseValue(r.value) == PartialSum(columns, path, |path|)
    ensures r.Some? ==> r.value.unit == columns[0].unit || r.value.unit == BaseUnit(columns[0].unit.dimension)
  {
    var ms := Measurements(path, columns);
    MeasurementsTotal(path, columns, |path|);
    assert ms[..|path|] == ms;
    SumOf(ms)
  }

  /** With a single unit across the columns, the recomposed value stays in that unit. */
  lemma ValueAtSharedUnit(path: ColumnPath, columns: seq<PickerColumn>, u: Unit)
    requires ValidPath(path, columns) && 0 < |path|
    requires forall i :: 0 <= i < |columns| ==> columns[i].unit == u
    ensures ValueAt(path, columns).Some? && ValueAt(path, columns).value.unit == u
  {
  }

  /**
   * Recomposing a path through every column loses exactly what the last column
   * does not show: its residual minus its selected row, in base units. Every
   * earlier column's difference is carried in the residuals after it. This
   * holds for the path `Decompose` returns under any rounding.
   */
  lemma RecomposeError(value: Measurement, columns: seq<PickerColumn>, path: ColumnPath)
    requires 0 < |columns| && |path| == |columns| && ValidPath(path, columns)
    ensures Shortfall(value, columns, path)
         == (ResidualAt(value, columns, path, |path| - 1) - columns[|path| - 1].rows[path[|path| - 1]])
            * columns[|path| - 1].unit.factor
  {
    LastShortfall(value, columns, path, ResidualAt(value, columns, path, |path| - 1));
  }

  /** The arithmetic behind `RecomposeError`. */
  lemma RemainderOfLastColumn(whole: real, before: real, row: real, f: real, x: real)
    requires 0.0 < f && x == (whole - before) / f
    ensures whole - (before + row * f) == (x - row) * f
  {
    DivideExactly(whole - before, f, x);
  }

  /**
   * What recomposition falls short of `value` by, in base units: the value
   * minus what the selected rows add up to (`ShortfallOfRecomposition`).
   */
  function Shortfall(value: Measurement, columns: seq<PickerColumn>, path: ColumnPath): real
    requires ValidPath(path, columns)
  {
    BaseValue(value) - PartialSum(columns, path, |path|)
  }

  /** The shortfall is the value minus what `value(at:in:)` returns for the path. */
  lemma ShortfallOfRecomposition(value: Measurement, columns: seq<PickerColumn>, path: ColumnPath)
    requires 0 < |path| && ValidPath(path, columns)
    ensures Shortfall(value, columns, path) == BaseValue(value) - BaseValue(ValueAt(path, columns).value)
  {
  }

  /**
   * When the last column's row is at most its residual up to `Threshold`, as
   * the corrected rule picks it (`FloorIsClampedFloor`), recomposition exceeds
   * the value by no more than `Threshold` units of the last column.
   */
  lemma FloorShortfallAbove(value: Measurement, columns: seq<PickerColumn>, path: ColumnPath, x: real)
    requires 0 < |columns| && |path| == |columns| && ValidPath(path, columns)
    requires x == ResidualAt(value, columns, path, |path| - 1)
    requires columns[|path| - 1].rows[path[|path| - 1]] <= x + Threshold
    ensures -Threshold * columns[|path| - 1].unit.factor <= Shortfall(value, columns, path)
  {
    var n := |path| - 1;
    LastShortfall(value, columns, path, x);
    ScaledAbove(Shortfall(value, columns, path), x, columns[n].rows[path[n]], columns[n].unit.factor);
  }

  /**
   * When the next row of the last column is above its residual by more than
   * `Threshold`, as the corrected rule guarantees (`FloorIsClampedFloor`),
   * recomposition falls short of the value by less than the gap to that row.
   */
  lemma FloorShortfallBelow(value: Measurement, columns: seq<PickerColumn>, path: ColumnPath, x: real)
    requires 0 < |columns| && |path| == |columns| && ValidPath(path, columns)
    requires x == ResidualAt(value, columns, path, |path| - 1)
    requires path[|path| - 1] + 1 < |columns[|path| - 1].rows|
    requires x + Threshold < columns[|path| - 1].rows[path[|path| - 1] + 1]
    ensures Shortfall(value, columns, path)
      < (columns[|path| - 1].rows[path[|path| - 1] + 1] - columns[|path| - 1].rows[path[|path| - 1]])
        * columns[|path| - 1].unit.factor
  {
    var n := |path| - 1;
    var rows := columns[n].rows;
    LastShortfall(value, columns, path, x);
    ScaledBelow(Shortfall(value, columns, path), x, rows[path[n]], rows[path[n] + 1], columns[n].unit.factor);
  }

  /**
   * For the path the corrected rule decomposes a value into, recomposition
   * overshoots the value by at most `Threshold` units of the last column
   * (unless the last residual lies below that column's first row), and falls
   * short by less than the gap to the last column's next row, when there is one.
   */
  lemma FloorShortfall(value: Measurement, columns: seq<PickerColumn>, path: ColumnPath, x: real)
    requires 0 < |columns| && Ascending(columns[|columns| - 1].rows)
    requires Decompose(Floor, value, columns) == Some(path)
    requires x == ResidualAt(value, columns, path, |columns| - 1)
    ensures var n := |columns| - 1;
      && (columns[n].rows[0] <= x + Threshold ==>
            -Threshold * columns[n].unit.factor <= Shortfall(value, columns, path))
      && (path[n] + 1 < |columns[n].rows| ==>
            Shortfall(value, columns, path)
              < (columns[n].rows[path[n] + 1] - columns[n].rows[path[n]]) * columns[n].unit.factor)
  {
    var n := |columns| - 1;
    FloorPicksLast(value, columns, path, x);
    if columns[n].rows[0] <= x + Threshold {
      FloorLastAbove(value, columns, path, x);
    }
    if path[n] + 1 < |columns[n].rows| {
      FloorLastBelow(value, columns, path, x);
    }
  }

  lemma FloorLastAbove(value: Measurement, columns: seq<PickerColumn>, path: ColumnPath, x: real)
    requires 0 < |columns| && |path| == |columns| && ValidPath(path, columns)
    requires Ascending(columns[|columns| - 1].rows)
    requires x == ResidualAt(value, columns, path, |columns| - 1)
    requires path[|columns| - 1] == SelectFloor(columns[|columns| - 1].rows, x)
    requires columns[|columns| - 1].rows[0] <= x + Threshold
    ensures -Threshold * columns[|columns| - 1].unit.factor <= Shortfall(value, columns, path)
  {
    FloorIsClampedFloor(columns[|columns| - 1].rows, x);
    FloorShortfallAbove(value, columns, path, x);
  }

  lemma FloorLastBelow(value: Measurement, columns: seq<PickerColumn>, path: ColumnPath, x: real)
    requires 0 < |columns| && |path| == |columns| && ValidPath(path, columns)
    requires Ascending(columns[|columns| - 1].rows)
    requires x == ResidualAt(value, columns, path, |columns| - 1)
    requires path[|columns| - 1] == SelectFloor(columns[|columns| - 1].rows, x)
    requires path[|columns| - 1] + 1 < |columns[|columns| - 1].rows|
    ensures var n := |columns| - 1;
      Shortfall(value, columns, path)
        < (columns[n].rows[path[n] + 1] - columns[n].rows[path[n]]) * columns[n].unit.factor
  {
    FloorIsClampedFloor(columns[|columns| - 1].rows, x);
    FloorShortfallBelow(value, columns, path, x);
  }

  /** The last column of a decomposition under the corrected rule holds the row that rule picks. */
  lemma FloorPicksLast(value: Measurement, columns: seq<PickerColumn>, path: ColumnPath, x: real)
    requires 0 < |columns| && Decompose(Floor, value, columns) == Some(path)
    requires x == ResidualAt(value, columns, path, |columns| - 1)
    ensures |path| == |columns| && ValidPath(path, columns)
    ensures path[|columns| - 1] == SelectFloor(columns[|columns| - 1].rows, x)
  {
  }

  /** `RecomposeError` with the last residual named. */
  lemma LastShortfall(value: Measurement, columns: seq<PickerColumn>, path: ColumnPath, x: real)
    requires 0 < |columns| && |path| == |columns| && ValidPath(path, columns)
    requires x == ResidualAt(value, columns, path, |path| - 1)
    ensures Shortfall(value, columns, path)
         == (x - columns[|path| - 1].rows[path[|path| - 1]]) * columns[|path| - 1].unit.factor
  {
    var n := |path| - 1;
    var before := PartialSum(columns, path, n);
    var row := columns[n].rows[path[n]];
    var f := columns[n].unit.factor;
    assert PartialSum(columns, path, |path|) == before + row * f;
    RemainderOfLastColumn(BaseValue(value), before, row, f, x);
  }

  lemma ScaledAbove(s: real, x: real, row: real, f: real)
    requires 0.0 < f && row <= x + Threshold && s == (x - row) * f
    ensures -Threshold * f <= s
  {
  }

  lemma ScaledBelow(s: real, x: real, row: real, next: real, f: real)
    requires 0.0 < f && x + Threshold < next && s == (x - row) * f
    ensures s < (next - row) * f
  {
  }
}
