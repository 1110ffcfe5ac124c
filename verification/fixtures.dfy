/**
 * Concrete picker configurations from the repository — the body-height
 * columns (feet `0...9`, inches `0...11`) and the example app's angle
 * columns (degrees `0...360`, arc minutes and arc seconds `0...60`) — and
 * what each decomposition rule makes of particular values on them.
 */
module Fixtures {
  import opened Wrappers
  import opened Units
  import opened PickerColumns
  import opened Decomposition
  import opened Recomposition
  import opened MeasurementTextField

  /** `c` is the column `PickerColumn.init(unit:range:step:)` builds from these arguments. */
  ghost predicate ColumnOf(c: PickerColumn, unit: Unit, lower: real, upper: real, step: real) {
    && c.unit == unit && c.range == ClosedRange(lower, upper) && c.step == step
    && Generated(c)
  }

  lemma MakeColumnIsColumnOf(unit: Unit, lower: real, upper: real, step: real)
    requires lower < upper ==> 0.0 < step
    ensures ColumnOf(MakeColumn(unit, ClosedRange(lower, upper), step), unit, lower, upper, step)
  {
    var c := MakeColumn(unit, ClosedRange(lower, upper), step);
    if 0.0 < step {
      RowsAreProgression(lower, upper, step);
      ProgressionUnique(c.rows, Rows(lower, upper, step), lower, upper, step);
    }
  }

  /** Rows `0, 1, ..., n - 1`. */
  ghost predicate Counting(rows: seq<real>, n: nat) {
    |rows| == n && forall k :: 0 <= k < n ==> rows[k] == k as real
  }

  /** `0...n` with the default step counts from 0 to `n - 1`. */
  lemma CountingColumn(c: PickerColumn, unit: Unit, n: nat)
    requires 0 < n && ColumnOf(c, unit, 0.0, n as real, DefaultStep)
    ensures Counting(c.rows, n) && Ascending(c.rows)
  {
    RowsLength(0.0, n as real, 1.0, n);
    RowsAreProgression(0.0, n as real, 1.0);
    RowsAscendByStep(0.0, n as real, 1.0);
  }

  /** Truncation on counting rows, inside the column: the integer part. */
  lemma TruncationCounts(rows: seq<real>, n: nat, x: real, k: nat)
    requires Counting(rows, n) && Ascending(rows) && k + 1 < n
    requires k as real <= x < k as real + 1.0
    ensures SelectTruncation(rows, x) == k
  {
    TruncationOnAscendingRows(rows, x);
  }

  /** Truncation on counting rows, at or above the last row: row 0. */
  lemma TruncationAboveLastRow(rows: seq<real>, n: nat, x: real)
    requires Counting(rows, n) && Ascending(rows) && 0 < n && (n - 1) as real <= x
    ensures SelectTruncation(rows, x) == 0
  {
    TruncationOnAscendingRows(rows, x);
  }

  /** The corrected rule on counting rows: the integer part, capped at the last row. */
  lemma FloorCounts(rows: seq<real>, n: nat, x: real, k: nat)
    requires Counting(rows, n) && Ascending(rows) && k < n
    requires k as real <= x + Threshold
    requires k + 1 < n ==> x + Threshold < k as real + 1.0
    ensures SelectFloor(rows, x) == k
  {
    FloorIsClampedFloor(rows, x);
  }

  /** The tolerance rule on counting rows, strictly between two rows and near neither: row 0. */
  lemma ToleranceBetweenRows(rows: seq<real>, n: nat, x: real, k: nat)
    requires Counting(rows, n) && k + 1 < n
    requires k as real + Threshold <= x <= k as real + 1.0 - Threshold
    ensures SelectTolerance(rows, x) == 0
  {
    forall i | 0 <= i < |rows|
      ensures !Near(rows[i], x)
    {
      if i <= k {
        assert i as real <= k as real;
      } else {
        assert k as real + 1.0 <= i as real;
      }
    }
    ToleranceCases(rows, x);
  }

  /** The tolerance rule on counting rows, above the last row: the last row. */
  lemma ToleranceAboveLastRow(rows: seq<real>, n: nat, x: real)
    requires Counting(rows, n) && 1 < n && (n - 1) as real < x
    ensures SelectTolerance(rows, x) == n - 1
  {
    ToleranceCases(rows, x);
  }

  // The example app's angle picker

  ghost predicate AngleColumns(columns: seq<PickerColumn>) {
    && |columns| == 3
    && ColumnOf(columns[0], Degrees, 0.0, 360.0, DefaultStep)
    && ColumnOf(columns[1], ArcMinutes, 0.0, 60.0, DefaultStep)
    && ColumnOf(columns[2], ArcSeconds, 0.0, 60.0, DefaultStep)
  }

  /** Under truncation 150.5° shows as 150° 30′ 0″. */
  lemma AngleTruncation(columns: seq<PickerColumn>)
    requires AngleColumns(columns)
    ensures Decompose(Truncation, Measurement(150.5, Degrees), columns) == Some([150, 30, 0])
  {
    CountingColumn(columns[0], Degrees, 360);
    CountingColumn(columns[1], ArcMinutes, 60);
    CountingColumn(columns[2], ArcSeconds, 60);
    AngleTruncationOn(columns);
  }

  /** The same on any three counting columns in those units. */
  lemma AngleTruncationOn(columns: seq<PickerColumn>)
    requires |columns| == 3
    requires columns[0].unit == Degrees && columns[1].unit == ArcMinutes && columns[2].unit == ArcSeconds
    requires Counting(columns[0].rows, 360) && Counting(columns[1].rows, 60) && Counting(columns[2].rows, 60)
    requires Ascending(columns[0].rows) && Ascending(columns[1].rows) && Ascending(columns[2].rows)
    ensures Decompose(Truncation, Measurement(150.5, Degrees), columns) == Some([150, 30, 0])
  {
    var value := Measurement(150.5, Degrees);
    var path: ColumnPath := [150, 30, 0];
    assert !HasEmptyColumn(columns);
    assert ResidualAt(value, columns, path, 0) == 150.5;
    TruncationCounts(columns[0].rows, 360, 150.5, 150);
    AngleResidualOne(value, columns, path);
    TruncationCounts(columns[1].rows, 60, 30.0, 30);
    AngleResidualTwo(value, columns, path);
    TruncationCounts(columns[2].rows, 60, 0.0, 0);
    assert ChosenBy(Truncation, value, columns, path);
    DecomposeUnique(Truncation, value, columns, path);
  }

  /** After 150° the arc-minute column sees 30. */
  lemma AngleResidualOne(value: Measurement, columns: seq<PickerColumn>, path: ColumnPath)
    requires value == Measurement(150.5, Degrees)
    requires 2 <= |path| <= |columns| && ValidPath(path, columns)
    requires columns[0].unit == Degrees && columns[1].unit == ArcMinutes
    requires columns[0].rows[path[0]] == 150.0
    ensures ResidualAt(value, columns, path, 1) == 30.0
  {
    assert PartialSum(columns, path, 1) == 150.0;
    DivideExactly(0.5, 1.0 / 60.0, 30.0);
  }

  /** After 150° 30′ nothing is left for the arc-second column. */
  lemma AngleResidualTwo(value: Measurement, columns: seq<PickerColumn>, path: ColumnPath)
    requires value == Measurement(150.5, Degrees)
    requires 3 <= |path| <= |columns| && ValidPath(path, columns)
    requires columns[0].unit == Degrees && columns[1].unit == ArcMinutes && columns[2].unit == ArcSeconds
    requires columns[0].rows[path[0]] == 150.0 && columns[1].rows[path[1]] == 30.0
    ensures ResidualAt(value, columns, path, 2) == 0.0
  {
    assert PartialSum(columns, path, 1) == 150.0;
    assert PartialSum(columns, path, 2) == 150.0 + 30.0 * (1.0 / 60.0);
  }

  /**
   * Under the tolerance rule, the one the example app's control uses, 150.5°
   * shows as 0° 59′ 59″: the degree residual lies between two rows and near
   * neither, so the degree column keeps row 0, and the later columns clamp
   * to their last rows.
   */
  lemma AngleTolerance(columns: seq<PickerColumn>)
    requires AngleColumns(columns)
    ensures Decompose(Tolerance, Measurement(150.5, Degrees), columns) == Some([0, 59, 59])
  {
    CountingColumn(columns[0], Degrees, 360);
    CountingColumn(columns[1], ArcMinutes, 60);
    CountingColumn(columns[2], ArcSeconds, 60);
    AngleToleranceOn(columns);
  }

  /** The same on any three counting columns in those units. */
  lemma AngleToleranceOn(columns: seq<PickerColumn>)
    requires |columns| == 3
    requires columns[0].unit == Degrees && columns[1].unit == ArcMinutes && columns[2].unit == ArcSeconds
    requires Counting(columns[0].rows, 360) && Counting(columns[1].rows, 60) && Counting(columns[2].rows, 60)
    ensures Decompose(Tolerance, Measurement(150.5, Degrees), columns) == Some([0, 59, 59])
  {
    var value := Measurement(150.5, Degrees);
    var path: ColumnPath := [0, 59, 59];
    assert !HasEmptyColumn(columns);
    assert ResidualAt(value, columns, path, 0) == 150.5;
    ToleranceBetweenRows(columns[0].rows, 360, 150.5, 150);
    AngleToleranceResidualOne(value, columns, path);
    ToleranceAboveLastRow(columns[1].rows, 60, 9030.0);
    AngleToleranceResidualTwo(value, columns, path);
    ToleranceAboveLastRow(columns[2].rows, 60, 538260.0);
    assert ChosenBy(Tolerance, value, columns, path);
    DecomposeUnique(Tolerance, value, columns, path);
  }

  /** After 0° the arc-minute column sees all of 150.5°, that is 9030′. */
  lemma AngleToleranceResidualOne(value: Measurement, columns: seq<PickerColumn>, path: ColumnPath)
    requires value == Measurement(150.5, Degrees)
    requires 2 <= |path| <= |columns| && ValidPath(path, columns)
    requires columns[0].unit == Degrees && columns[1].unit == ArcMinutes
    requires columns[0].rows[path[0]] == 0.0
    ensures ResidualAt(value, columns, path, 1) == 9030.0
  {
    assert PartialSum(columns, path, 1) == 0.0;
    DivideExactly(150.5, 1.0 / 60.0, 9030.0);
  }

  /** After 0° 59′ the arc-second column sees 149.5166…°, that is 538260″. */
  lemma AngleToleranceResidualTwo(value: Measurement, columns: seq<PickerColumn>, path: ColumnPath)
    requires value == Measurement(150.5, Degrees)
    requires 3 <= |path| <= |columns| && ValidPath(path, columns)
    requires columns[0].unit == Degrees && columns[1].unit == ArcMinutes && columns[2].unit == ArcSeconds
    requires columns[0].rows[path[0]] == 0.0 && columns[1].rows[path[1]] == 59.0
    ensures ResidualAt(value, columns, path, 2) == 538260.0
  {
    assert PartialSum(columns, path, 1) == 0.0;
    assert PartialSum(columns, path, 2) == 59.0 * (1.0 / 60.0);
    DivideExactly(150.5 - 59.0 * (1.0 / 60.0), 1.0 / 3600.0, 538260.0);
  }

  // The body-height picker of imperial locales

  ghost predicate HeightColumns(columns: seq<PickerColumn>) {
    && |columns| == 2
    && ColumnOf(columns[0], Feet, 0.0, 9.0, DefaultStep)
    && ColumnOf(columns[1], Inches, 0.0, 11.0, DefaultStep)
  }

  /**
   * On feet and inches columns whose rows count from zero, `meters` decomposes
   * to `[feet, inches]` exactly when the rule picks `feet` for the value in
   * feet and `inches` for what remains, in inches.
   */
  lemma HeightDecomposes(rounding: Rounding, columns: seq<PickerColumn>, meters: real, feet: nat, inches: nat)
    requires |columns| == 2 && columns[0].unit == Feet && columns[1].unit == Inches
    requires feet < |columns[0].rows| && inches < |columns[1].rows| && columns[0].rows[feet] == feet as real
    requires Select(rounding, columns[0].rows, meters / 0.3048) == feet
    requires Select(rounding, columns[1].rows, (meters - feet as real * 0.3048) / 0.0254) == inches
    ensures Decompose(rounding, Measurement(meters, Meters), columns) == Some([feet, inches])
  {
    var value := Measurement(meters, Meters);
    var path: ColumnPath := [feet, inches];
    assert !HasEmptyColumn(columns);
    assert ResidualAt(value, columns, path, 0) == meters / 0.3048;
    assert ResidualAt(value, columns, path, 1) == (meters - feet as real * 0.3048) / 0.0254;
    assert ChosenBy(rounding, value, columns, path);
    DecomposeUnique(rounding, value, columns, path);
  }

  /** The height columns as the decomposition sees them: counting rows in feet and in inches. */
  ghost predicate HeightRows(columns: seq<PickerColumn>) {
    && |columns| == 2 && columns[0].unit == Feet && columns[1].unit == Inches
    && Counting(columns[0].rows, 9) && Ascending(columns[0].rows)
    && Counting(columns[1].rows, 11) && Ascending(columns[1].rows)
  }

  lemma HeightRowsOf(columns: seq<PickerColumn>)
    requires HeightColumns(columns)
    ensures HeightRows(columns)
  {
    CountingColumn(columns[0], Feet, 9);
    CountingColumn(columns[1], Inches, 11);
  }

  /** Under truncation 1.6 m shows as 5 ft 2 in. */
  lemma HeightTruncation(columns: seq<PickerColumn>)
    requires HeightColumns(columns)
    ensures Decompose(Truncation, Measurement(1.6, Meters), columns) == Some([5, 2])
  {
    HeightRowsOf(columns);
    HeightTruncationOn(columns);
  }

  lemma HeightTruncationOn(columns: seq<PickerColumn>)
    requires HeightRows(columns)
    ensures Decompose(Truncation, Measurement(1.6, Meters), columns) == Some([5, 2])
  {
    TruncationCounts(columns[0].rows, 9, 1.6 / 0.3048, 5);
    TruncationCounts(columns[1].rows, 11, (1.6 - 5.0 * 0.3048) / 0.0254, 2);
    HeightDecomposes(Truncation, columns, 1.6, 5, 2);
  }

  /** Under the tolerance rule 1.6 m shows as 0 ft 10 in: the feet residual lies between rows. */
  lemma HeightTolerance(columns: seq<PickerColumn>)
    requires HeightColumns(columns)
    ensures Decompose(Tolerance, Measurement(1.6, Meters), columns) == Some([0, 10])
  {
    HeightRowsOf(columns);
    HeightToleranceOn(columns);
  }

  lemma HeightToleranceOn(columns: seq<PickerColumn>)
    requires HeightRows(columns)
    ensures Decompose(Tolerance, Measurement(1.6, Meters), columns) == Some([0, 10])
  {
    ToleranceBetweenRows(columns[0].rows, 9, 1.6 / 0.3048, 5);
    ToleranceAboveLastRow(columns[1].rows, 11, (1.6 - 0.0 * 0.3048) / 0.0254);
    HeightDecomposes(Tolerance, columns, 1.6, 0, 10);
  }

  /** Under truncation 1.8 m shows as 5 ft 0 in: the inches residual is past the last row. */
  lemma TallHeightTruncation(columns: seq<PickerColumn>)
    requires HeightColumns(columns)
    ensures Decompose(Truncation, Measurement(1.8, Meters), columns) == Some([5, 0])
  {
    HeightRowsOf(columns);
    TallHeightTruncationOn(columns);
  }

  lemma TallHeightTruncationOn(columns: seq<PickerColumn>)
    requires HeightRows(columns)
    ensures Decompose(Truncation, Measurement(1.8, Meters), columns) == Some([5, 0])
  {
    TruncationCounts(columns[0].rows, 9, 1.8 / 0.3048, 5);
    TruncationAboveLastRow(columns[1].rows, 11, (1.8 - 5.0 * 0.3048) / 0.0254);
    HeightDecomposes(Truncation, columns, 1.8, 5, 0);
  }

  /** The corrected rule shows 1.6 m as 5 ft 2 in and 1.8 m as 5 ft 10 in. */
  lemma HeightFloor(columns: seq<PickerColumn>)
    requires HeightColumns(columns)
    ensures Decompose(Floor, Measurement(1.6, Meters), columns) == Some([5, 2])
    ensures Decompose(Floor, Measurement(1.8, Meters), columns) == Some([5, 10])
  {
    HeightRowsOf(columns);
    HeightFloorShort(columns);
    HeightFloorTall(columns);
  }

  lemma HeightFloorShort(columns: seq<PickerColumn>)
    requires HeightRows(columns)
    ensures Decompose(Floor, Measurement(1.6, Meters), columns) == Some([5, 2])
  {
    HeightFloorOn(columns, 1.6, 5, 2);
  }

  lemma HeightFloorTall(columns: seq<PickerColumn>)
    requires HeightRows(columns)
    ensures Decompose(Floor, Measurement(1.8, Meters), columns) == Some([5, 10])
  {
    HeightFloorOn(columns, 1.8, 5, 10);
  }

  lemma HeightFloorOn(columns: seq<PickerColumn>, meters: real, feet: nat, inches: nat)
    requires HeightRows(columns) && feet < 9 && inches < 11
    requires feet as real <= meters / 0.3048 + Threshold
    requires feet + 1 < 9 ==> meters / 0.3048 + Threshold < feet as real + 1.0
    requires inches as real <= (meters - feet as real * 0.3048) / 0.0254 + Threshold
    requires inches + 1 < 11 ==> (meters - feet as real * 0.3048) / 0.0254 + Threshold < inches as real + 1.0
    ensures Decompose(Floor, Measurement(meters, Meters), columns) == Some([feet, inches])
  {
    FloorCounts(columns[0].rows, 9, meters / 0.3048, feet);
    FloorCounts(columns[1].rows, 11, (meters - feet as real * 0.3048) / 0.0254, inches);
    HeightDecomposes(Floor, columns, meters, feet, inches);
  }

  /** Feet before inches passes the construction check of a debug build; inches before feet fails it. */
  lemma HeightColumnOrder(feet: PickerColumn, inches: PickerColumn)
    requires feet.unit == Feet && inches.unit == Inches
    ensures Init(Picker([feet, inches]), true).Some?
    ensures Init(Picker([inches, feet]), true).None?
  {
    assert LargestUnitFirst([feet, inches]);
  }
}
