/**
 * The round trip the picker is meant to make: a value read off the picker
 * with `value(at:in:)`, set back through `setPicker`, selects the same rows.
 * Under the corrected row rule it does, whenever every column's later columns
 * add up to less than one step of it.
 */
module RoundTrip {
  import opened Wrappers
  import opened Units
  import opened PickerColumns
  import opened Decomposition
  import opened Recomposition
  import opened MeasurementTextField

  /** What the columns after column `i` add to the total, in column `i`'s unit. */
  function Later(columns: seq<PickerColumn>, path: ColumnPath, i: nat): real
    requires i < |path| && ValidPath(path, columns)
  {
    (PartialSum(columns, path, |path|) - PartialSum(columns, path, i + 1)) / columns[i].unit.factor
  }

  /**
   * The columns nest: what the later columns add to each column is never
   * negative and stays, with the tolerance, below the gap to its next row.
   * Feet over inches `0...11` nest; so do degrees over arc minutes and arc
   * seconds `0...60`.
   */
  ghost predicate Nested(columns: seq<PickerColumn>, path: ColumnPath)
    requires ValidPath(path, columns)
  {
    forall i :: 0 <= i < |path| ==>
      && 0.0 <= Later(columns, path, i)
      && (path[i] + 1 < |columns[i].rows| ==>
            Later(columns, path, i) + Threshold < columns[i].rows[path[i] + 1] - columns[i].rows[path[i]])
  }

  /** When the value is the path's total, column `i` sees its own row plus what the later columns add. */
  lemma ResidualIsRowPlusLater(value: Measurement, columns: seq<PickerColumn>, path: ColumnPath, i: nat)
    requires i < |path| && ValidPath(path, columns)
    requires BaseValue(value) == PartialSum(columns, path, |path|)
    ensures ResidualAt(value, columns, path, i) == columns[i].rows[path[i]] + Later(columns, path, i)
  {
    ResidualSplits(BaseValue(value), columns, path, i);
    LaterIs(columns, path, i);
  }

  /** `Later` written out, so that callers need not unfold it next to other quotients. */
  lemma LaterIs(columns: seq<PickerColumn>, path: ColumnPath, i: nat)
    requires i < |path| && ValidPath(path, columns)
    ensures Later(columns, path, i)
         == (PartialSum(columns, path, |path|) - PartialSum(columns, path, i + 1)) / columns[i].unit.factor
  {
  }

  /** The residual identity with both quotients written out. */
  lemma ResidualSplits(whole: real, columns: seq<PickerColumn>, path: ColumnPath, i: nat)
    requires i < |path| && ValidPath(path, columns)
    requires whole == PartialSum(columns, path, |path|)
    ensures (whole - PartialSum(columns, path, i)) / columns[i].unit.factor
         == columns[i].rows[path[i]]
            + (PartialSum(columns, path, |path|) - PartialSum(columns, path, i + 1)) / columns[i].unit.factor
  {
    PartialSumStep(columns, path, i);
    SplitQuotient(whole, PartialSum(columns, path, |path|), PartialSum(columns, path, i),
      PartialSum(columns, path, i + 1), columns[i].rows[path[i]], columns[i].unit.factor);
  }

  lemma SplitQuotient(whole: real, total: real, before: real, after: real, row: real, f: real)
    requires 0.0 < f && whole == total && after == before + row * f
    ensures (whole - before) / f == row + (total - after) / f
  {
    var later := (total - after) / f;
    DivideExactly(total - after, f, later);
    DivideExactly(whole - before, f, row + later);
  }

  lemma PartialSumStep(columns: seq<PickerColumn>, path: ColumnPath, i: nat)
    requires i < |path| && ValidPath(path, columns)
    ensures PartialSum(columns, path, i + 1)
         == PartialSum(columns, path, i) + columns[i].rows[path[i]] * columns[i].unit.factor
  {
  }

  /** On ascending rows the corrected rule picks any row at or below the residual whose next row is above it. */
  lemma FloorPicks(rows: seq<real>, x: real, j: nat)
    requires Ascending(rows) && j < |rows|
    requires rows[j] <= x + Threshold
    requires j + 1 < |rows| ==> x + Threshold < rows[j + 1]
    ensures SelectFloor(rows, x) == j
  {
    FirstAboveSpec(rows, x + Threshold, 0);
    assert forall i :: 0 <= i <= j ==> rows[i] <= x + Threshold;
  }

  /** Column `i` of a nested path selects its own row again. */
  lemma FloorKeepsColumn(value: Measurement, columns: seq<PickerColumn>, path: ColumnPath, i: nat)
    requires i < |path| && ValidPath(path, columns) && Ascending(columns[i].rows)
    requires BaseValue(value) == PartialSum(columns, path, |path|)
    requires 0.0 <= Later(columns, path, i)
    requires path[i] + 1 < |columns[i].rows| ==>
      Later(columns, path, i) + Threshold < columns[i].rows[path[i] + 1] - columns[i].rows[path[i]]
    ensures path[i] == Select(Floor, columns[i].rows, ResidualAt(value, columns, path, i))
  {
    var rows := columns[i].rows;
    var x := ResidualAt(value, columns, path, i);
    var later := Later(columns, path, i);
    ResidualIsRowPlusLater(value, columns, path, i);
    BetweenRows(rows, x, later, path[i]);
    FloorPicks(rows, x, path[i]);
  }

  /** A residual of a row plus a nested remainder lies between that row and the next. */
  lemma BetweenRows(rows: seq<real>, x: real, later: real, j: nat)
    requires j < |rows| && x == rows[j] + later && 0.0 <= later
    requires j + 1 < |rows| ==> later + Threshold < rows[j + 1] - rows[j]
    ensures rows[j] <= x + Threshold
    ensures j + 1 < |rows| ==> x + Threshold < rows[j + 1]
  {
  }

  /**
   * A value equal to the total of a nested path through every column
   * decomposes, under the corrected rule, to exactly that path.
   */
  lemma FloorRecoversPath(value: Measurement, columns: seq<PickerColumn>, path: ColumnPath)
    requires |path| == |columns| && ValidPath(path, columns)
    requires forall i :: 0 <= i < |columns| ==> Ascending(columns[i].rows)
    requires Nested(columns, path)
    requires BaseValue(value) == PartialSum(columns, path, |path|)
    ensures Decompose(Floor, value, columns) == Some(path)
  {
    forall i | 0 <= i < |path|
      ensures path[i] == Select(Floor, columns[i].rows, ResidualAt(value, columns, path, i))
    {
      FloorKeepsColumn(value, columns, path, i);
    }
    assert !HasEmptyColumn(columns) by {
      forall i | 0 <= i < |columns|
        ensures |columns[i].rows| != 0
      {
        assert path[i] < |columns[i].rows|;
      }
    }
    DecomposeUnique(Floor, value, columns, path);
  }

  /**
   * Reading a nested selection off the picker and setting the result back
   * selects the same rows, under the corrected rule.
   */
  lemma FloorRoundTrip(columns: seq<PickerColumn>, path: ColumnPath)
    requires 0 < |path| && |path| == |columns| && ValidPath(path, columns)
    requires forall i :: 0 <= i < |columns| ==> Ascending(columns[i].rows)
    requires Nested(columns, path)
    ensures Decompose(Floor, ValueAt(path, columns).value, columns) == Some(path)
  {
    FloorRecoversPath(ValueAt(path, columns).value, columns, path);
  }

  /**
   * After the user selects nested rows on every column, setting the value
   * the selection stands for, under the corrected rule, changes nothing:
   * the picker keeps the same rows, text and value.
   */
  lemma SelectThenSetIsStable(f: Field, selected: SelectedRows, fmt: Formatters, debug: bool)
    requires f.inputType.Picker? && 0 < |selected| == |f.inputType.columns|
    requires RowsExist(selected, f.inputType.columns)
    requires forall i :: 0 <= i < |f.inputType.columns| ==> Ascending(f.inputType.columns[i].rows)
    requires Nested(f.inputType.columns, AsPath(selected))
    ensures PickerSelected(f, selected, fmt.describe, debug).Some?
    ensures var c := PickerSelected(f, selected, fmt.describe, debug).value;
      SetValue(c.field, c.field.value, Floor, fmt) == Some(c.field)
  {
    var columns := f.inputType.columns;
    var path := AsPath(selected);
    FloorRoundTrip(columns, path);
  }
}
