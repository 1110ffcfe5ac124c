/**
 * `PickerColumn`: one wheel of the picker, holding a unit, a closed range,
 * a step and the row values generated from them.
 */
module PickerColumns {
  import opened Units

  /** Swift's `ClosedRange<Double>`. */
  datatype ClosedRange = ClosedRange(lowerBound: real, upperBound: real)

  datatype PickerColumn = PickerColumn(unit: Unit, range: ClosedRange, step: real, rows: seq<real>)

  /** The number of times `step` can be added to `lower` before reaching `upper`. */
  function Span(lower: real, upper: real, step: real): int
    requires 0.0 < step
  {
    ((upper - lower) / step).Floor
  }

  lemma SpanShrinks(lower: real, upper: real, step: real)
    requires 0.0 < step && lower < upper
    ensures 0 <= Span(lower, upper, step)
    ensures Span(lower + step, upper, step) == Span(lower, upper, step) - 1
  {
    var q := (upper - lower) / step;
    DivideExactly(upper - lower, step, q);
    assert (q - 1.0) * step == upper - (lower + step);
    DivideExactly(upper - (lower + step), step, q - 1.0);
  }

  /**
   * The rows the initialiser's loop produces: start at `lower` and keep adding
   * `step` while the row is still below `upper`. The upper bound itself is
   * never a row, so the closed range behaves as a half-open one.
   */
  function Rows(lower: real, upper: real, step: real): seq<real>
    requires lower < upper ==> 0.0 < step
    decreases if lower < upper then Span(lower, upper, step) + 1 else 0
  {
    if lower < upper then
      SpanShrinks(lower, upper, step);
      [lower] + Rows(lower + step, upper, step)
    else []
  }

  /** Rows laid out as an arithmetic progression that stops right before `upper`. */
  ghost predicate ProgressionBelow(rows: seq<real>, lower: real, upper: real, step: real) {
    && (forall k :: 0 <= k < |rows| ==> rows[k] == lower + k as real * step)
    && (forall k :: 0 <= k < |rows| ==> rows[k] < upper)
    && upper <= lower + |rows| as real * step
  }

  lemma MulMonotone(a: int, b: int, s: real)
    requires a <= b && 0.0 < s
    ensures a as real * s <= b as real * s
  {
    assert b as real * s - a as real * s == (b - a) as real * s;
  }

  /** At most one sequence is such a progression. */
  lemma ProgressionUnique(xs: seq<real>, ys: seq<real>, lower: real, upper: real, step: real)
    requires 0.0 < step
    requires ProgressionBelow(xs, lower, upper, step) && ProgressionBelow(ys, lower, upper, step)
    ensures xs == ys
  {
    if |xs| != |ys| {
      ProgressionNotLonger(xs, ys, lower, upper, step);
      ProgressionNotLonger(ys, xs, lower, upper, step);
    }
  }

  lemma ProgressionNotLonger(xs: seq<real>, ys: seq<real>, lower: real, upper: real, step: real)
    requires 0.0 < step
    requires ProgressionBelow(xs, lower, upper, step) && ProgressionBelow(ys, lower, upper, step)
    ensures |ys| <= |xs|
  {
    if 0 < |ys| {
      var m := |ys| - 1;
      assert ys[m] == lower + m as real * step && ys[m] < upper;
      assert upper <= lower + |xs| as real * step;
      MulCancel(m, |xs|, step);
    }
  }

  lemma MulCancel(a: int, b: int, s: real)
    requires 0.0 < s && a as real * s < b as real * s
    ensures a < b
  {
    assert (b - a) as real * s == b as real * s - a as real * s;
  }

  lemma ShiftByStep(lower: real, step: real, k: int)
    ensures lower + step + (k - 1) as real * step == lower + k as real * step
  {
  }

  /** `Rows` is the progression from `lower` by `step` that stops right before `upper`. */
  lemma {:induction false} RowsAreProgression(lower: real, upper: real, step: real)
    requires 0.0 < step
    ensures ProgressionBelow(Rows(lower, upper, step), lower, upper, step)
    decreases if lower < upper then Span(lower, upper, step) + 1 else 0
  {
    var rows := Rows(lower, upper, step);
    if lower < upper {
      SpanShrinks(lower, upper, step);
      var rest := Rows(lower + step, upper, step);
      RowsAreProgression(lower + step, upper, step);
      assert rows == [lower] + rest;
      ProgressionCons(rows, rest, lower, upper, step);
    }
  }

  /** A progression from `lower + step`, with `lower` put in front, is one from `lower`. */
  lemma ProgressionCons(rows: seq<real>, rest: seq<real>, lower: real, upper: real, step: real)
    requires lower < upper && rows == [lower] + rest
    requires ProgressionBelow(rest, lower + step, upper, step)
    ensures ProgressionBelow(rows, lower, upper, step)
  {
    forall k | 0 <= k < |rows|
      ensures rows[k] == lower + k as real * step
    {
      if 0 < k {
        assert rows[k] == rest[k - 1];
        ShiftByStep(lower, step, k);
      }
    }
    ShiftByStep(lower, step, |rows|);
  }

  /** Consecutive rows are exactly one `step` apart, hence strictly increasing. */
  lemma RowsAscendByStep(lower: real, upper: real, step: real)
    requires 0.0 < step
    ensures var rows := Rows(lower, upper, step);
      && (forall k :: 0 < k < |rows| ==> rows[k] == rows[k - 1] + step)
      && (forall i, j :: 0 <= i < j < |rows| ==> rows[i] < rows[j])
  {
    var rows := Rows(lower, upper, step);
    RowsAreProgression(lower, upper, step);
    forall i, j | 0 <= i < j < |rows|
      ensures rows[i] < rows[j]
    {
      assert rows[j] - rows[i] == (j - i) as real * step;
    }
  }

  /**
   * The first row is the lower bound whenever the range is not degenerate, and
   * there are no rows at all when the lower bound reaches the upper one.
   */
  lemma RowsBounds(lower: real, upper: real, step: real)
    requires lower < upper ==> 0.0 < step
    ensures lower < upper <==> |Rows(lower, upper, step)| > 0
    ensures lower < upper ==> Rows(lower, upper, step)[0] == lower
  {
  }

  /** Knowing the number of rows in advance: `n` rows exactly when the `n`-th step lands at or past `upper`. */
  lemma RowsLength(lower: real, upper: real, step: real, n: nat)
    requires 0.0 < step
    requires 0 < n ==> lower + (n - 1) as real * step < upper
    requires upper <= lower + n as real * step
    ensures |Rows(lower, upper, step)| == n
  {
    RowsAreProgression(lower, upper, step);
    ProgressionLength(Rows(lower, upper, step), lower, upper, step, n);
  }

  lemma ProgressionLength(xs: seq<real>, lower: real, upper: real, step: real, n: nat)
    requires 0.0 < step && ProgressionBelow(xs, lower, upper, step)
    requires 0 < n ==> lower + (n - 1) as real * step < upper
    requires upper <= lower + n as real * step
    ensures |xs| == n
  {
    var spec := seq(n, k => lower + k as real * step);
    SpecBelow(spec, lower, upper, step, n);
    ProgressionUnique(xs, spec, lower, upper, step);
  }

  lemma SpecBelow(spec: seq<real>, lower: real, upper: real, step: real, n: nat)
    requires 0.0 < step && |spec| == n
    requires forall k :: 0 <= k < n ==> spec[k] == lower + k as real * step
    requires 0 < n ==> lower + (n - 1) as real * step < upper
    requires upper <= lower + n as real * step
    ensures ProgressionBelow(spec, lower, upper, step)
  {
    forall k | 0 <= k < n
      ensures spec[k] < upper
    {
      StepsBelow(lower, upper, step, k, n);
    }
  }

  lemma StepsBelow(lower: real, upper: real, step: real, k: nat, n: nat)
    requires 0.0 < step && k < n && lower + (n - 1) as real * step < upper
    ensures lower + k as real * step < upper
  {
    MulMonotone(k, n - 1, step);
  }

  /**
   * The initialiser's loop, as written: repeated addition of `step`.
   * It only terminates when `step` is positive or the range is degenerate.
   */
  method GenerateRows(lower: real, upper: real, step: real) returns (rows: seq<real>)
    requires lower < upper ==> 0.0 < step
    ensures 0.0 < step ==> ProgressionBelow(rows, lower, upper, step)
    ensures upper <= lower ==> rows == []
    ensures rows == Rows(lower, upper, step)
  {
    rows := [];
    var row := lower;
    while row < upper
      invariant row < upper ==> 0.0 < step
      invariant Rows(lower, upper, step) == rows + Rows(row, upper, step)
      decreases if row < upper then Span(row, upper, step) + 1 else 0
    {
      SpanShrinks(row, upper, step);
      rows := rows + [row];
      row := row + step;
    }
    assert rows == Rows(lower, upper, step);
    if 0.0 < step {
      RowsAreProgression(lower, upper, step);
    }
  }

  /** `PickerColumn.init`: stores its arguments unchanged and generates the rows. */
  function MakeColumn(unit: Unit, range: ClosedRange, step: real): (c: PickerColumn)
    requires range.lowerBound < range.upperBound ==> 0.0 < step
    ensures c.unit == unit && c.range == range && c.step == step
    ensures 0.0 < step ==> ProgressionBelow(c.rows, range.lowerBound, range.upperBound, step)
    ensures range.upperBound <= range.lowerBound ==> c.rows == []
  {
    var rows := Rows(range.lowerBound, range.upperBound, step);
    assert 0.0 < step ==> ProgressionBelow(rows, range.lowerBound, range.upperBound, step) by {
      if 0.0 < step {
        RowsAreProgression(range.lowerBound, range.upperBound, step);
      }
    }
    PickerColumn(unit, range, step, rows)
  }

  /** A column whose rows are those its unit, range and step generate. */
  ghost predicate Generated(c: PickerColumn) {
    && (c.range.lowerBound < c.range.upperBound ==> 0.0 < c.step)
    && c.rows == Rows(c.range.lowerBound, c.range.upperBound, c.step)
  }

  /** The default step of the initialiser. */
  const DefaultStep: real := 1.0

  /** `0...9` with the default step yields the nine rows 0 through 8: nine is excluded. */
  lemma ZeroToNineExcludesNine()
    ensures MakeColumn(Feet, ClosedRange(0.0, 9.0), DefaultStep).rows == [0.0, 1.0, 2.0, 3.0, 4.0, 5.0, 6.0, 7.0, 8.0]
  {
  }
}
