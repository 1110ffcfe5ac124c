/**
 * `MeasurementTextField`: the state the control keeps (its input type, the
 * current value, the text shown, the rows selected on the picker) and the
 * operations that change it — construction, the `value` setter, the text
 * change handler and the keyboard edit gate.
 *
 * Foundation's formatters are foreign code, so they come in as functions the
 * model knows nothing about: `parse` for `NumberFormatter.number(from:)`,
 * `format` for `NumberFormatter.string(from:)` and `describe` for
 * `MeasurementFormatter.string(from:)`.
 */
module MeasurementTextField {
  import opened Wrappers
  import opened Units
  import opened PickerColumns
  import opened Decomposition
  import opened Recomposition

  /** `InputType`: a keyboard entering amounts in one unit, or a picker of columns. */
  datatype InputType =
    | KeyboardInput(unit: Unit, showMeasureUnit: bool)
    | Picker(columns: seq<PickerColumn>)

  datatype Formatters = Formatters(
    parse: string -> Option<real>,
    format: real -> Option<string>,
    describe: Measurement -> string)

  /**
   * The control's state. `text` is the text field's optional text;
   * `selection` is the path selected on the picker, when the control
   * knows it: after it selected the rows itself, or after a row selection.
   */
  datatype Field = Field(inputType: InputType, value: Option<Measurement>, text: Option<string>, selection: Option<ColumnPath>)

  /**
   * The result of an event: the new state and, when observers were told, the
   * value they were told about (the `UIView` wrapper in the root
   * `MeasurementTextField.swift` passes the new value to `onValueChanged`;
   * the `UITextField` subclass sends `.valueChanged`, which carries no value).
   */
  datatype Changed = Changed(field: Field, notified: Option<Option<Measurement>>)

  // Construction

  /** `Double.greatestFiniteMagnitude`, the bound the ordering check starts from. */
  const GreatestFiniteMagnitude: real :=
    179769313486231570814527423731704356798070567525844996598917476803157260780028538760589558632766878171540458953514382464234321326889464182768467546703537516986049910576551282076245490090389328944075868508455133942304583236903222948165808559332123348274797826204144723168738177180919299881250404026184124858368.0

  /** One unit of the column's unit, converted to the base unit. */
  function UnitInBase(c: PickerColumn): (r: real)
    ensures r == c.unit.factor
  {
    Converted(Measurement(1.0, c.unit), BaseUnit(c.unit.dimension)).value
  }

  /** The debug check's loop: each column's unit is smaller than `lastValue`, then than the column before it. */
  function OrderedBelow(columns: seq<PickerColumn>, lastValue: real): bool
    decreases |columns|
  {
    if |columns| == 0 then true
    else
      var value := UnitInBase(columns[0]);
      value < lastValue && OrderedBelow(columns[1..], value)
  }

  /** Columns ordered from the largest unit to the smallest, the first below the largest finite double. */
  ghost predicate LargestUnitFirst(columns: seq<PickerColumn>) {
    && (0 < |columns| ==> columns[0].unit.factor < GreatestFiniteMagnitude)
    && forall i, j :: 0 <= i < j < |columns| ==> columns[j].unit.factor < columns[i].unit.factor
  }

  /** The loop accepts exactly the strictly decreasing lists of unit sizes below its starting bound. */
  lemma {:induction false} OrderedBelowIff(columns: seq<PickerColumn>, lastValue: real)
    ensures OrderedBelow(columns, lastValue) <==>
      && (0 < |columns| ==> columns[0].unit.factor < lastValue)
      && forall i, j :: 0 <= i < j < |columns| ==> columns[j].unit.factor < columns[i].unit.factor
    decreases |columns|
  {
    if 0 < |columns| {
      var rest := columns[1..];
      OrderedBelowIff(rest, columns[0].unit.factor);
      if OrderedBelow(columns, lastValue) {
        forall i, j | 0 <= i < j < |columns|
          ensures columns[j].unit.factor < columns[i].unit.factor
        {
          assert columns[j] == rest[j - 1];
          if 0 < i {
            assert columns[i] == rest[i - 1];
          } else if 1 < j {
            assert rest[j - 1].unit.factor < rest[0].unit.factor;
          }
        }
      }
      if columns[0].unit.factor < lastValue
        && forall i, j :: 0 <= i < j < |columns| ==> columns[j].unit.factor < columns[i].unit.factor
      {
        forall i, j | 0 <= i < j < |rest|
          ensures rest[j].unit.factor < rest[i].unit.factor
        {
          assert rest[i] == columns[i + 1] && rest[j] == columns[j + 1];
        }
        if 0 < |rest| {
          assert rest[0] == columns[1];
        }
      }
    }
  }

  /** The construction check, as the debug build runs it. */
  lemma ColumnsOrderedIff(columns: seq<PickerColumn>)
    ensures OrderedBelow(columns, GreatestFiniteMagnitude) <==> LargestUnitFirst(columns)
  {
    OrderedBelowIff(columns, GreatestFiniteMagnitude);
  }

  /**
   * `init(inputType:)`. In a debug build a picker whose columns are not
   * ordered from the largest unit to the smallest fails its assertion, which
   * `None` stands for; a release build skips the check. The new control has
   * no value, empty text and no selection.
   */
  function Init(inputType: InputType, debug: bool): (r: Option<Field>)
    ensures r.None? <==> debug && inputType.Picker? && !LargestUnitFirst(inputType.columns)
    ensures r.Some? ==> r.value == Field(inputType, None, Some(""), None)
  {
    if debug && inputType.Picker? && !OrderedBelow(inputType.columns, GreatestFiniteMagnitude) then
      ColumnsOrderedIff(inputType.columns);
      None
    else
      assert inputType.Picker? && debug ==> LargestUnitFirst(inputType.columns) by {
        if inputType.Picker? {
          ColumnsOrderedIff(inputType.columns);
        }
      }
      Some(Field(inputType, None, Some(""), None))
  }

  // Text shown for a picker selection

  /** `joined(separator: " ")`. */
  function Join(segments: seq<string>): string {
    if |segments| == 0 then ""
    else if |segments| == 1 then segments[0]
    else segments[0] + " " + Join(segments[1..])
  }

  /** Where segment `i` starts in the joined text: after every earlier segment and its separating space. */
  function Start(segments: seq<string>, i: nat): nat
    requires i <= |segments|
    decreases i
  {
    if i == 0 then 0 else |segments[0]| + 1 + Start(segments[1..], i - 1)
  }

  /**
   * `text` is the segments laid end to end with one space between
   * neighbours: each segment at its `Start`, a space right after every
   * segment but the last, and nothing after the last one.
   */
  ghost predicate SpaceSeparated(text: string, segments: seq<string>) {
    && (|segments| == 0 ==> text == "")
    && (0 < |segments| ==> |text| == Start(segments, |segments| - 1) + |segments[|segments| - 1]|)
    && SegmentsAt(text, segments)
    && SpacesAfter(text, segments)
  }

  /** Every segment sits in `text` at its `Start`. */
  ghost predicate SegmentsAt(text: string, segments: seq<string>) {
    forall i :: 0 <= i < |segments| ==>
      && Start(segments, i) + |segments[i]| <= |text|
      && text[Start(segments, i)..Start(segments, i) + |segments[i]|] == segments[i]
  }

  /** A space follows every segment but the last. */
  ghost predicate SpacesAfter(text: string, segments: seq<string>) {
    forall i :: 0 <= i < |segments| - 1 ==>
      && Start(segments, i) + |segments[i]| < |text|
      && text[Start(segments, i) + |segments[i]|] == ' '
  }

  /** The joined text has exactly that layout. */
  lemma {:induction false} JoinLayout(segments: seq<string>)
    ensures SpaceSeparated(Join(segments), segments)
    decreases |segments|
  {
    if 1 < |segments| {
      var j := Join(segments[1..]);
      JoinLayout(segments[1..]);
      ConsSegments(segments, j);
      ConsSpaces(segments, j);
      StartCons(segments, |segments| - 1);
    } else if |segments| == 1 {
      assert Join(segments)[0..|segments[0]|] == segments[0];
    }
  }

  lemma StartCons(segments: seq<string>, i: nat)
    requires 0 < i <= |segments|
    ensures Start(segments, i) == |segments[0]| + 1 + Start(segments[1..], i - 1)
  {
  }

  /** A first segment and a space in front of a text with the other segments in place keep them all in place. */
  lemma ConsSegments(segments: seq<string>, j: string)
    requires 1 < |segments| && SegmentsAt(j, segments[1..])
    ensures SegmentsAt(segments[0] + " " + j, segments)
  {
    var rest := segments[1..];
    var t := segments[0] + " " + j;
    forall i | 0 <= i < |segments|
      ensures Start(segments, i) + |segments[i]| <= |t|
      ensures t[Start(segments, i)..Start(segments, i) + |segments[i]|] == segments[i]
    {
      if i == 0 {
        assert t[0..|segments[0]|] == segments[0];
      } else {
        StartCons(segments, i);
        assert segments[i] == rest[i - 1];
        ShiftedSlice(segments[0], j, Start(rest, i - 1), |rest[i - 1]|);
      }
    }
  }

  /** The same for the spaces after the segments. */
  lemma ConsSpaces(segments: seq<string>, j: string)
    requires 1 < |segments| && SpacesAfter(j, segments[1..])
    ensures SpacesAfter(segments[0] + " " + j, segments)
  {
    var rest := segments[1..];
    var t := segments[0] + " " + j;
    forall i | 0 <= i < |segments| - 1
      ensures Start(segments, i) + |segments[i]| < |t|
      ensures t[Start(segments, i) + |segments[i]|] == ' '
    {
      if 0 < i {
        StartCons(segments, i);
        assert segments[i] == rest[i - 1];
      }
    }
  }

  /** Text behind `s0` and a space reads, shifted, as it did on its own. */
  lemma ShiftedSlice(s0: string, j: string, a: nat, len: nat)
    requires a + len <= |j|
    ensures (s0 + " " + j)[|s0| + 1 + a..|s0| + 1 + a + len] == j[a..a + len]
  {
  }

  /** No other text has that layout: it characterises `Join` completely. */
  lemma {:induction false} SpaceSeparatedIsJoin(text: string, segments: seq<string>)
    requires SpaceSeparated(text, segments)
    ensures text == Join(segments)
    decreases |segments|
  {
    if |segments| == 1 {
      assert text[0..|segments[0]|] == segments[0];
    } else if 1 < |segments| {
      var d := |segments[0]| + 1;
      assert text[0..d - 1] == segments[0];
      assert text[d - 1] == ' ';
      TailSegments(text, segments);
      TailSpaces(text, segments);
      StartCons(segments, |segments| - 1);
      SpaceSeparatedIsJoin(text[d..], segments[1..]);
      assert text == text[..d - 1] + [text[d - 1]] + text[d..];
    }
  }

  /** Behind its first segment and the space after it, a text with the segments in place has the others in place. */
  lemma TailSegments(text: string, segments: seq<string>)
    requires 1 < |segments| && SegmentsAt(text, segments) && |segments[0]| < |text|
    ensures SegmentsAt(text[|segments[0]| + 1..], segments[1..])
  {
    var rest := segments[1..];
    var d := |segments[0]| + 1;
    var tail := text[d..];
    forall i | 0 <= i < |rest|
      ensures Start(rest, i) + |rest[i]| <= |tail|
      ensures tail[Start(rest, i)..Start(rest, i) + |rest[i]|] == rest[i]
    {
      StartCons(segments, i + 1);
      assert segments[i + 1] == rest[i];
      SuffixSlice(text, d, Start(rest, i), |rest[i]|);
    }
  }

  /** The same for the spaces after the segments. */
  lemma TailSpaces(text: string, segments: seq<string>)
    requires 1 < |segments| && SpacesAfter(text, segments) && |segments[0]| < |text|
    ensures SpacesAfter(text[|segments[0]| + 1..], segments[1..])
  {
    var rest := segments[1..];
    var d := |segments[0]| + 1;
    forall i | 0 <= i < |rest| - 1
      ensures Start(rest, i) + |rest[i]| < |text[d..]|
      ensures text[d..][Start(rest, i) + |rest[i]|] == ' '
    {
      StartCons(segments, i + 1);
      assert segments[i + 1] == rest[i];
    }
  }

  lemma SuffixSlice(text: string, d: nat, a: nat, len: nat)
    requires d + a + len <= |text|
    ensures text[d..][a..a + len] == text[d + a..d + a + len]
  {
  }

  /** Cuts a string at every space: the inverse of `Join` on segments without spaces. */
  function Split(s: string): (r: seq<string>)
    ensures 0 < |r|
    decreases |s|
  {
    if |s| == 0 then [""]
    else if s[0] == ' ' then [""] + Split(s[1..])
    else
      var rest := Split(s[1..]);
      [[s[0]] + rest[0]] + rest[1..]
  }

  predicate NoSpace(s: string) {
    forall k :: 0 <= k < |s| ==> s[k] != ' '
  }

  lemma {:induction false} SplitPrefix(a: string, b: string)
    requires NoSpace(a)
    ensures Split(a + " " + b) == [a] + Split(b)
    ensures Split(a) == [a]
    decreases |a|
  {
    if 0 < |a| {
      SplitPrefix(a[1..], b);
      assert (a + " " + b)[1..] == a[1..] + " " + b;
      assert [a[0]] + a[1..] == a;
    } else {
      assert a + " " + b == " " + b;
      assert (" " + b)[1..] == b;
    }
  }

  /** The text of a joined selection falls apart into the segments again, when none of them holds a space. */
  lemma {:induction false} SplitJoin(segments: seq<string>)
    requires 0 < |segments|
    requires forall i :: 0 <= i < |segments| ==> NoSpace(segments[i])
    ensures Split(Join(segments)) == segments
    decreases |segments|
  {
    if |segments| == 1 {
      SplitPrefix(segments[0], "");
    } else {
      SplitJoin(segments[1..]);
      SplitPrefix(segments[0], Join(segments[1..]));
      assert [segments[0]] + segments[1..] == segments;
    }
  }

  /** The description of the row measurement `path` selects in each column, in column order. */
  function Described(path: ColumnPath, columns: seq<PickerColumn>, describe: Measurement -> string): (segments: seq<string>)
    requires ValidPath(path, columns)
    ensures |segments| == |path|
    ensures forall i :: 0 <= i < |path| ==> segments[i] == describe(Measurement(columns[i].rows[path[i]], columns[i].unit))
  {
    var ms := Measurements(path, columns);
    seq(|path|, i requires 0 <= i < |path| => describe(ms[i]))
  }

  /**
   * `showValue(for:columns:)`: the described row measurements, one per
   * column, laid end to end with a single space between neighbours; the
   * empty text for an empty path. When no description holds a space,
   * cutting the text at its spaces gives the descriptions back.
   */
  function ShowValue(path: ColumnPath, columns: seq<PickerColumn>, describe: Measurement -> string): (text: string)
    requires ValidPath(path, columns)
    ensures SpaceSeparated(text, Described(path, columns, describe))
    ensures |path| == 0 ==> text == ""
    ensures 0 < |path| && (forall i :: 0 <= i < |path| ==> NoSpace(describe(Measurement(columns[i].rows[path[i]], columns[i].unit))))
      ==> Split(text) == Described(path, columns, describe)
  {
    var segments := Described(path, columns, describe);
    JoinLayout(segments);
    if 0 < |path| && forall i :: 0 <= i < |path| ==> NoSpace(segments[i]) then
      SplitJoin(segments);
      Join(segments)
    else
      Join(segments)
  }

  // The `value` setter

  /**
   * `value`'s setter. The value is stored first. In keyboard mode the text
   * becomes the value in the keyboard's unit, formatted, and `""` for no
   * value. In picker mode no value changes nothing else; a value is
   * decomposed by `rounding` into a path that becomes the selection and the
   * text. `None` stands for the trap on a picker column without rows.
   */
  function SetValue(f: Field, v: Option<Measurement>, rounding: Rounding, fmt: Formatters): (r: Option<Field>)
    ensures r.None? <==> f.inputType.Picker? && v.Some? && HasEmptyColumn(f.inputType.columns)
    ensures r.Some? ==> r.value.value == v && r.value.inputType == f.inputType
    ensures r.Some? && f.inputType.KeyboardInput? ==> r.value.selection == f.selection
    ensures r.Some? && f.inputType.KeyboardInput? && v.None? ==> r.value.text == Some("")
    ensures r.Some? && f.inputType.KeyboardInput? && v.Some? ==>
      r.value.text == fmt.format(Converted(v.value, f.inputType.unit).value)
    ensures r.Some? && f.inputType.Picker? && v.None? ==> r.value.text == f.text && r.value.selection == f.selection
    ensures r.Some? && f.inputType.Picker? && v.Some? ==>
      && r.value.selection.Some?
      && |r.value.selection.value| == |f.inputType.columns|
      && ValidPath(r.value.selection.value, f.inputType.columns)
      && r.value.text == Some(ShowValue(r.value.selection.value, f.inputType.columns, fmt.describe))
  {
    match f.inputType
    case KeyboardInput(unit, _) =>
      if v.None? then Some(f.(value := None, text := Some("")))
      else Some(f.(value := v, text := fmt.format(Converted(v.value, unit).value)))
    case Picker(columns) =>
      if v.None? then Some(f.(value := None))
      else
        match Decompose(rounding, v.value, columns)
        case None => None
        case Some(path) => Some(f.(value := v, selection := Some(path), text := Some(ShowValue(path, columns, fmt.describe))))
  }

  /**
   * In picker mode the selection `SetValue` leaves holds, in every column, the
   * row `rounding` selects for that column's residual.
   */
  lemma SetValueSelects(f: Field, m: Measurement, rounding: Rounding, fmt: Formatters)
    requires f.inputType.Picker? && !HasEmptyColumn(f.inputType.columns)
    ensures SetValue(f, Some(m), rounding, fmt).Some?
    ensures var path := SetValue(f, Some(m), rounding, fmt).value.selection.value;
      && Some(path) == Decompose(rounding, m, f.inputType.columns)
  {
  }

  // Text changes

  /**
   * `onTextChanged`. Without text nothing happens. In picker mode only
   * clearing the text matters: it removes the value and notifies. In keyboard
   * mode the text is parsed: a number becomes the value in the keyboard's
   * unit, anything else removes the value; observers are told either way.
   */
  function OnTextChanged(f: Field, parse: string -> Option<real>): (c: Changed)
    ensures c.field.inputType == f.inputType && c.field.text == f.text && c.field.selection == f.selection
    ensures f.text.None? ==> c == Changed(f, None)
    ensures f.inputType.Picker? && f.text.Some? ==>
      if f.text.value == "" then c.field.value.None? && c.notified == Some(None) else c == Changed(f, None)
    ensures f.inputType.KeyboardInput? && f.text.Some? ==>
      && c.notified == Some(c.field.value)
      && (c.field.value.None? <==> parse(f.text.value).None?)
      && (c.field.value.Some? ==> c.field.value.value == Measurement(parse(f.text.value).value, f.inputType.unit))
  {
    match f.text
    case None => Changed(f, None)
    case Some(text) =>
      match f.inputType
      case Picker(_) =>
        if text == "" then Changed(f.(value := None), Some(None)) else Changed(f, None)
      case KeyboardInput(unit, _) =>
        match parse(text)
        case None => Changed(f.(value := None), Some(None))
        case Some(d) =>
          var v := Some(Measurement(d, unit));
          Changed(f.(value := v), Some(v))
  }

  // A row selection on the picker

  /** The picker's `columnPath`: `selectedRow(inComponent:)` per component, -1 for one without rows. */
  type SelectedRows = seq<int>

  /** Every selected row exists in its column, and there is a column for every component. */
  predicate RowsExist(selected: SelectedRows, columns: seq<PickerColumn>) {
    |selected| <= |columns| && forall j :: 0 <= j < |selected| ==> 0 <= selected[j] < |columns[j].rows|
  }

  /** The selected rows as a path, once none of them is -1. */
  function AsPath(selected: SelectedRows): (path: ColumnPath)
    requires forall j :: 0 <= j < |selected| ==> 0 <= selected[j]
    ensures |path| == |selected| && forall j :: 0 <= j < |path| ==> path[j] == selected[j]
  {
    seq(|selected|, j requires 0 <= j < |selected| => selected[j] as nat)
  }

  /**
   * `pickerView(_:didSelectRow:inComponent:)`. Outside picker mode a debug
   * build fails its assertion and a release build does nothing. In picker
   * mode reading a selected row that does not exist traps, which `None`
   * stands for; otherwise the text shows the selection, the value becomes
   * what the selected rows add up to, and observers are told that value.
   */
  function PickerSelected(f: Field, selected: SelectedRows, describe: Measurement -> string, debug: bool): (r: Option<Changed>)
    ensures f.inputType.KeyboardInput? ==> (r.None? <==> debug) && (r.Some? ==> r.value == Changed(f, None))
    ensures f.inputType.Picker? ==> (r.None? <==> !RowsExist(selected, f.inputType.columns))
    ensures f.inputType.Picker? && r.Some? ==>
      var columns := f.inputType.columns;
      var path := AsPath(selected);
      && r.value.field.inputType == f.inputType
      && r.value.field.selection == Some(path)
      && r.value.field.text == Some(ShowValue(path, columns, describe))
      && r.value.field.value == ValueAt(path, columns)
      && r.value.notified == Some(r.value.field.value)
      && (r.value.field.value.None? <==> |selected| == 0)
      && (r.value.field.value.Some? ==> BaseValue(r.value.field.value.value) == PartialSum(columns, path, |path|))
  {
    match f.inputType
    case KeyboardInput(_, _) => if debug then None else Some(Changed(f, None))
    case Picker(columns) =>
      if !RowsExist(selected, columns) then None
      else
        var path := AsPath(selected);
        var v := ValueAt(path, columns);
        Some(Changed(f.(text := Some(ShowValue(path, columns, describe)), value := v, selection := Some(path)), Some(v)))
  }

  // The keyboard edit gate

  /**
   * An `NSRange`: `length` positions starting at `location`. Foundation
   * counts UTF-16 code units; here a position is one `char` of the text.
   */
  datatype TextRange = TextRange(location: nat, length: nat)

  /** `replacingCharacters(in:with:)`: `range` of `text` replaced by `replacement`. */
  function Splice(text: string, range: TextRange, replacement: string): (r: string)
    requires range.location + range.length <= |text|
    ensures |r| == |text| - range.length + |replacement|
  {
    text[..range.location] + replacement + text[range.location + range.length..]
  }

  /** Splicing the removed characters back over the replacement restores the original text. */
  lemma SpliceUndo(text: string, range: TextRange, replacement: string)
    requires range.location + range.length <= |text|
    ensures var edited := Splice(text, range, replacement);
      Splice(edited, TextRange(range.location, |replacement|), text[range.location..range.location + range.length]) == text
  {
    var edited := Splice(text, range, replacement);
    var l := range.location;
    assert edited[..l] == text[..l];
    assert edited[l + |replacement|..] == text[l + range.length..];
    assert text[..l] + text[l..l + range.length] + text[l + range.length..] == text;
  }

  /**
   * `textField(_:shouldChangeCharactersIn:replacementString:)`: a picker
   * takes no typed edits; a keyboard takes an edit exactly when the text it
   * would produce parses as a number or is empty.
   */
  function ShouldChangeCharacters(f: Field, range: TextRange, replacement: string, parse: string -> Option<real>): (accept: bool)
    requires f.inputType.KeyboardInput? && f.text.Some? ==> range.location + range.length <= |f.text.value|
    ensures f.inputType.Picker? ==> !accept
    ensures f.text.None? ==> !accept
    ensures accept ==> var edited := Splice(f.text.value, range, replacement); parse(edited).Some? || edited == ""
    ensures f.inputType.KeyboardInput? && f.text.Some? && parse(Splice(f.text.value, range, replacement)).Some? ==> accept
    ensures f.inputType.KeyboardInput? && f.text.Some? && Splice(f.text.value, range, replacement) == "" ==> accept
  {
    match f.inputType
    case Picker(_) => false
    case KeyboardInput(_, _) =>
      match f.text
      case None => false
      case Some(text) =>
        var edited := Splice(text, range, replacement);
        parse(edited).Some? || |edited| == 0
  }

  /**
   * A typed edit as the text field processes it: asked through the gate,
   * applied only when accepted, followed by the change handler.
   */
  function UserEdit(f: Field, range: TextRange, replacement: string, parse: string -> Option<real>): (c: Changed)
    requires f.inputType.KeyboardInput? && f.text.Some? ==> range.location + range.length <= |f.text.value|
    ensures c.field.inputType == f.inputType
    ensures !ShouldChangeCharacters(f, range, replacement, parse) ==> c == Changed(f, None)
  {
    if ShouldChangeCharacters(f, range, replacement, parse) then
      OnTextChanged(f.(text := Some(Splice(f.text.value, range, replacement))), parse)
    else Changed(f, None)
  }

  /** A keyboard control whose value is what its text parses to, and whose text is empty or a number. */
  ghost predicate InSync(f: Field, parse: string -> Option<real>) {
    && f.inputType.KeyboardInput?
    && f.text.Some?
    && (f.text.value == "" || parse(f.text.value).Some?)
    && f.value == (match parse(f.text.value)
                   case None => None
                   case Some(d) => Some(Measurement(d, f.inputType.unit)))
  }

  /** Typed edits keep a keyboard control in sync, and an accepted one notifies with the new value. */
  lemma UserEditKeepsSync(f: Field, range: TextRange, replacement: string, parse: string -> Option<real>)
    requires InSync(f, parse) && range.location + range.length <= |f.text.value|
    ensures InSync(UserEdit(f, range, replacement, parse).field, parse)
    ensures ShouldChangeCharacters(f, range, replacement, parse) ==>
      UserEdit(f, range, replacement, parse).notified == Some(UserEdit(f, range, replacement, parse).field.value)
  {
  }

  /**
   * Setting a value in keyboard mode writes text that, if it were then
   * handled as an edit, would give back the value, converted to the
   * keyboard's unit, whenever parsing undoes formatting for that amount.
   * Assigning `text` in code sends no editing event, so the control itself
   * never runs the handler after the setter; the lemma says the shown text
   * and the stored value agree.
   */
  lemma SetThenTextChange(f: Field, m: Measurement, rounding: Rounding, fmt: Formatters)
    requires f.inputType.KeyboardInput?
    requires var x := Converted(m, f.inputType.unit).value;
      fmt.format(x).Some? && fmt.parse(fmt.format(x).value) == Some(x)
    ensures SetValue(f, Some(m), rounding, fmt).Some?
    ensures var c := OnTextChanged(SetValue(f, Some(m), rounding, fmt).value, fmt.parse);
      && c.field.value == Some(Converted(m, f.inputType.unit))
      && BaseValue(c.field.value.value) == BaseValue(m)
      && c.notified == Some(c.field.value)
  {
  }

  /** In picker mode a text change never produces a value: it keeps or clears the current one. */
  lemma PickerTextChangeNeverSets(f: Field, parse: string -> Option<real>)
    requires f.inputType.Picker?
    ensures OnTextChanged(f, parse).field.value == f.value || OnTextChanged(f, parse).field.value.None?
  {
  }
}
