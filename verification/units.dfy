/**
 * Foundation's `Dimension`, `Unit` and `Measurement`, reduced to what the
 * picker engine uses: every unit is a positive linear factor to the base unit
 * of its dimension, and conversion goes through that base unit.
 * Values are exact reals in place of IEEE doubles.
 */
module Units {

  /** A conversion coefficient to the dimension's base unit. */
  type Factor = r: real | 0.0 < r witness 1.0

  /** A kind of quantity (length, angle, ...) and the symbol of its base unit. */
  datatype Dimension = Dimension(name: string, baseSymbol: string)

  datatype Unit = Unit(dimension: Dimension, symbol: string, factor: Factor)

  datatype Measurement = Measurement(value: real, unit: Unit)

  /** The unit of `d` whose factor is 1. */
  function BaseUnit(d: Dimension): (u: Unit)
    ensures u.dimension == d && u.factor == 1.0
  {
    Unit(d, d.baseSymbol, 1.0)
  }

  /** The amount of `m` expressed in its dimension's base unit. */
  function BaseValue(m: Measurement): real {
    m.value * m.unit.factor
  }

  /** `Measurement.converted(to:)`: the same amount, expressed in `u`. */
  function Converted(m: Measurement, u: Unit): (r: Measurement)
    ensures r.unit == u
    ensures BaseValue(r) == BaseValue(m)
  {
    Measurement(m.value * m.unit.factor / u.factor, u)
  }

  /**
   * Measurement addition: two amounts in the same unit stay in that unit;
   * otherwise both are brought to the base unit and the sum is stated there.
   */
  function Plus(a: Measurement, b: Measurement): (r: Measurement)
    ensures BaseValue(r) == BaseValue(a) + BaseValue(b)
    ensures a.unit == b.unit ==> r.unit == a.unit
    ensures a.unit != b.unit ==> r.unit == BaseUnit(a.unit.dimension)
  {
    if a.unit == b.unit then Measurement(a.value + b.value, a.unit)
    else Measurement(BaseValue(a) + BaseValue(b), BaseUnit(a.unit.dimension))
  }

  /** Measurement subtraction, with the same unit rule as `Plus`. */
  function Minus(a: Measurement, b: Measurement): (r: Measurement)
    ensures BaseValue(r) == BaseValue(a) - BaseValue(b)
    ensures a.unit == b.unit ==> r.unit == a.unit
    ensures a.unit != b.unit ==> r.unit == BaseUnit(a.unit.dimension)
  {
    if a.unit == b.unit then Measurement(a.value - b.value, a.unit)
    else Measurement(BaseValue(a) - BaseValue(b), BaseUnit(a.unit.dimension))
  }

  /** Division by a positive factor is the inverse of multiplication by it. */
  lemma DivideExactly(a: real, s: real, q: real)
    requires 0.0 < s
    ensures a / s == q <==> q * s == a
  {
    var d := a / s;
    assert d * s == a;
    if q * s == a {
      assert (d - q) * s == 0.0;
    }
  }

  /** Converting to another unit and back gives the original measurement exactly. */
  lemma ConvertRoundTrip(m: Measurement, u: Unit)
    ensures Converted(Converted(m, u), m.unit) == m
  {
    var f := m.unit.factor;
    var g := u.factor;
    calc {
      m.value * f / g * g / f;
      { assert m.value * f / g * g == m.value * f; }
      m.value * f / f;
      m.value;
    }
  }

  // Fixture units, with Foundation's coefficients.

  const Length := Dimension("length", "m")
  const Angle := Dimension("angle", "deg")

  const Meters := BaseUnit(Length)
  const Feet := Unit(Length, "ft", 0.3048)
  const Inches := Unit(Length, "in", 0.0254)

  const Degrees := BaseUnit(Angle)
  const ArcMinutes := Unit(Angle, "arcmin", 1.0 / 60.0)
  const ArcSeconds := Unit(Angle, "arcsec", 1.0 / 3600.0)
}
