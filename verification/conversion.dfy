/**
 * The two conversion algorithms of the engine and the dispatch between them:
 * linear categories scale through their base unit, temperature is converted
 * by the Celsius/Fahrenheit formulas. Values are exact reals.
 *
 * Every operation takes the table it reads as its first argument; the engine
 * itself always passes `ConversionFactors()`.
 */
module Conversion {
  import opened Wrappers
  import opened UnitTable

  /**
   * `unit_options`: for "Temperatura" its list of units, for any other category
   * the keys of its factor dictionary, in order; None where the lookup raises KeyError.
   */
  function UnitOptions(t: Table, category: string): (r: Option<seq<string>>)
    requires WellFormedTable(t)
    ensures r.Some? <==> category in Keys(t)
    ensures r.Some? ==> |r.value| >= 2 && NoDuplicates(r.value)
    ensures category == "Temperatura" && r.Some? ==> r.value == ["°C", "°F"]
    ensures category != "Temperatura" && r.Some? ==>
      var c := Lookup(t, category).value;
      c.Linear? && |r.value| == |c.factors| && forall i :: 0 <= i < |r.value| ==> r.value[i] == c.factors[i].0
    ensures category != "Temperatura" && r.Some? ==>
      forall u :: u in r.value <==> Lookup(Lookup(t, category).value.factors, u).Some?
  {
    match Lookup<Category>(t, category)
    case None => None
    case Some(c) =>
      CategoryWellFormed(t, category);
      if category == "Temperatura" then Some(c.units) else Some(Keys(c.factors))
  }

  /** Whichever category a lookup finds in a well-formed table satisfies the table's invariant. */
  lemma CategoryWellFormed(t: Table, category: string)
    requires WellFormedTable(t)
    requires Lookup(t, category).Some?
    ensures WellFormedCategory(category, Lookup(t, category).value)
  {
    var i :| 0 <= i < |t| && t[i] == (category, Lookup(t, category).value);
    assert WellFormedCategory(t[i].0, t[i].1);
  }

  /** Every factor of a linear category of a well-formed table is strictly positive. */
  lemma FactorPositive(t: Table, category: string, unit: string)
    requires WellFormedTable(t)
    requires Lookup(t, category).Some? && Lookup(t, category).value.Linear?
    requires Lookup(Lookup(t, category).value.factors, unit).Some?
    ensures Lookup(Lookup(t, category).value.factors, unit).value > 0.0
  {
    CategoryWellFormed(t, category);
    var factors := Lookup(t, category).value.factors;
    var k :| 0 <= k < |factors| && factors[k] == (unit, Lookup(factors, unit).value);
  }

  /**
   * `convert_general`: the value times the source unit's factor, divided by the
   * target unit's factor. Every failure of the source's `try` block gives 0.0:
   * a missing category or unit (KeyError), a category whose units are a list
   * rather than a factor dictionary (TypeError), a zero factor (ZeroDivisionError).
   */
  function ConvertGeneral(t: Table, value: real, category: string, fromUnit: string, toUnit: string): real
  {
    var entry := Lookup(t, category);
    if entry.None? || entry.value.Affine? then 0.0
    else
      var fromFactor := Lookup(entry.value.factors, fromUnit);
      var toFactor := Lookup(entry.value.factors, toUnit);
      if fromFactor.None? || toFactor.None? || toFactor.value == 0.0 then 0.0
      else ThroughBase(value, fromFactor.value, toFactor.value)
  }

  /** The value in base units (`value * factors[from_unit]`), then in the target unit (divided by `factors[to_unit]`). */
  function ThroughBase(value: real, fromFactor: real, toFactor: real): real
    requires toFactor != 0.0
  {
    var baseValue := value * fromFactor;
    baseValue / toFactor
  }

  /** Both units belong to the linear category `category`, so `convert_general` reaches its division. */
  predicate LinearUnits(t: Table, category: string, fromUnit: string, toUnit: string) {
    Lookup(t, category).Some? && Lookup(t, category).value.Linear?
    && Lookup(Lookup(t, category).value.factors, fromUnit).Some?
    && Lookup(Lookup(t, category).value.factors, toUnit).Some?
  }

  /** The factor of `unit` in the linear category `category`. */
  function Factor(t: Table, category: string, unit: string): real
    requires LinearUnits(t, category, unit, unit)
  {
    Lookup(Lookup(t, category).value.factors, unit).value
  }

  /** Between two units of a linear category the conversion is the value scaled by the ratio of their factors. */
  lemma ConvertGeneralIsRatio(t: Table, value: real, category: string, a: string, b: string)
    requires WellFormedTable(t)
    requires LinearUnits(t, category, a, b)
    ensures Factor(t, category, a) > 0.0 && Factor(t, category, b) > 0.0
    ensures ConvertGeneral(t, value, category, a, b) == ThroughBase(value, Factor(t, category, a), Factor(t, category, b))
  {
    FactorPositive(t, category, a);
    FactorPositive(t, category, b);
  }

  /** Converting a value of a linear category to its own unit gives the value back exactly. */
  lemma ConvertGeneralIdentity(t: Table, value: real, category: string, unit: string)
    requires WellFormedTable(t)
    requires LinearUnits(t, category, unit, unit)
    ensures ConvertGeneral(t, value, category, unit, unit) == value
  {
    ConvertGeneralIsRatio(t, value, category, unit, unit);
    ThroughBaseSameFactor(value, Factor(t, category, unit));
  }

  /** Converting there and back between two units of a linear category gives the value back exactly. */
  lemma ConvertGeneralRoundTrip(t: Table, value: real, category: string, a: string, b: string)
    requires WellFormedTable(t)
    requires LinearUnits(t, category, a, b)
    ensures ConvertGeneral(t, ConvertGeneral(t, value, category, a, b), category, b, a) == value
  {
    var there := ConvertGeneral(t, value, category, a, b);
    ConvertGeneralIsRatio(t, value, category, a, b);
    ConvertGeneralIsRatio(t, there, category, b, a);
    ThroughBaseChain(value, Factor(t, category, a), Factor(t, category, b), Factor(t, category, a));
    ThroughBaseSameFactor(value, Factor(t, category, a));
  }

  /** Converting a to b and then b to c is the same as converting a to c directly. */
  lemma ConvertGeneralCompose(t: Table, value: real, category: string, a: string, b: string, c: string)
    requires WellFormedTable(t)
    requires LinearUnits(t, category, a, b) && LinearUnits(t, category, b, c)
    ensures ConvertGeneral(t, ConvertGeneral(t, value, category, a, b), category, b, c)
            == ConvertGeneral(t, value, category, a, c)
  {
    var there := ConvertGeneral(t, value, category, a, b);
    ConvertGeneralIsRatio(t, value, category, a, b);
    ConvertGeneralIsRatio(t, there, category, b, c);
    ConvertGeneralIsRatio(t, value, category, a, c);
    ThroughBaseChain(value, Factor(t, category, a), Factor(t, category, b), Factor(t, category, c));
  }

  /**
   * Where the category is missing, is the temperature category (its units are a
   * list, not a factor dictionary), or lacks either unit, the result is 0.0.
   */
  lemma ConvertGeneralFallback(t: Table, value: real, category: string, a: string, b: string)
    requires !LinearUnits(t, category, a, b)
    ensures ConvertGeneral(t, value, category, a, b) == 0.0
  {
  }

  /**
   * The result is 0.0 exactly when the input is 0.0 or the lookup fails: a missing
   * category, the temperature category, or a unit missing from the category.
   */
  lemma ConvertGeneralZero(t: Table, value: real, category: string, a: string, b: string)
    requires WellFormedTable(t)
    ensures ConvertGeneral(t, value, category, a, b) == 0.0 <==> value == 0.0 || !LinearUnits(t, category, a, b)
  {
    if LinearUnits(t, category, a, b) {
      ConvertGeneralIsRatio(t, value, category, a, b);
      ThroughBaseZero(value, Factor(t, category, a), Factor(t, category, b));
    }
  }

  /**
   * `convert_temperature`: equal units give the value back untouched; otherwise
   * the value is brought to Celsius and then to the target. Any unit other than
   * "°C" is read as Fahrenheit, on either side.
   */
  function ConvertTemperature(value: real, fromUnit: string, toUnit: string): real
  {
    if fromUnit == toUnit then value
    else
      var celsius := if fromUnit == "°C" then value else (value - 32.0) * 5.0 / 9.0;
      if toUnit == "°C" then celsius else celsius * 9.0 / 5.0 + 32.0
  }

  /** The unit `convert_temperature` takes a name for: Celsius for "°C", Fahrenheit for anything else. */
  function ReadAsTemperatureUnit(unit: string): (r: string)
    ensures r == "°C" || r == "°F"
    ensures r == "°C" <==> unit == "°C"
  {
    if unit == "°C" then "°C" else "°F"
  }

  lemma ConvertTemperatureIdentity(value: real, unit: string)
    ensures ConvertTemperature(value, unit, unit) == value
  {
  }

  /** Freezing and boiling points of water, and the point where both scales agree. */
  lemma ConvertTemperatureFixedPoints()
    ensures ConvertTemperature(0.0, "°C", "°F") == 32.0
    ensures ConvertTemperature(32.0, "°F", "°C") == 0.0
    ensures ConvertTemperature(100.0, "°C", "°F") == 212.0
    ensures ConvertTemperature(212.0, "°F", "°C") == 100.0
    ensures ConvertTemperature(-40.0, "°C", "°F") == -40.0
  {
  }

  /** Converting there and back gives the value back exactly, whatever the two unit names. */
  lemma ConvertTemperatureRoundTrip(value: real, a: string, b: string)
    ensures ConvertTemperature(ConvertTemperature(value, a, b), b, a) == value
  {
    if a != b {
      if a == "°C" {
        CelsiusFahrenheitCelsius(value);
      } else if b == "°C" {
        FahrenheitCelsiusFahrenheit(value);
      } else {
        FahrenheitCelsiusFahrenheit(value);
        FahrenheitCelsiusFahrenheit(ConvertTemperature(value, a, b));
      }
    }
  }

  /** A unit name other than "°C" behaves exactly as "°F". */
  lemma ConvertTemperatureReadsUnknownAsFahrenheit(value: real, a: string, b: string)
    ensures ConvertTemperature(value, a, b) == ConvertTemperature(value, ReadAsTemperatureUnit(a), ReadAsTemperatureUnit(b))
  {
    if a != b && a != "°C" && b != "°C" {
      FahrenheitCelsiusFahrenheit(value);
    }
  }

  /** Between any two units the conversion is strictly increasing in the value. */
  lemma ConvertTemperatureMonotonic(v: real, w: real, a: string, b: string)
    ensures v < w <==> ConvertTemperature(v, a, b) < ConvertTemperature(w, a, b)
  {
    if a != b && a != "°C" && b != "°C" {
      FahrenheitCelsiusFahrenheit(v);
      FahrenheitCelsiusFahrenheit(w);
    }
  }

  /** The dispatch of the page: temperature by its formulas, every other category through the factor table. */
  function Convert(t: Table, category: string, value: real, fromUnit: string, toUnit: string): real
  {
    if category == "Temperatura" then ConvertTemperature(value, fromUnit, toUnit)
    else ConvertGeneral(t, value, category, fromUnit, toUnit)
  }

  /** For every category of the table and every unit it offers, converting a unit to itself changes nothing. */
  lemma ConvertIdentity(t: Table, category: string, value: real, unit: string)
    requires WellFormedTable(t)
    requires UnitOptions(t, category).Some? && unit in UnitOptions(t, category).value
    ensures Convert(t, category, value, unit, unit) == value
  {
    if category != "Temperatura" {
      OfferedUnitsAreLinear(t, category, unit, unit);
      ConvertGeneralIdentity(t, value, category, unit);
    }
  }

  /** For every category of the table and any two units it offers, converting there and back changes nothing. */
  lemma ConvertRoundTrip(t: Table, category: string, value: real, a: string, b: string)
    requires WellFormedTable(t)
    requires UnitOptions(t, category).Some? && a in UnitOptions(t, category).value && b in UnitOptions(t, category).value
    ensures Convert(t, category, Convert(t, category, value, a, b), b, a) == value
  {
    if category == "Temperatura" {
      ConvertTemperatureRoundTrip(value, a, b);
    } else {
      OfferedUnitsAreLinear(t, category, a, b);
      ConvertGeneralRoundTrip(t, value, category, a, b);
    }
  }

  /** Outside temperature, the units a category offers are units of a linear category. */
  lemma OfferedUnitsAreLinear(t: Table, category: string, a: string, b: string)
    requires WellFormedTable(t)
    requires category != "Temperatura"
    requires UnitOptions(t, category).Some? && a in UnitOptions(t, category).value && b in UnitOptions(t, category).value
    ensures LinearUnits(t, category, a, b)
  {
    CategoryWellFormed(t, category);
  }

  /** `default_idx`: the second offered unit when there is one, else the first. */
  function DefaultTargetIndex(options: seq<string>): (i: nat)
    ensures |options| > 0 ==> i < |options|
    ensures |options| > 1 ==> options[i] == options[1]
    ensures |options| <= 1 ==> i == 0
  {
    if |options| > 1 then 1 else 0
  }

  /** On every category the form opens with different source and target units. */
  lemma DefaultTargetDiffersFromSource(t: Table, category: string)
    requires WellFormedTable(t)
    requires UnitOptions(t, category).Some?
    ensures var options := UnitOptions(t, category).value;
      DefaultTargetIndex(options) < |options| && options[DefaultTargetIndex(options)] == options[1]
      && options[DefaultTargetIndex(options)] != options[0]
  {
  }

  // Conversions on the engine's own table.

  lemma LengthExample()
    ensures Convert(ConversionFactors(), "Longitud", 1.0, "ft", "m") == 0.3048
  {
    LongitudEntry();
    LengthFactors();
  }

  lemma LengthIdentityExample()
    ensures Convert(ConversionFactors(), "Longitud", 10.0, "mm", "mm") == 10.0
  {
    LongitudEntry();
    LengthFactors();
  }

  lemma UnknownUnitExample()
    ensures Convert(ConversionFactors(), "Longitud", 5.0, "yd", "m") == 0.0
  {
    LongitudEntry();
  }

  lemma TemperatureExample()
    ensures Convert(ConversionFactors(), "Temperatura", 0.0, "°C", "°F") == 32.0
  {
  }

  /** Sent to the linear conversion, temperature would fall back to 0.0: its units are a list, not factors. */
  lemma TemperatureNotLinearExample()
    ensures ConvertGeneral(ConversionFactors(), 25.0, "Temperatura", "°C", "°F") == 0.0
  {
    LookupFindsFirst(ConversionFactors(), "Temperatura", 9);
  }

  // Converting Celsius to Fahrenheit and back, and the reverse, over exact reals.

  lemma CelsiusFahrenheitCelsius(v: real)
    ensures ((v * 9.0 / 5.0 + 32.0) - 32.0) * 5.0 / 9.0 == v
  {
  }

  lemma FahrenheitCelsiusFahrenheit(v: real)
    ensures (v - 32.0) * 5.0 / 9.0 * 9.0 / 5.0 + 32.0 == v
  {
  }

  // Facts of real arithmetic about going through the base unit, kept apart from
  // the table so that the solver sees only them.

  lemma ThroughBaseSameFactor(v: real, f: real)
    requires f != 0.0
    ensures ThroughBase(v, f, f) == v
  {
  }

  lemma ThroughBaseChain(v: real, fa: real, fb: real, fc: real)
    requires fb != 0.0 && fc != 0.0
    ensures ThroughBase(ThroughBase(v, fa, fb), fb, fc) == ThroughBase(v, fa, fc)
  {
    assert v * fa / fb * fb == v * fa;
  }

  lemma ThroughBaseZero(v: real, fa: real, fb: real)
    requires fa > 0.0 && fb > 0.0
    ensures ThroughBase(v, fa, fb) == 0.0 <==> v == 0.0
  {
  }
}
