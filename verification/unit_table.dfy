/**
 * The conversion table of the engine: a constant, ordered dictionary from a
 * category name to either a linear category (a base unit and the factor of each
 * unit, "1 unit = factor x base") or the one affine category, temperature,
 * which lists its two units only.
 *
 * Python dictionaries keep insertion order, and that order decides the order
 * of the category and unit choices, so dictionaries are modelled as ordered
 * association lists with distinct keys.
 */
module UnitTable {
  import opened Wrappers

  datatype Category =
    | Linear(baseUnit: string, factors: seq<(string, real)>)
    | Affine(units: seq<string>)

  type Table = seq<(string, Category)>

  /** The keys of an association list, in order (`list(d.keys())`). */
  function Keys<V>(entries: seq<(string, V)>): (ks: seq<string>)
    ensures |ks| == |entries|
    ensures forall i :: 0 <= i < |entries| ==> ks[i] == entries[i].0
  {
    seq(|entries|, i requires 0 <= i < |entries| => entries[i].0)
  }

  /** `d[key]`: the value stored under `key`, or None where Python raises KeyError. */
  function Lookup<V>(entries: seq<(string, V)>, key: string): (r: Option<V>)
    ensures r.None? <==> key !in Keys(entries)
    ensures r.Some? ==> (key, r.value) in entries
  {
    if entries == [] then None
    else if entries[0].0 == key then Some(entries[0].1)
    else Lookup(entries[1..], key)
  }

  predicate NoDuplicates(names: seq<string>) {
    forall i, j :: 0 <= i < j < |names| ==> names[i] != names[j]
  }

  /** Every factor is strictly positive, and the base unit is the only unit worth exactly 1.0 base. */
  predicate ScaledToBase(baseUnit: string, factors: seq<(string, real)>) {
    forall i :: 0 <= i < |factors| ==> factors[i].1 > 0.0 && (factors[i].1 == 1.0 <==> factors[i].0 == baseUnit)
  }

  predicate WellFormedCategory(name: string, c: Category) {
    match c
    case Linear(baseUnit, factors) =>
      name != "Temperatura" && |factors| >= 2 && NoDuplicates(Keys(factors)) && ScaledToBase(baseUnit, factors)
      && Lookup(factors, baseUnit) == Some(1.0)
    case Affine(units) =>
      name == "Temperatura" && units == ["°C", "°F"]
  }

  predicate WellFormedTable(t: Table) {
    NoDuplicates(Keys(t)) && forall i :: 0 <= i < |t| ==> WellFormedCategory(t[i].0, t[i].1)
  }

  /** A key present in a list without duplicate keys is found with the value stored beside it. */
  lemma {:induction false} LookupFindsEntry<V>(entries: seq<(string, V)>, key: string, value: V)
    requires NoDuplicates(Keys(entries))
    requires (key, value) in entries
    ensures Lookup(entries, key) == Some(value)
  {
    if entries[0] != (key, value) {
      assert entries[0].0 != key by {
        var k :| 0 <= k < |entries| && entries[k] == (key, value);
        assert Keys(entries)[0] != Keys(entries)[k];
      }
      assert Keys(entries[1..]) == Keys(entries)[1..];
      LookupFindsEntry(entries[1..], key, value);
    }
  }

  /** The lookup finds the first entry whose key matches. */
  lemma {:induction false} LookupFindsFirst<V>(entries: seq<(string, V)>, key: string, i: nat)
    requires i < |entries| && entries[i].0 == key
    requires forall j :: 0 <= j < i ==> entries[j].0 != key
    ensures Lookup(entries, key) == Some(entries[i].1)
  {
    if i > 0 {
      LookupFindsFirst(entries[1..], key, i - 1);
    }
  }

  // The entries of `CONVERSION_FACTORS`, one function each, every factor as `app.py` writes it
  // (`1/3600` is the exact quotient; Python's float of it is not modelled).

  function Flow(): Category
  {
    Linear("m³/seg", [("m³/seg", 1.0), ("CFM", 0.0004719), ("m³/hr", 1.0 / 3600.0), ("l/seg", 0.001), ("l/min", 0.00001667)])
  }

  function Volume(): Category
  {
    Linear("m³", [("m³", 1.0), ("ft³", 0.028317), ("in³", 0.00001639), ("Litros (l)", 0.001)])
  }

  function Speed(): Category
  {
    Linear("m/seg", [("m/seg", 1.0), ("fpm", 0.00508), ("m/min", 0.0166667), ("fps", 0.3048)])
  }

  function Pressure(): Category
  {
    Linear("Pa", [("Pa", 1.0), ("in H₂O", 248.84), ("in Hg", 3386.4), ("mm H₂O", 9.80665),
                  ("mm Hg", 133.32), ("psi", 6894.76), ("atm", 101325.0)])
  }

  function Area(): Category
  {
    Linear("m²", [("m²", 1.0), ("ft²", 0.092903), ("in²", 0.00064516), ("mm²", 0.000001)])
  }

  function Density(): Category
  {
    Linear("kg/m³", [("kg/m³", 1.0), ("lb/ft³", 16.0185)])
  }

  function Length(): Category
  {
    Linear("m", [("m", 1.0), ("ft", 0.3048), ("in", 0.0254), ("mm", 0.001)])
  }

  function Weight(): Category
  {
    Linear("kg", [("kg", 1.0), ("lb", 0.45359), ("oz", 0.0283495), ("gramos", 0.001)])
  }

  function Power(): Category
  {
    Linear("W", [("W", 1.0), ("kW", 1000.0), ("HP", 745.7)])
  }

  function Temperature(): Category
  {
    Affine(["°C", "°F"])
  }

  /** The category names of `CONVERSION_FACTORS`, in the source's order. */
  const CATEGORY_NAMES := ["Caudal (Flow)", "Volumen", "Velocidad", "Presión", "Area",
                           "Densidad", "Longitud", "Peso", "Potencia", "Temperatura"]

  /** `CONVERSION_FACTORS`: the ten categories in the source's order. */
  function ConversionFactors(): Table
  {
    [("Caudal (Flow)", Flow()), ("Volumen", Volume()), ("Velocidad", Speed()), ("Presión", Pressure()),
     ("Area", Area()), ("Densidad", Density()), ("Longitud", Length()), ("Peso", Weight()),
     ("Potencia", Power()), ("Temperatura", Temperature())]
  }

  // Each entry satisfies the category invariant: a linear category lists at least two
  // distinct units with positive factors and its base unit alone at 1.0; temperature
  // lists "°C" and "°F".

  lemma FlowWellFormed() ensures WellFormedCategory("Caudal (Flow)", Flow()) {}
  lemma VolumeWellFormed() ensures WellFormedCategory("Volumen", Volume()) {}
  lemma SpeedWellFormed() ensures WellFormedCategory("Velocidad", Speed()) {}
  lemma PressureWellFormed() ensures WellFormedCategory("Presión", Pressure()) {}
  lemma AreaWellFormed() ensures WellFormedCategory("Area", Area()) {}
  lemma DensityWellFormed() ensures WellFormedCategory("Densidad", Density()) {}
  lemma LengthWellFormed() ensures WellFormedCategory("Longitud", Length()) {}
  lemma WeightWellFormed() ensures WellFormedCategory("Peso", Weight()) {}
  lemma PowerWellFormed() ensures WellFormedCategory("Potencia", Power()) {}
  lemma TemperatureWellFormed() ensures WellFormedCategory("Temperatura", Temperature()) {}

  lemma ConversionFactorsKeys()
    ensures Keys(ConversionFactors()) == CATEGORY_NAMES
    ensures NoDuplicates(CATEGORY_NAMES)
  {
  }

  /** The table has ten distinct category names, in the source's order, and every category is well formed. */
  lemma ConversionFactorsWellFormed()
    ensures WellFormedTable(ConversionFactors())
    ensures Keys(ConversionFactors()) == CATEGORY_NAMES
  {
    ConversionFactorsKeys();
    FlowWellFormed();
    VolumeWellFormed();
    SpeedWellFormed();
    PressureWellFormed();
    AreaWellFormed();
    DensityWellFormed();
    LengthWellFormed();
    WeightWellFormed();
    PowerWellFormed();
    TemperatureWellFormed();
  }

  // Lookups in the table, for the worked examples of the conversions.

  lemma LongitudEntry()
    ensures Lookup(ConversionFactors(), "Longitud") == Some(Length())
  {
    LookupFindsFirst(ConversionFactors(), "Longitud", 6);
  }

  lemma LengthFactors()
    ensures Lookup(Length().factors, "m") == Some(1.0)
    ensures Lookup(Length().factors, "ft") == Some(0.3048)
    ensures Lookup(Length().factors, "mm") == Some(0.001)
  {
    LookupFindsFirst(Length().factors, "ft", 1);
    LookupFindsFirst(Length().factors, "mm", 3);
  }
}
