# Master Unit Converter: conversion engine

This project models the engine behind the Master Unit Converter page (`app.py`).
The page has three parts:

- a constant table, `CONVERSION_FACTORS`, holding ten measurement categories;
- two conversion algorithms:
  - linear categories go through the base unit (`convert_general`);
  - temperature goes through Celsius (`convert_temperature`);
- one display formatter, `format_clean_number`. It prints a result with at most four decimals, a ',' between thousands, and no trailing zeros.

The page also derives some values from the table:

- the units offered for a category;
- the unit preselected as the target;
- which of the two algorithms runs.

Everything is pure computation. The model has four modules, all values and functions:

- `UnitTable` (`unit_table.dfy`) models the table. Python dictionaries keep insertion order, and that order decides what the page offers. So each dictionary is an ordered association list with distinct keys. A missing key is `None` where Python raises `KeyError`.
- `Conversion` (`conversion.dfy`) holds the two algorithms, the dispatch, the unit options and the default target.
  - `ConvertGeneral`, `Convert` and `UnitOptions` take the table as a parameter; the page always passes `ConversionFactors()`. `ConvertTemperature` and `DefaultTargetIndex` read no table.
  - The properties of the table-reading members are proved for every well-formed table. The engine's own table is proved well formed.
- `NumberFormat` (`number_format.dfy`) models the formatter in two steps.
  - `Round4` rounds to ten-thousandths, ties to even, keeping the sign.
  - `FormatFixed` lays the rounded value out as `"{:,.4f}"` would, then strips it with `.rstrip('0').rstrip('.')`.
  - Its partner is `ParseDisplay`, a reader of displays. Every display reads back as exactly the rounded value.
- `Wrappers` (`wrappers.dfy`) holds the `Option` type.

Numbers are exact reals. All multiplications and divisions in the conversions are exact, so round trips hold exactly.

## Model

| member | source | states |
|---|---|---|
| `UnitTable.Keys` | app.py:222 | `list(d.keys())`: as many keys as entries, each the key of the entry at the same position |
| `UnitTable.Lookup` | app.py:181-183 | `d[key]`: `None` exactly when the key is absent (Python's `KeyError`); otherwise the value is stored under that key |
| `UnitTable.LookupFindsEntry` | app.py:181-183 | in a list without duplicate keys, a key is found with the value stored beside it |
| `UnitTable.LookupFindsFirst` | app.py:181-183 | the lookup returns the value of the first entry with that key |
| `UnitTable.ConversionFactors` | app.py:95-146 | `CONVERSION_FACTORS` itself, the ten entries in the source's order; no contract of its own: `ConversionFactorsKeys` and `ConversionFactorsWellFormed` carry its properties |
| `UnitTable.Flow` | app.py:96-101 | the "Caudal (Flow)" entry, factors as written; no contract of its own: `FlowWellFormed` carries its properties |
| `UnitTable.Volume` | app.py:102-107 | the "Volumen" entry; no contract of its own: `VolumeWellFormed` carries its properties |
| `UnitTable.Speed` | app.py:108-113 | the "Velocidad" entry; no contract of its own: `SpeedWellFormed` carries its properties |
| `UnitTable.Pressure` | app.py:114-120 | the "Presión" entry; no contract of its own: `PressureWellFormed` carries its properties |
| `UnitTable.Area` | app.py:121-126 | the "Area" entry; no contract of its own: `AreaWellFormed` carries its properties |
| `UnitTable.Density` | app.py:127-130 | the "Densidad" entry; no contract of its own: `DensityWellFormed` carries its properties |
| `UnitTable.Length` | app.py:131-134 | the "Longitud" entry; no contract of its own: `LengthWellFormed` and `LengthFactors` carry its properties |
| `UnitTable.Weight` | app.py:135-138 | the "Peso" entry; no contract of its own: `WeightWellFormed` carries its properties |
| `UnitTable.Power` | app.py:139-142 | the "Potencia" entry; no contract of its own: `PowerWellFormed` carries its properties |
| `UnitTable.Temperature` | app.py:143-145 | the "Temperatura" entry, a list of units; no contract of its own: `TemperatureWellFormed` carries its properties |
| `UnitTable.FlowWellFormed` | app.py:96-101 | "Caudal (Flow)": five distinct units with positive factors; only the base unit "m³/seg" is worth 1.0 |
| `UnitTable.VolumeWellFormed` | app.py:102-107 | "Volumen": four distinct units with positive factors; only the base "m³" is worth 1.0 |
| `UnitTable.SpeedWellFormed` | app.py:108-113 | "Velocidad": four distinct units with positive factors; only the base "m/seg" is worth 1.0 |
| `UnitTable.PressureWellFormed` | app.py:114-120 | "Presión": seven distinct units with positive factors; only the base "Pa" is worth 1.0 |
| `UnitTable.AreaWellFormed` | app.py:121-126 | "Area": four distinct units with positive factors; only the base "m²" is worth 1.0 |
| `UnitTable.DensityWellFormed` | app.py:127-130 | "Densidad": two distinct units with positive factors; only the base "kg/m³" is worth 1.0 |
| `UnitTable.LengthWellFormed` | app.py:131-134 | "Longitud": four distinct units with positive factors; only the base "m" is worth 1.0 |
| `UnitTable.WeightWellFormed` | app.py:135-138 | "Peso": four distinct units with positive factors; only the base "kg" is worth 1.0 |
| `UnitTable.PowerWellFormed` | app.py:139-142 | "Potencia": three distinct units with positive factors; only the base "W" is worth 1.0 |
| `UnitTable.TemperatureWellFormed` | app.py:143-145 | "Temperatura" lists exactly "°C" and "°F", with no factors |
| `UnitTable.ConversionFactorsKeys` | app.py:95-146 | the category names are the ten names of the table, in its order, and all distinct |
| `UnitTable.ConversionFactorsWellFormed` | app.py:95-146 | the whole table satisfies the invariant: distinct category names, and every category well formed |
| `UnitTable.LongitudEntry` | app.py:131-134 | looking up "Longitud" finds the length category |
| `UnitTable.LengthFactors` | app.py:133 | the length factors of "m", "ft" and "mm" are 1.0, 0.3048 and 0.001 |
| `Conversion.UnitOptions` | app.py:219-222 | the offered units exist exactly for the table's categories. There are at least two, all distinct. For "Temperatura" they are "°C" and "°F". For any other category they are that category's units, as many as it has, in the order of its factor dictionary, and a name is offered exactly when the category has a factor for it |
| `Conversion.ConvertGeneral` | app.py:179-185 | `convert_general`; no contract of its own: `ConvertGeneralIsRatio`, `ConvertGeneralFallback`, `ConvertGeneralZero`, `ConvertGeneralIdentity`, `ConvertGeneralRoundTrip` and `ConvertGeneralCompose` carry its properties |
| `Conversion.FactorPositive` | app.py:95-146 | every factor `convert_general` can read is strictly positive, so its division never fails on a well-formed table |
| `Conversion.ConvertGeneralIsRatio` | app.py:179-183 | between two units of a linear category the result is the value times the source factor, divided by the target factor |
| `Conversion.ConvertGeneralIdentity` | app.py:179-183 | converting to the same unit gives the value back |
| `Conversion.ConvertGeneralRoundTrip` | app.py:179-183 | converting a to b and back to a gives the value back |
| `Conversion.ConvertGeneralCompose` | app.py:179-183 | converting a to b, then b to c, equals converting a to c |
| `Conversion.ConvertGeneralFallback` | app.py:179-185 | a missing category or unit, or the temperature category, gives 0.0 (the bare `except`) |
| `Conversion.ConvertGeneralZero` | app.py:179-185 | the result is 0.0 exactly when the value is 0.0 or the lookup fails |
| `Conversion.ConvertTemperature` | app.py:174-177 | `convert_temperature`; no contract of its own: the `ConvertTemperature…` lemmas below carry its properties |
| `Conversion.ReadAsTemperatureUnit` | app.py:176-177 | `convert_temperature` reads "°C" as Celsius and every other name as Fahrenheit |
| `Conversion.ConvertTemperatureIdentity` | app.py:175 | equal unit names give the value back untouched |
| `Conversion.ConvertTemperatureFixedPoints` | app.py:174-177 | 0 °C = 32 °F, 100 °C = 212 °F, both ways, and -40 °C = -40 °F |
| `Conversion.ConvertTemperatureRoundTrip` | app.py:174-177 | converting there and back gives the value back, for any two unit names |
| `Conversion.ConvertTemperatureReadsUnknownAsFahrenheit` | app.py:176-177 | any unit name other than "°C" converts exactly as "°F" does |
| `Conversion.ConvertTemperatureMonotonic` | app.py:174-177 | the conversion preserves and reflects strict order of values |
| `Conversion.Convert` | app.py:258-261 | the dispatch; no contract of its own: `ConvertIdentity`, `ConvertRoundTrip`, `TemperatureExample` and `LengthExample` carry its properties |
| `Conversion.ConvertIdentity` | app.py:258-261 | for every category and every unit it offers, converting the unit to itself changes nothing |
| `Conversion.ConvertRoundTrip` | app.py:258-261 | for every category and any two units it offers, converting there and back changes nothing |
| `Conversion.OfferedUnitsAreLinear` | app.py:219-222 | outside temperature, the offered units are units of a linear category, so `convert_general` never falls back on them |
| `Conversion.DefaultTargetIndex` | app.py:246-247 | with more than one option the preselected target is the second option; otherwise the index is 0, a valid position of a non-empty list |
| `Conversion.DefaultTargetDiffersFromSource` | app.py:246-247 | on every category the page opens with the second offered unit as target, which differs from the source (first) unit |
| `Conversion.LengthExample` | app.py:258-261 | 1 ft is 0.3048 m on the engine's table |
| `Conversion.LengthIdentityExample` | app.py:258-261 | 10 mm to mm is 10 on the engine's table |
| `Conversion.UnknownUnitExample` | app.py:179-185 | a unit missing from "Longitud" gives 0.0 |
| `Conversion.TemperatureExample` | app.py:258-259 | 0 °C is 32 °F through the dispatch |
| `Conversion.TemperatureNotLinearExample` | app.py:179-185 | temperature sent to `convert_general` falls back to 0.0, because its units are a list and not factors |
| `NumberFormat.Round4` | app.py:161 | the magnitude is within half a ten-thousandth of the exact value. A tie goes to the even magnitude. The sign is that of the value, even when the magnitude rounds to zero |
| `NumberFormat.Round4Close` | app.py:152 | the rounded value differs from the value by at most 0.00005: at most four decimals are kept |
| `NumberFormat.GroupCommas` | app.py:159-161 | the whole part has a ',' before every group of three digits, counted from the right, and nowhere else |
| `NumberFormat.GroupValue` | app.py:159-161 | the ',' separators leave the whole part's value unchanged |
| `NumberFormat.Group` | app.py:159-161 | the ',' grouping of `"{:,}"`: a whole part of digits and ',' that starts and ends with a digit, with no leading '0' for a positive number; `GroupCommas` and `GroupValue` carry the rest |
| `NumberFormat.Render` | app.py:161 | `"{:,.4f}"` on a rounded value; no contract of its own: `FormatFixedShape`, `FormatFixedLooks` and `FormatFixedParses` carry its properties |
| `NumberFormat.RStrip` | app.py:166 | `str.rstrip(c)`: no longer than its input, and not ending in `c`; `RStripSplits` carries the rest |
| `NumberFormat.StripZeros` | app.py:166 | `.rstrip('0').rstrip('.')`; no contract of its own: `StripShape` and `FormatFixedShape` carry its properties |
| `NumberFormat.RStripSplits` | app.py:166 | `rstrip(c)` leaves a prefix and removes only characters `c` |
| `NumberFormat.ShownFractionValue` | app.py:163-166 | after stripping, the fraction has at most four digits and does not end in '0'; filled back out with '0' to four digits, it is worth the fraction |
| `NumberFormat.FormatFixedShape` | app.py:159-166 | the stripped rendering is the sign and the grouped whole part, then a '.' and the shown fraction only when that fraction is non-zero |
| `NumberFormat.FormatFixedLooks` | app.py:152-166 | the stripped rendering is never empty or a lone sign. It never ends in '.'. After a '.' come at most four digits, the last not '0' |
| `NumberFormat.FormatFixedParses` | app.py:159-166 | the stripped rendering reads back as exactly the fixed-point value it renders |
| `NumberFormat.FormatFixed` | app.py:159-166 | looks clean and reads back as its input |
| `NumberFormat.FormatCleanNumber` | app.py:150-172 | zero gives "0". Every result looks clean and reads back as the value rounded to four decimals |
| `NumberFormat.FormatCleanNumberLayout` | app.py:159-166 | a non-zero value is shown as its sign, its whole part with a ',' at every fourth place from the right and worth the rounded whole part, then the point and the shown fraction if it is not zero |
| `NumberFormat.ParseZero` | app.py:156-157 | the "0" returned for zero reads back as zero |
| `NumberFormat.NonZeroIsFormatted` | app.py:159-172 | for a non-zero value the result is the stripped rendering; the guard at lines 169-170 never changes it |
| `NumberFormat.FormatWholeExample` | app.py:153 | 100.0 is shown as "100" |
| `NumberFormat.FormatFractionExample` | app.py:154 | 10.123456 is shown as "10.1235" |
| `NumberFormat.FormatThousandsExample` | app.py:160 | 1234.56789 is shown as "1,234.5679" |
| `NumberFormat.FormatHalfExample` | app.py:164 | 10.5 is shown as "10.5" |
| `NumberFormat.FormatNegativeZeroExample` | app.py:168-172 | -0.00001 is shown as "-0": the rounding leaves a sign and a zero, which the guard does not catch |

## Left out

- The Streamlit page is not modelled: page setup, styles, widgets, the logo, and the sidebar and result markup (app.py:1-92, 187-256, 263-277). Only the values the page computes from the table are modelled: the options, the default index and the dispatch.
- Python floats are modelled as exact reals. Binary rounding of the factors and of each multiplication and division is not modelled, nor are NaN, infinities, overflow or the separate -0.0. As a result:
  - the round trips and identities hold exactly in the model, where the float program may be off in the last bit;
  - `1/3600` is the exact quotient.
- NumberFormat.Round4: rounds the exact real value. Python rounds the binary double nearest the typed number. Both round half to even, but a decimal that looks like a tie, such as 0.00005, is generally not a tie as a double.
- NumberFormat.FormatCleanNumber: the `value == 0` test compares reals, so -0.0 is not separate from 0.0.
- Conversion.ConvertGeneralZero: over floats a product can underflow to 0.0 for tiny non-zero values. Over reals it cannot, so the "only if" direction is stated for exact arithmetic only.
- The text typed into `st.number_input` and its four-decimal input format (app.py:226-232) are not modelled. The input is taken to be any real value.
- Which radio buttons the user picks is not modelled: any category name and unit names may be passed. The properties about offered units use `UnitOptions` to restrict them.
