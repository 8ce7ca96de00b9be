/**
  `convert_area_to_square_meters`: the hexagon area typed in the dialog,
  in one of five units, converted to square metres with a fixed factor
  table. An unknown unit yields `None` rather than a number.
*/
module Units {
  import opened Wrappers

  /** The unit labels of the dialog's combo box, in display order. */
  const DialogUnits: seq<string> := ["hectares", "acres", "km²", "miles²", "mètres²"]

  /** Square metres per unit. */
  const ConversionFactors: map<string, real> := map[
    "hectares" := 10000.0,
    "acres" := 4046.86,
    "km²" := 1000000.0,
    "miles²" := 2590000.0,
    "mètres²" := 1.0
  ]

  /** `area` in `unit`, in square metres; `None` for a unit outside the table. */
  function ConvertAreaToSquareMeters(area: real, unit: string): (r: Option<real>)
    ensures r.None? <==> unit !in DialogUnits
    ensures unit == "hectares" ==> r == Some(area * 10000.0)
    ensures unit == "acres" ==> r == Some(area * 4046.86)
    ensures unit == "km²" ==> r == Some(area * 1000000.0)
    ensures unit == "miles²" ==> r == Some(area * 2590000.0)
    ensures unit == "mètres²" ==> r == Some(area)
  {
    if unit !in ConversionFactors then
      None
    else
      Some(area * ConversionFactors[unit])
  }

  /**
    Square metres back into `unit`. The script has no such step; this is the
    inverse against which `RoundTrip` checks the conversion.
  */
  function ConvertFromSquareMeters(areaM2: real, unit: string): (r: Option<real>)
    ensures r.None? <==> unit !in DialogUnits
  {
    if unit !in ConversionFactors then
      None
    else
      Some(areaM2 / ConversionFactors[unit])
  }

  /** The factor table knows exactly the units the dialog offers, each with a positive factor. */
  lemma TableMatchesDialog()
    ensures ConversionFactors.Keys == set u | u in DialogUnits
    ensures forall u :: u in ConversionFactors ==> ConversionFactors[u] > 0.0
  {
  }

  /** Converting to square metres and back gives the original area, for every unit of the table. */
  lemma RoundTrip(area: real, unit: string)
    requires unit in DialogUnits
    ensures ConvertFromSquareMeters(ConvertAreaToSquareMeters(area, unit).value, unit) == Some(area)
  {
    TableMatchesDialog();
  }

  /** A larger area converts to a larger number of square metres, whatever the unit. */
  lemma ConversionMonotone(a: real, b: real, unit: string)
    requires a < b && unit in DialogUnits
    ensures ConvertAreaToSquareMeters(a, unit).value < ConvertAreaToSquareMeters(b, unit).value
  {
    TableMatchesDialog();
    var f := ConversionFactors[unit];
    assert (b - a) * f > 0.0;
  }
}
