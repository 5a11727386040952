/**
  Input/output file formats (osmium::io::file_format) and their display
  names (osmium::io::as_string).

  The enum class has the 32-bit `int` as its underlying type, so a value of
  it can hold any such int, not only the five enumerators; `AsString`
  therefore takes the underlying value and answers the empty string for
  anything undeclared.
 */
module FileFormats {

  datatype Option<T> = None | Some(value: T)

  /** The C++ `int`, the underlying type of the enum class. */
  type int32 = v: int | -0x8000_0000 <= v <= 0x7FFF_FFFF

  /** The five declared enumerators. */
  datatype Format = Unknown | Xml | Pbf | Opl | Json

  /** The underlying value of each enumerator. */
  function Value(f: Format): (v: int32)
    ensures 0 <= v <= 4
    ensures v == 0 <==> f == Unknown
  {
    match f
    case Unknown => 0
    case Xml => 1
    case Pbf => 2
    case Opl => 3
    case Json => 4
  }

  /** The enumerator with underlying value `v`, if one is declared. */
  function FromValue(v: int32): (r: Option<Format>)
    ensures r.Some? <==> 0 <= v <= 4
  {
    if v == 0 then Some(Unknown)
    else if v == 1 then Some(Xml)
    else if v == 2 then Some(Pbf)
    else if v == 3 then Some(Opl)
    else if v == 4 then Some(Json)
    else None
  }

  /** Each enumerator is recovered from its underlying value. */
  lemma FromValueOfValue(f: Format)
    ensures FromValue(Value(f)) == Some(f)
  {
  }

  /** A declared value is the value of the enumerator it names. */
  lemma ValueOfFromValue(v: int32)
    requires 0 <= v <= 4
    ensures Value(FromValue(v).value) == v
  {
  }

  /** The enumerators carry distinct underlying values. */
  lemma ValueInjective(f: Format, g: Format)
    ensures Value(f) == Value(g) <==> f == g
  {
    FromValueOfValue(f);
    FromValueOfValue(g);
  }

  /**
    `as_string`: the display name of a format, given by the underlying value;
    a value that names no enumerator falls through to the empty string.
   */
  function AsString(format: int32): (s: string)
    ensures s == "" <==> FromValue(format).None?
  {
    match format
    case 0 => "unknown"
    case 1 => "XML"
    case 2 => "PBF"
    case 3 => "OPL"
    case 4 => "JSON"
    case _ => ""
  }

  /** The display name of each enumerator, by enumerator and by value. */
  lemma AsStringNames()
    ensures AsString(0) == "unknown" && AsString(1) == "XML" && AsString(2) == "PBF"
    ensures AsString(3) == "OPL" && AsString(4) == "JSON"
    ensures AsString(Value(Unknown)) == "unknown"
    ensures AsString(Value(Xml)) == "XML"
    ensures AsString(Value(Pbf)) == "PBF"
    ensures AsString(Value(Opl)) == "OPL"
    ensures AsString(Value(Json)) == "JSON"
  {
  }

  /** Distinct enumerators have distinct, non-empty display names. */
  lemma AsStringInjective(f: Format, g: Format)
    ensures AsString(Value(f)) != ""
    ensures AsString(Value(f)) == AsString(Value(g)) <==> f == g
  {
    ValueInjective(f, g);
  }
}
