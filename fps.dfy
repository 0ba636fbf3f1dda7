/**
 * The frame-rate format registry of include/timecode.hpp: the closed enum
 * __FPSFormat::format and its four lookup tables (display name, integer
 * rate, floating rate, drop-frame flag), each an enum_map whose fallbacks are
 * `none` and the table's first literal.
 */
module FpsFormat {
  import opened Utility

  datatype Format = Fps24 | Fps25 | Fps30 | Fps29p97 | FpsDf29p97 | Fps60 | FpsNone

  /** The enumerators in declaration order, as magic_enum::enum_values lists them. */
  const Enumerators: seq<Format> := [Fps24, Fps25, Fps30, Fps29p97, FpsDf29p97, Fps60, FpsNone]

  const NameTable: EnumMap<Format, string> :=
    EnumMap(Enumerators, ["24 fps", "25 fps", "30 fps", "29.97 fps", "29.97 fps drop-frame", "60 fps"], FpsNone, "NONE")

  const IntTable: EnumMap<Format, int> :=
    EnumMap(Enumerators, [24, 25, 30, 29, 29, 60], FpsNone, 0)

  const FloatTable: EnumMap<Format, real> :=
    EnumMap(Enumerators, [24.0, 25.0, 30.0, 29.97, 29.97, 60.0], FpsNone, 0.0)

  const DropFrameTable: EnumMap<Format, bool> :=
    EnumMap(Enumerators, [false, false, false, false, true, false], FpsNone, false)

  /** VTM_TIMECODE_FPS_DEFAULT */
  const DefaultFpsInt: int := 25

  /** One row of the registry, written out per format. */
  datatype Row = Row(name: string, rate: int, exact: real, dropFrame: bool)

  function RowOf(t: Format): Row
  {
    match t
    case Fps24 => Row("24 fps", 24, 24.0, false)
    case Fps25 => Row("25 fps", 25, 25.0, false)
    case Fps30 => Row("30 fps", 30, 30.0, false)
    case Fps29p97 => Row("29.97 fps", 29, 29.97, false)
    case FpsDf29p97 => Row("29.97 fps drop-frame", 29, 29.97, true)
    case Fps60 => Row("60 fps", 60, 60.0, false)
    case FpsNone => Row("NONE", 0, 0.0, false)
  }

  /** Position of `t` in Enumerators. */
  function Ordinal(t: Format): (k: nat)
    ensures k < |Enumerators| && Enumerators[k] == t
  {
    match t
    case Fps24 => 0
    case Fps25 => 1
    case Fps30 => 2
    case Fps29p97 => 3
    case FpsDf29p97 => 4
    case Fps60 => 5
    case FpsNone => 6
  }

  lemma EnumeratorsDistinct()
    ensures Distinct(Enumerators)
  {
  }

  lemma IndexOfEnumerator(t: Format)
    ensures IndexOf(Enumerators, t) == Ordinal(t)
  {
    EnumeratorsDistinct();
  }

  function ToString(t: Format): (r: string)
    ensures r == RowOf(t).name
  {
    IndexOfEnumerator(t);
    Forward(NameTable, t)
  }

  function ToInt(t: Format): (r: int)
    ensures r == RowOf(t).rate
  {
    IndexOfEnumerator(t);
    Forward(IntTable, t)
  }

  function ToFloat(t: Format): (r: real)
    ensures r == RowOf(t).exact
    ensures r > 0.0 <==> t != FpsNone
  {
    IndexOfEnumerator(t);
    Forward(FloatTable, t)
  }

  /** __FPSFormat::is_drop_frame */
  function IsDropFrame(t: Format): (r: bool)
    ensures r == RowOf(t).dropFrame
    ensures r <==> t == FpsDf29p97
  {
    IndexOfEnumerator(t);
    Forward(DropFrameTable, t)
  }

  /** Where each integer rate first appears in IntTable. */
  lemma IntPosition(i: int)
    ensures IndexOf(IntTable.values, i) ==
      if i == 24 then 0 else if i == 25 then 1 else if i == 30 then 2
      else if i == 29 then 3 else if i == 60 then 5 else 6
  {
    var v := IntTable.values;
    assert v[0] == 24 && v[1] == 25 && v[2] == 30 && v[3] == 29 && v[4] == 29 && v[5] == 60;
    var k := IndexOf(v, i);
    if k < 6 { assert v[k] == i; }
  }

  lemma FloatPosition(x: real)
    ensures IndexOf(FloatTable.values, x) ==
      if x == 24.0 then 0 else if x == 25.0 then 1 else if x == 30.0 then 2
      else if x == 29.97 then 3 else if x == 60.0 then 5 else 6
  {
    var v := FloatTable.values;
    assert v[0] == 24.0 && v[1] == 25.0 && v[2] == 30.0 && v[3] == 29.97 && v[4] == 29.97 && v[5] == 60.0;
    var k := IndexOf(v, x);
    if k < 6 { assert v[k] == x; }
  }

  lemma NamePosition(s: string)
    ensures IndexOf(NameTable.values, s) ==
      if s == "24 fps" then 0 else if s == "25 fps" then 1 else if s == "30 fps" then 2
      else if s == "29.97 fps" then 3 else if s == "29.97 fps drop-frame" then 4
      else if s == "60 fps" then 5 else 6
  {
    var v := NameTable.values;
    assert v[0] == "24 fps" && v[1] == "25 fps" && v[2] == "30 fps";
    assert v[3] == "29.97 fps" && v[4] == "29.97 fps drop-frame" && v[5] == "60 fps";
    var k := IndexOf(v, s);
    if k < 6 { assert v[k] == s; }
  }

  /** A value missing from a table's values is the value of no format but `none`. */
  lemma RatesMissing(i: int, x: real, s: string)
    ensures i !in IntTable.values ==> forall t :: t != FpsNone ==> ToInt(t) != i
    ensures x !in FloatTable.values ==> forall t :: t != FpsNone ==> ToFloat(t) != x
    ensures s !in NameTable.values ==> forall t :: t != FpsNone ==> ToString(t) != s
  {
    forall t | t != FpsNone
      ensures ToInt(t) in IntTable.values && ToFloat(t) in FloatTable.values && ToString(t) in NameTable.values
    {
      var k := Ordinal(t);
      assert ToInt(t) == IntTable.values[k];
      assert ToFloat(t) == FloatTable.values[k];
      assert ToString(t) == NameTable.values[k];
    }
  }

  /**
   * __FPSFormat::from_int: the first format whose integer rate is `i`; `none`
   * when no format has it. A rate shared by two formats resolves to the first.
   */
  function FromInt(i: int): (r: Format)
    ensures r != FpsNone ==> ToInt(r) == i
    ensures r == FpsNone ==> forall t :: t != FpsNone ==> ToInt(t) != i
    ensures r != FpsDf29p97
  {
    IntPosition(i);
    RatesMissing(i, 0.0, "");
    assert Enumerators[0] == Fps24 && Enumerators[1] == Fps25 && Enumerators[2] == Fps30;
    assert Enumerators[3] == Fps29p97 && Enumerators[5] == Fps60;
    Reverse(IntTable, i)
  }

  /** __FPSFormat::from_float */
  function FromFloat(x: real): (r: Format)
    ensures r != FpsNone ==> ToFloat(r) == x
    ensures r == FpsNone ==> forall t :: t != FpsNone ==> ToFloat(t) != x
    ensures r != FpsDf29p97
  {
    FloatPosition(x);
    RatesMissing(0, x, "");
    Reverse(FloatTable, x)
  }

  /** __FPSFormat::from_string */
  function FromString(s: string): (r: Format)
    ensures r != FpsNone ==> ToString(r) == s
    ensures r == FpsNone ==> forall t :: t != FpsNone ==> ToString(t) != s
  {
    NamePosition(s);
    RatesMissing(0, 0.0, s);
    assert Enumerators[0] == Fps24 && Enumerators[1] == Fps25 && Enumerators[2] == Fps30;
    assert Enumerators[3] == Fps29p97 && Enumerators[4] == FpsDf29p97 && Enumerators[5] == Fps60;
    Reverse(NameTable, s)
  }

  /** The reverse lookup of the drop-frame table (`__fpsformat_dropframe_to_value`). */
  function FromDropFrame(b: bool): (r: Format)
    ensures b ==> r == FpsDf29p97
    ensures !b ==> r == Fps24
  {
    var v := DropFrameTable.values;
    assert v[0] == false && v[4] == true && forall j :: 0 <= j < 4 ==> !v[j];
    Reverse(DropFrameTable, b)
  }

  /** __FPSFormat::default_value: from_int(VTM_TIMECODE_FPS_DEFAULT). */
  function DefaultValue(): (r: Format)
    ensures r == Fps25
    ensures ToInt(r) == DefaultFpsInt
  {
    FromInt(DefaultFpsInt)
  }

  /** Names identify formats: looking a format's name up gives the format back, `none` included. */
  lemma {:induction false} NameRoundTrip(t: Format)
    ensures FromString(ToString(t)) == t
  {
    NamePosition(ToString(t));
  }

  /**
   * The integer rate identifies every format except the drop-frame one, which
   * shares 29 with 29.97 fps and comes back as that.
   */
  lemma {:induction false} IntRoundTrip(t: Format)
    ensures FromInt(ToInt(t)) == if t == FpsDf29p97 then Fps29p97 else t
  {
    IntPosition(ToInt(t));
  }

  /** The same holds for the floating rate: 29.97 always resolves to the non-drop format. */
  lemma {:induction false} FloatRoundTrip(t: Format)
    ensures FromFloat(ToFloat(t)) == if t == FpsDf29p97 then Fps29p97 else t
  {
    FloatPosition(ToFloat(t));
  }

  /** The linear searches of map_enum_values compute the same lookups. */
  method LookupToFloat(t: Format) returns (r: real)
    ensures r == ToFloat(t)
  {
    r := LookupForward(FloatTable, t);
  }

  method LookupFromInt(i: int) returns (r: Format)
    ensures r == FromInt(i)
  {
    r := LookupReverse(IntTable, i);
  }

  /**
   * As written, the forward lambdas read past the end of every table for
   * `none`: the tables hold one value fewer than there are enumerators.
   */
  lemma NoneReadsPastEveryTable()
    ensures ForwardAsWritten(NameTable, FpsNone).None?
    ensures ForwardAsWritten(IntTable, FpsNone).None?
    ensures ForwardAsWritten(FloatTable, FpsNone).None?
    ensures ForwardAsWritten(DropFrameTable, FpsNone).None?
  {
    IndexOfEnumerator(FpsNone);
  }

  /**
   * The four registry tables list the enumerators in declaration order, hold one
   * value per format other than `none` (the row of that format) and fall back to
   * `none` and its row's literal.
   */
  lemma TablesMatchRows(t: Format)
    ensures WellFormed(NameTable) && WellFormed(IntTable)
    ensures WellFormed(FloatTable) && WellFormed(DropFrameTable)
    ensures NameTable.options == IntTable.options == FloatTable.options == DropFrameTable.options == Enumerators
    ensures t != FpsNone ==> NameTable.values[Ordinal(t)] == RowOf(t).name
    ensures t != FpsNone ==> IntTable.values[Ordinal(t)] == RowOf(t).rate
    ensures t != FpsNone ==> FloatTable.values[Ordinal(t)] == RowOf(t).exact
    ensures t != FpsNone ==> DropFrameTable.values[Ordinal(t)] == RowOf(t).dropFrame
    ensures NameTable.defaultEnum == IntTable.defaultEnum == FloatTable.defaultEnum == DropFrameTable.defaultEnum == FpsNone
    ensures NameTable.defaultOut == RowOf(FpsNone).name && IntTable.defaultOut == RowOf(FpsNone).rate
    ensures FloatTable.defaultOut == RowOf(FpsNone).exact && DropFrameTable.defaultOut == RowOf(FpsNone).dropFrame
  {
  }

  /** With the fallback, `none` reads as the tables' default literals. */
  lemma NoneReadsAsDefaults()
    ensures ToString(FpsNone) == "NONE" && ToInt(FpsNone) == 0
    ensures ToFloat(FpsNone) == 0.0 && !IsDropFrame(FpsNone)
  {
  }
}
