/**
 * class __BasicTimecode of include/timecode.hpp, as instantiated for
 * vtm::timecode (int_t = long long, float_t = long double): a mode tag, a
 * frame-rate format, a drop-frame flag and a union holding either a
 * floating or an integral tick count, with saturating arithmetic and the
 * comparison rules of operator== and operator<=>.
 */
module Timecode {
  import opened Utility
  import opened FpsFormat
  import opened Decimal
  import opened Ticks
  import opened TcString

  // ---------------------------------------------------------------------
  // The number types: int_t is a 64-bit two's-complement integer, float_t
  // is modelled by exact reals bounded by the limits of the x87 80-bit
  // long double.
  // ---------------------------------------------------------------------

  newtype int64 = x: int | -0x8000_0000_0000_0000 <= x < 0x8000_0000_0000_0000

  const Int64Min: int64 := -0x8000_0000_0000_0000
  const Int64Max: int64 := 0x7FFF_FFFF_FFFF_FFFF

  function Pow2(n: nat): (r: nat)
    ensures r >= 1
    ensures n >= 1 ==> r >= 2
  {
    if n == 0 then 1 else 2 * Pow2(n - 1)
  }

  /** numeric_limits<long double>::max(): (2^64 - 1) * 2^16320. */
  const LongDoubleMax: real := ((Pow2(64) - 1) * Pow2(16320)) as real

  /** numeric_limits<long double>::min(): the smallest positive normal value, 2^-16382. */
  const LongDoubleMin: real := 1.0 / Pow2(16382) as real

  lemma LongDoubleLimits()
    ensures LongDoubleMax >= 1.0
    ensures 0.0 < LongDoubleMin <= 1.0
  {
    ScaledAtLeastOne(Pow2(64), Pow2(16320));
    UnitFraction(Pow2(16382));
  }

  lemma ScaledAtLeastOne(a: nat, b: nat)
    requires a >= 2 && b >= 1
    ensures ((a - 1) * b) as real >= 1.0
  {
    assert (a - 1) * b >= b;
  }

  lemma UnitFraction(p: nat)
    requires p >= 1
    ensures 0.0 < 1.0 / p as real <= 1.0
  {
  }

  /** A sum or difference computed in int64_t: wrap-around modulo 2^64. */
  function Wrap64(z: int): (r: int64)
    ensures Int64Min as int <= z <= Int64Max as int ==> r as int == z
    ensures Int64Max as int < z < 0x1_0000_0000_0000_0000 ==> r as int == z - 0x1_0000_0000_0000_0000
    ensures -0x1_0000_0000_0000_0000 <= z < Int64Min as int ==> r as int == z + 0x1_0000_0000_0000_0000
  {
    ((z - Int64Min as int) % 0x1_0000_0000_0000_0000 + Int64Min as int) as int64
  }

  /** The value clamped into the range of int64_t. */
  function Saturate(z: int): (r: int64)
    ensures Int64Min as int <= z <= Int64Max as int ==> r as int == z
    ensures z > Int64Max as int ==> r == Int64Max
    ensures z < Int64Min as int ==> r == Int64Min
  {
    if z > Int64Max as int then Int64Max
    else if z < Int64Min as int then Int64Min
    else z as int64
  }

  /** std::min(numeric_limits<int_t>::max(), v + x) as written: the sum wraps before the clamp. */
  function AddAsWritten(v: int64, x: int64): (r: int64)
    ensures Int64Min as int <= v as int + x as int <= Int64Max as int ==> r as int == v as int + x as int
    ensures v as int + x as int > Int64Max as int ==> r as int == v as int + x as int - 0x1_0000_0000_0000_0000
    ensures v as int + x as int < Int64Min as int ==> r as int == v as int + x as int + 0x1_0000_0000_0000_0000
  {
    var sum := Wrap64(v as int + x as int);
    if sum < Int64Max then sum else Int64Max
  }

  /** std::max(numeric_limits<int_t>::min(), v - x) as written. */
  function SubAsWritten(v: int64, x: int64): (r: int64)
    ensures Int64Min as int <= v as int - x as int <= Int64Max as int ==> r as int == v as int - x as int
    ensures v as int - x as int > Int64Max as int ==> r as int == v as int - x as int - 0x1_0000_0000_0000_0000
    ensures v as int - x as int < Int64Min as int ==> r as int == v as int - x as int + 0x1_0000_0000_0000_0000
  {
    var diff := Wrap64(v as int - x as int);
    if diff > Int64Min then diff else Int64Min
  }

  /** As written, one past the largest value wraps to the smallest: the clamp never fires. */
  lemma AddOverflowWraps()
    ensures AddAsWritten(Int64Max, 1) == Int64Min
  {
  }

  /** As written, one below the smallest value wraps to the largest. */
  lemma SubOverflowWraps()
    ensures SubAsWritten(Int64Min, 1) == Int64Max
  {
  }

  /**
   * The intended `tc + x`: min(max(), v + x) taken on the exact sum, and
   * symmetrically max(min(), v + x) for a negative x.
   */
  function SaturatingAdd(v: int64, x: int64): (r: int64)
    ensures x >= 0 ==> r as int == Min(Int64Max as int, v as int + x as int)
    ensures x < 0 ==> r as int == Max(Int64Min as int, v as int + x as int)
  {
    Saturate(v as int + x as int)
  }

  /** The intended `tc - x`: max(min(), v - x) on the exact difference. */
  function SaturatingSub(v: int64, x: int64): (r: int64)
    ensures x >= 0 ==> r as int == Max(Int64Min as int, v as int - x as int)
    ensures x < 0 ==> r as int == Min(Int64Max as int, v as int - x as int)
  {
    Saturate(v as int - x as int)
  }

  function Min(a: int, b: int): int
  {
    if a < b then a else b
  }

  function Max(a: int, b: int): int
  {
    if a > b then a else b
  }

  /** Where no overflow happens, the code as written and the saturating operations agree. */
  lemma SaturatingAgreesWithoutOverflow(v: int64, x: int64)
    ensures Int64Min as int <= v as int + x as int <= Int64Max as int ==> AddAsWritten(v, x) == SaturatingAdd(v, x)
    ensures Int64Min as int <= v as int - x as int <= Int64Max as int ==> SubAsWritten(v, x) == SaturatingSub(v, x)
  {
  }

  /** std::min(numeric_limits<float_t>::max(), f + x). */
  function FloatAdd(f: real, x: real): (r: real)
    ensures r <= LongDoubleMax
    ensures f + x <= LongDoubleMax ==> r == f + x
    ensures f + x >= LongDoubleMax ==> r == LongDoubleMax
  {
    if f + x < LongDoubleMax then f + x else LongDoubleMax
  }

  /** std::max(numeric_limits<float_t>::min(), f - x) as written: min() is the smallest positive value. */
  function FloatSubAsWritten(f: real, x: real): (r: real)
    ensures r >= LongDoubleMin
    ensures f - x >= LongDoubleMin ==> r == f - x
    ensures f - x <= LongDoubleMin ==> r == LongDoubleMin
  {
    if f - x > LongDoubleMin then f - x else LongDoubleMin
  }

  /** As written, a difference below zero comes out as a tiny positive number. */
  lemma FloatSubNeverNegative(f: real, x: real)
    ensures FloatSubAsWritten(f, x) > 0.0
    ensures f - x <= 0.0 ==> FloatSubAsWritten(f, x) == LongDoubleMin
  {
    LongDoubleLimits();
  }

  /** The intended `tc - x`: the difference clamped at numeric_limits<float_t>::lowest(). */
  function FloatSub(f: real, x: real): (r: real)
    ensures r >= -LongDoubleMax
    ensures f - x >= -LongDoubleMax ==> r == f - x
    ensures f - x <= -LongDoubleMax ==> r == -LongDoubleMax
  {
    if f - x > -LongDoubleMax then f - x else -LongDoubleMax
  }

  // ---------------------------------------------------------------------
  // The timecode object
  // ---------------------------------------------------------------------

  /** __BasicTimecode::mode */
  datatype Mode = Floating | Integral

  /**
   * The storage of the union _value seen through both members. Only the
   * member `mode` names is meaningful; writing one member leaves the other
   * unspecified.
   */
  datatype Value = Value(f: real, i: int64)

  /** The three results operator<=> can give. */
  datatype Ordering = Less | Equal | Greater

  class BasicTimecode {
    var mode: Mode
    var fps: Format
    var dropframe: bool
    var value: Value

    /** The member initializer of _fps, fps_factory_t::default_value(), which is fps_25. */
    static method InitialFps() returns (r: Format)
      ensures r == Fps25
    {
      r := DefaultValue();
    }

    /** The default constructor: only the member initializers run. */
    constructor ()
      ensures mode == Floating && value.f == 0.0
      ensures fps == DefaultValue() && !dropframe
    {
      var stale: int64 :| true;
      mode := Floating;
      var initial := InitialFps();
      fps := initial;
      dropframe := IsDropFrame(initial);
      value := Value(0.0, stale);
    }

    /** __BasicTimecode(V value, fps) for an integral V: set_value(value), then the rate. */
    constructor FromInt(x: int64, rate: Format)
      ensures mode == Integral && value.i == x
      ensures fps == rate && !dropframe
    {
      var stale: int64 :| true;
      mode := Floating;
      var initial := InitialFps();
      fps := initial;
      dropframe := IsDropFrame(initial);
      value := Value(0.0, stale);
      new;
      SetInt(x);
      fps := rate;
    }

    /** __BasicTimecode(V value, fps) for a floating V. */
    constructor FromFloat(x: real, rate: Format)
      ensures mode == Floating && value.f == x
      ensures fps == rate && !dropframe
    {
      var stale: int64 :| true;
      mode := Floating;
      var initial := InitialFps();
      fps := initial;
      dropframe := IsDropFrame(initial);
      value := Value(0.0, stale);
      new;
      SetFloat(x);
      fps := rate;
    }

    /** __BasicTimecode(const string_view_t&): the body is empty, the text is ignored. */
    constructor FromView(text: string)
      ensures mode == Floating && value.f == 0.0
      ensures fps == DefaultValue() && !dropframe
    {
      var stale: int64 :| true;
      mode := Floating;
      var initial := InitialFps();
      fps := initial;
      dropframe := IsDropFrame(initial);
      value := Value(0.0, stale);
    }

    /**
     * The copy constructor: mode, rate and value are copied; the drop-frame
     * flag is not copied but initialized from the rate just copied, since
     * _fps is initialized before _dropframe.
     */
    constructor Copy(tc: BasicTimecode)
      ensures mode == tc.mode && fps == tc.fps && value == tc.value
      ensures dropframe == IsDropFrame(tc.fps)
    {
      mode := tc.mode;
      fps := tc.fps;
      dropframe := IsDropFrame(tc.fps);
      value := tc.value;
    }

    /**
     * The move constructor: the source's fields are copied and then reset to
     * `{}`, which is mode floating, the first format (fps_24) and a zero value.
     */
    constructor MoveFrom(tc: BasicTimecode)
      modifies tc
      ensures mode == old(tc.mode) && fps == old(tc.fps) && value == old(tc.value)
      ensures !dropframe
      ensures tc.mode == Floating && tc.fps == Fps24 && tc.value.f == 0.0
      ensures tc.dropframe == old(tc.dropframe)
    {
      mode := tc.mode;
      fps := tc.fps;
      var initial := InitialFps();
      dropframe := IsDropFrame(initial);
      value := tc.value;
      new;
      var stale: int64 :| true;
      tc.mode := Floating;
      tc.fps := Fps24;
      tc.value := Value(0.0, stale);
    }

    /** from_hmsf: the ticks of (h, m, s, f) at the format's floating rate. */
    static method FromHmsf(h: int, m: int, s: int, f: int, rate: Format) returns (tc: BasicTimecode)
      requires h >= 0 && m >= 0 && s >= 0 && f >= 0
      requires rate != FpsNone
      ensures fresh(tc)
      ensures tc.mode == Floating && tc.fps == rate && !tc.dropframe
      ensures tc.AsFloat() == ChunksToTotalTicks(h as real, m as real, s as real, f as real, ToFloat(rate))
    {
      var ticks := ChunksToTotalTicks(h as real, m as real, s as real, f as real, ToFloat(rate));
      tc := new BasicTimecode.FromFloat(ticks, rate);
    }

    /** from_string: a valid timecode string parsed into ticks at the format's floating rate. */
    static method FromString(text: string, rate: Format) returns (tc: BasicTimecode)
      requires IsParsableTc(text)
      requires rate != FpsNone
      ensures fresh(tc)
      ensures tc.mode == Floating && tc.fps == rate && !tc.dropframe
      ensures tc.AsFloat() == StringTicks(text, ToFloat(rate))
    {
      var ticks := TcStringToTicks(text, ToFloat(rate));
      tc := new BasicTimecode.FromFloat(ticks, rate);
    }

    // -------------------------------------------------------------------
    // Accessors
    // -------------------------------------------------------------------

    /** as_signed: the stored integer, or the stored float rounded half away from zero. */
    function AsSigned(): (r: int)
      reads this
      ensures r == RoundHalfAway(AsFloat())
      ensures mode == Integral ==> r == value.i as int
    {
      if mode != Integral then RoundHalfAway(value.f) else value.i as int
    }

    /** as_float: the stored float, or the stored integer widened. */
    function AsFloat(): (r: real)
      reads this
      ensures mode == Floating ==> r == value.f
      ensures mode == Integral ==> r == value.i as real && RoundHalfAway(r) == value.i as int
    {
      if mode != Floating then RoundOfInteger(value.i as int); value.i as real else value.f
    }

    /** as_pair<int_t, float_t>: the two readings side by side. */
    function AsPairIntFloat(): (p: (int, real))
      reads this
      ensures p.0 == RoundHalfAway(p.1)
      ensures p.1 == AsFloat()
    {
      (AsSigned(), AsFloat())
    }

    /** as_string: the floating ticks rendered at the format's floating rate. */
    function AsString(): (r: string)
      reads this
      requires fps != FpsNone
      ensures ';' !in r && |Split(r, ':')| == 4
      ensures r == TicksToString(AsFloat(), ToFloat(fps))
    {
      TicksToString(AsFloat(), ToFloat(fps))
    }

    /** display: always basic_timecode_default_display(). */
    function Display(): (r: string)
      ensures r == Layout(0, 0, 0, 0)
      ensures IsParsableTc(r)
    {
      LayoutLiterals();
      var zero, rate := 0, 25.0;
      LayoutParses(zero, zero, zero, zero, rate);
      "00:00:00:00"
    }

    // -------------------------------------------------------------------
    // Assignment
    // -------------------------------------------------------------------

    /** set_value (and operator=) for an integral value. */
    method SetInt(x: int64)
      modifies this
      ensures mode == Integral && value.i == x
      ensures AsSigned() == x as int && AsFloat() == x as real
      ensures fps == old(fps) && dropframe == old(dropframe)
    {
      var stale: real :| true;
      value := Value(stale, x);
      mode := Integral;
    }

    /** set_value (and operator=) for a floating value. */
    method SetFloat(x: real)
      modifies this
      ensures mode == Floating && value.f == x
      ensures AsFloat() == x && AsSigned() == RoundHalfAway(x)
      ensures fps == old(fps) && dropframe == old(dropframe)
    {
      var stale: int64 :| true;
      value := Value(x, stale);
      mode := Floating;
    }

    /**
     * set_value(const __BasicTimecode&) as written: the floating branch has
     * no `else`, so the integral copy always follows and the mode always
     * ends integral, holding the source's integer view.
     */
    method SetValue(tc: BasicTimecode)
      modifies this
      ensures mode == Integral
      ensures tc != this || old(tc.mode) == Integral ==> value.i == old(tc.value.i)
      ensures fps == old(fps) && dropframe == old(dropframe)
    {
      if tc.mode == Floating {
        var stale: int64 :| true;
        value := Value(tc.value.f, stale);
        mode := Floating;
      }
      var stale: real :| true;
      value := Value(stale, tc.value.i);
      mode := Integral;
    }

    /** reset: set_value(float_t(0.0)). */
    method Reset()
      modifies this
      ensures mode == Floating && AsFloat() == 0.0 && AsSigned() == 0
      ensures fps == old(fps) && dropframe == old(dropframe)
    {
      SetFloat(0.0);
    }

    /** The copy assignment: mode, rate and value; the drop-frame flag stays. */
    method CopyAssign(tc: BasicTimecode)
      modifies this
      ensures mode == old(tc.mode) && fps == old(tc.fps) && value == old(tc.value)
      ensures dropframe == old(dropframe)
    {
      mode := tc.mode;
      fps := tc.fps;
      value := tc.value;
    }

    /** The move assignment: copy, then reset the source to `{}`. */
    method MoveAssign(tc: BasicTimecode)
      modifies this, tc
      ensures tc != this ==> mode == old(tc.mode) && fps == old(tc.fps) && value == old(tc.value)
      ensures tc.mode == Floating && tc.fps == Fps24 && tc.value.f == 0.0
      ensures dropframe == old(dropframe) && tc.dropframe == old(tc.dropframe)
    {
      mode := tc.mode;
      fps := tc.fps;
      value := tc.value;
      var stale: int64 :| true;
      tc.mode := Floating;
      tc.fps := Fps24;
      tc.value := Value(0.0, stale);
    }

    // -------------------------------------------------------------------
    // Arithmetic: the friends taking the timecode on the left read the
    // union member of the right-hand side's kind whatever the mode is.
    // -------------------------------------------------------------------

    /** tc + x for an integral x: a copy holding the saturated sum of its integer view. */
    method PlusInt(x: int64) returns (r: BasicTimecode)
      ensures fresh(r)
      ensures r.mode == Integral && r.value.i == SaturatingAdd(value.i, x)
      ensures mode == Integral ==> r.AsSigned() == Saturate(AsSigned() + x as int) as int
      ensures r.fps == fps && r.dropframe == IsDropFrame(fps)
    {
      r := new BasicTimecode.Copy(this);
      r.SetInt(SaturatingAdd(r.value.i, x));
    }

    /** tc + x for a floating x: a copy holding min(max(), f + x) of its float view. */
    method PlusFloat(x: real) returns (r: BasicTimecode)
      ensures fresh(r)
      ensures r.mode == Floating && r.value.f == FloatAdd(value.f, x)
      ensures r.fps == fps && r.dropframe == IsDropFrame(fps)
    {
      r := new BasicTimecode.Copy(this);
      r.SetFloat(FloatAdd(r.value.f, x));
    }

    /** tc - x for an integral x. */
    method MinusInt(x: int64) returns (r: BasicTimecode)
      ensures fresh(r)
      ensures r.mode == Integral && r.value.i == SaturatingSub(value.i, x)
      ensures mode == Integral ==> r.AsSigned() == Saturate(AsSigned() - x as int) as int
      ensures r.fps == fps && r.dropframe == IsDropFrame(fps)
    {
      r := new BasicTimecode.Copy(this);
      r.SetInt(SaturatingSub(r.value.i, x));
    }

    /** tc - x for a floating x. */
    method MinusFloat(x: real) returns (r: BasicTimecode)
      ensures fresh(r)
      ensures r.mode == Floating && r.value.f == FloatSub(value.f, x)
      ensures r.fps == fps && r.dropframe == IsDropFrame(fps)
    {
      r := new BasicTimecode.Copy(this);
      r.SetFloat(FloatSub(r.value.f, x));
    }

    /**
     * tc + rhs for two timecodes, as written: a floating sum is stored and
     * then overwritten by the integer sum, so the result is always integral.
     */
    method Plus(rhs: BasicTimecode) returns (r: BasicTimecode)
      ensures fresh(r)
      ensures r.mode == Integral && r.fps == fps && r.dropframe == IsDropFrame(fps)
      ensures mode == Integral ==> r.value.i == SaturatingAdd(value.i, rhs.value.i)
    {
      r := new BasicTimecode.Copy(this);
      if r.mode == Floating {
        r.SetFloat(FloatAdd(r.value.f, rhs.value.f));
      }
      r.SetInt(SaturatingAdd(r.value.i, rhs.value.i));
    }

    /** tc - rhs for two timecodes, as written. */
    method Minus(rhs: BasicTimecode) returns (r: BasicTimecode)
      ensures fresh(r)
      ensures r.mode == Integral && r.fps == fps && r.dropframe == IsDropFrame(fps)
      ensures mode == Integral ==> r.value.i == SaturatingSub(value.i, rhs.value.i)
    {
      r := new BasicTimecode.Copy(this);
      if r.mode == Floating {
        r.SetFloat(FloatSub(r.value.f, rhs.value.f));
      }
      r.SetInt(SaturatingSub(r.value.i, rhs.value.i));
    }

    /** tc += x: set_value(tc + x), which ends integral. */
    method AddAssignInt(x: int64)
      modifies this
      ensures mode == Integral && value.i == SaturatingAdd(old(value.i), x)
      ensures fps == old(fps) && dropframe == old(dropframe)
    {
      var sum := PlusInt(x);
      SetValue(sum);
    }

    /** tc += x for a floating x: set_value of a floating timecode, so the float sum is not kept. */
    method AddAssignFloat(x: real)
      modifies this
      ensures mode == Integral
      ensures fps == old(fps) && dropframe == old(dropframe)
    {
      var sum := PlusFloat(x);
      SetValue(sum);
    }

    /** tc += rhs for a timecode. */
    method AddAssign(rhs: BasicTimecode)
      modifies this
      ensures mode == Integral
      ensures old(mode) == Integral ==> value.i == SaturatingAdd(old(value.i), old(rhs.value.i))
      ensures fps == old(fps) && dropframe == old(dropframe)
    {
      var sum := Plus(rhs);
      SetValue(sum);
    }

    /** tc -= x. */
    method SubAssignInt(x: int64)
      modifies this
      ensures mode == Integral && value.i == SaturatingSub(old(value.i), x)
      ensures fps == old(fps) && dropframe == old(dropframe)
    {
      var diff := MinusInt(x);
      SetValue(diff);
    }

    /** tc -= x for a floating x. */
    method SubAssignFloat(x: real)
      modifies this
      ensures mode == Integral
      ensures fps == old(fps) && dropframe == old(dropframe)
    {
      var diff := MinusFloat(x);
      SetValue(diff);
    }

    /** tc -= rhs for a timecode. */
    method SubAssign(rhs: BasicTimecode)
      modifies this
      ensures mode == Integral
      ensures old(mode) == Integral ==> value.i == SaturatingSub(old(value.i), old(rhs.value.i))
      ensures fps == old(fps) && dropframe == old(dropframe)
    {
      var diff := Minus(rhs);
      SetValue(diff);
    }

    // -------------------------------------------------------------------
    // Comparison
    // -------------------------------------------------------------------

    /**
     * operator==: both readings agree. Since the integer reading is the
     * rounded float reading, that is the same as equal float readings.
     */
    function Equals(rhs: BasicTimecode): (b: bool)
      reads this, rhs
      ensures b <==> AsSigned() == rhs.AsSigned() && AsFloat() == rhs.AsFloat()
      ensures b <==> AsFloat() == rhs.AsFloat()
    {
      var lhsPair := AsPairIntFloat();
      var rhsPair := rhs.AsPairIntFloat();
      lhsPair.0 == rhsPair.0 && lhsPair.1 == rhsPair.1
    }

    /**
     * operator<=>: less only when both readings are less, greater only when
     * both are greater, equal otherwise. Rounding keeps order, so the integer
     * reading alone decides.
     */
    function Compare(rhs: BasicTimecode): (o: Ordering)
      reads this, rhs
      ensures o == Less <==> AsSigned() < rhs.AsSigned()
      ensures o == Greater <==> AsSigned() > rhs.AsSigned()
      ensures o == Equal <==> AsSigned() == rhs.AsSigned()
    {
      var lhsPair := AsPairIntFloat();
      var rhsPair := rhs.AsPairIntFloat();
      RoundOrder(lhsPair.1, rhsPair.1);
      if lhsPair.0 < rhsPair.0 && lhsPair.1 < rhsPair.1 then Less
      else if lhsPair.0 > rhsPair.0 && lhsPair.1 > rhsPair.1 then Greater
      else Equal
    }
  }

  /** Distinct rounded values come from values in the same order. */
  lemma RoundOrder(x: real, y: real)
    ensures RoundHalfAway(x) < RoundHalfAway(y) ==> x < y
    ensures RoundHalfAway(x) > RoundHalfAway(y) ==> x > y
  {
    if y <= x {
      RoundMonotone(y, x);
    }
    if x <= y {
      RoundMonotone(x, y);
    }
  }

  // ---------------------------------------------------------------------
  // The friends taking the timecode on the right: a plain number results.
  // ---------------------------------------------------------------------

  /** V + tc for an integral V: lhs plus the integer view, in int64_t. */
  function IntPlusTimecode(lhs: int64, rhs: BasicTimecode): (r: int64)
    reads rhs
    ensures Int64Min as int <= lhs as int + rhs.value.i as int <= Int64Max as int ==>
              r as int == lhs as int + rhs.value.i as int
    ensures rhs.mode == Integral && Int64Min as int <= lhs as int + rhs.AsSigned() <= Int64Max as int ==>
              r as int == lhs as int + rhs.AsSigned()
  {
    Wrap64(lhs as int + rhs.value.i as int)
  }

  /** V - tc for an integral V. */
  function IntMinusTimecode(lhs: int64, rhs: BasicTimecode): (r: int64)
    reads rhs
    ensures Int64Min as int <= lhs as int - rhs.value.i as int <= Int64Max as int ==>
              r as int == lhs as int - rhs.value.i as int
    ensures rhs.mode == Integral && Int64Min as int <= lhs as int - rhs.AsSigned() <= Int64Max as int ==>
              r as int == lhs as int - rhs.AsSigned()
  {
    Wrap64(lhs as int - rhs.value.i as int)
  }

  /** V + tc for a floating V: lhs plus the float view. */
  function FloatPlusTimecode(lhs: real, rhs: BasicTimecode): (r: real)
    reads rhs
    ensures rhs.mode == Floating ==> r == lhs + rhs.AsFloat()
  {
    lhs + rhs.value.f
  }

  /** V - tc for a floating V. */
  function FloatMinusTimecode(lhs: real, rhs: BasicTimecode): (r: real)
    reads rhs
    ensures rhs.mode == Floating ==> r == lhs - rhs.AsFloat()
  {
    lhs - rhs.value.f
  }

  // ---------------------------------------------------------------------
  // Properties relating several members
  // ---------------------------------------------------------------------

  /** Equal timecodes compare equal under operator<=>. */
  lemma EqualsImpliesCompareEqual(a: BasicTimecode, b: BasicTimecode)
    ensures a.Equals(b) ==> a.Compare(b) == Equal
  {
  }

  /**
   * The rendered text of a timecode holding the ticks of (h, m, s, f) is the
   * canonical layout of (h, m, s, f), for minutes and seconds below 60 and
   * frames below the rate.
   */
  lemma AsStringOfChunks(tc: BasicTimecode, h: nat, m: nat, s: nat, f: nat)
    requires tc.fps != FpsNone
    requires m < 60 && s < 60 && (f as real) < ToFloat(tc.fps)
    requires tc.AsFloat() == ChunksToTotalTicks(h as real, m as real, s as real, f as real, ToFloat(tc.fps))
    ensures tc.AsString() == Layout(h, m, s, f)
  {
    TicksToStringOfChunks(h, m, s, f, ToFloat(tc.fps));
  }

  /**
   * from_string(as_string()) gives the same ticks back: the text of a
   * timecode built from (h, m, s, f) is parsable and parses to its ticks.
   */
  lemma AsStringParsesBack(tc: BasicTimecode, h: nat, m: nat, s: nat, f: nat)
    requires tc.fps != FpsNone
    requires m < 60 && s < 60 && f < 100 && (f as real) < ToFloat(tc.fps)
    requires tc.AsFloat() == ChunksToTotalTicks(h as real, m as real, s as real, f as real, ToFloat(tc.fps))
    ensures IsParsableTc(tc.AsString())
    ensures StringTicks(tc.AsString(), ToFloat(tc.fps)) == tc.AsFloat()
  {
    TicksStringRoundTrip(h, m, s, f, ToFloat(tc.fps));
  }

  // ---------------------------------------------------------------------
  // The cases of tests/timecode.test.cpp
  // ---------------------------------------------------------------------

  method InitializationCase()
  {
    var tc1 := new BasicTimecode();
    assert tc1.AsSigned() == 0 && tc1.AsFloat() == 0.0 && tc1.AsFloat() != 0.01;
    var tc2 := new BasicTimecode.FromFloat(3.33, DefaultValue());
    assert tc2.AsSigned() == 3 && tc2.AsFloat() == 3.33 && tc2.AsFloat() != 3.34;
  }

  method AssignmentCase()
  {
    var tc1 := new BasicTimecode.FromFloat(100.3323, DefaultValue());
    var tc2 := new BasicTimecode.FromInt(998, DefaultValue());
    tc1.CopyAssign(tc2);
    assert tc1.AsSigned() == 998 && tc1.AsFloat() == 998.0 && tc1.AsFloat() != 998.01;
    tc1.SetFloat(69420.69420);
    tc2.SetFloat(420.420);
    assert tc1.AsSigned() == 69421 && tc1.AsFloat() == 69420.69420 && tc1.AsFloat() != 69420.69421;
    assert tc2.AsSigned() == 420 && tc2.AsFloat() == 420.420 && tc2.AsFloat() != 420.421;
  }

  method ComparisonCase()
  {
    var tc1 := new BasicTimecode.FromInt(690420, DefaultValue());
    var tc2 := new BasicTimecode.FromInt(690420, DefaultValue());
    assert tc1.Equals(tc2) && tc2.Equals(tc1);
    tc1.SetFloat(69.420);
    assert !tc1.Equals(tc2) && !tc2.Equals(tc1);
    assert tc1.Compare(tc2) == Less && tc2.Compare(tc1) == Greater;
  }

  /** operator<=> is coarser than operator==: 3.1 and 3.2 compare equal but are not equal. */
  method CoarseOrderCase()
  {
    var tc1 := new BasicTimecode.FromFloat(3.1, DefaultValue());
    var tc2 := new BasicTimecode.FromFloat(3.2, DefaultValue());
    assert tc1.Compare(tc2) == Equal && !tc1.Equals(tc2);
  }

  /**
   * A timecode built at the drop-frame rate reports no drop frame, but a copy
   * of it does: the copy initializes its flag from the copied rate.
   */
  method DropFrameCopyCase()
  {
    var tc1 := new BasicTimecode.FromFloat(0.0, FpsDf29p97);
    assert !tc1.dropframe;
    var tc2 := new BasicTimecode.Copy(tc1);
    assert tc2.dropframe && tc2.fps == tc1.fps;
  }

  lemma LayoutLiterals()
    ensures Layout(0, 0, 0, 0) == "00:00:00:00"
    ensures Layout(1, 0, 0, 0) == "01:00:00:00"
    ensures Layout(0, 0, 1, 0) == "00:00:01:00"
  {
    assert NatToString(0) == "0" && NatToString(1) == "1";
  }

  /** Zero ticks render as "00:00:00:00" at every rate. */
  lemma ZeroRenders(tc: BasicTimecode)
    requires tc.fps != FpsNone && tc.AsFloat() == 0.0
    ensures tc.AsString() == "00:00:00:00"
  {
    AsStringOfChunks(tc, 0, 0, 0, 0);
    LayoutLiterals();
  }

  /** An hour is 36 ticks at every rate, and renders as "01:00:00:00". */
  lemma OneHourRenders(tc: BasicTimecode)
    requires tc.fps != FpsNone && tc.AsFloat() == 36.0
    ensures tc.AsString() == "01:00:00:00"
  {
    AsStringOfChunks(tc, 1, 0, 0, 0);
    LayoutLiterals();
  }

  /** A second is 0.01 ticks at every rate, and renders as "00:00:01:00". */
  lemma OneSecondRenders(tc: BasicTimecode)
    requires tc.fps != FpsNone && tc.AsFloat() == 0.01
    ensures tc.AsString() == "00:00:01:00"
  {
    AsStringOfChunks(tc, 0, 0, 1, 0);
    LayoutLiterals();
  }

  /** "00:00:01:00" parses to 0.01 ticks at every rate. */
  lemma OneSecondParses(rate: real)
    requires rate > 0.0
    ensures IsParsableTc("00:00:01:00") && StringTicks("00:00:01:00", rate) == 0.01
  {
    LayoutParses(0, 0, 1, 0, rate);
    LayoutLiterals();
  }

  method StringCase()
  {
    var tc1 := new BasicTimecode.FromFloat(0.0, DefaultValue());
    var tc2 := new BasicTimecode.FromFloat(36.0, DefaultValue());
    ZeroRenders(tc1);
    OneHourRenders(tc2);
    assert tc1.AsString() == "00:00:00:00";
    assert tc2.AsString() == "01:00:00:00";
  }

  /** from_hmsf(0, 0, 0, 0, rate).as_string() is "00:00:00:00". */
  method ZeroHmsfCase(rate: Format)
    requires rate != FpsNone
  {
    var tc := BasicTimecode.FromHmsf(0, 0, 0, 0, rate);
    assert tc.AsFloat() == 0.0;
    ZeroRenders(tc);
    assert tc.AsString() == "00:00:00:00";
  }

  method FactoryHmsfCase()
  {
    ZeroHmsfCase(Fps24);
    ZeroHmsfCase(Fps25);
    ZeroHmsfCase(Fps30);
  }

  method FactoryStringCase()
  {
    OneSecondParses(ToFloat(DefaultValue()));
    var tc4 := BasicTimecode.FromString("00:00:01:00", DefaultValue());
    OneSecondRenders(tc4);
    assert tc4.AsString() == "00:00:01:00";
  }
}
