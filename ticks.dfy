/**
 * The tick algebra of include/timecode.hpp over exact reals: the weight of one
 * frame (fps_to_single_tick), the weights of the four chunks
 * (fps_to_ticks_by_chunk), an (h, m, s, f) tuple as ticks
 * (chunks_to_total_ticks) and ticks rendered as "HH:MM:SS:FF"
 * (ticks_to_chunk_string / ticks_to_string).
 */
module Ticks {
  import opened Utility
  import opened Decimal

  /** fps_to_single_tick: one frame is 1 / fps / 100 ticks. */
  function SingleTick(fps: real): (t: real)
    requires fps > 0.0
    ensures t > 0.0
    ensures t * fps == 0.01
  {
    1.0 / fps / 100.0
  }

  /** fps_to_ticks_by_chunk: the weights of an hour, a minute, a second and a frame, in that order. */
  function TicksByChunk(fps: real): (w: seq<real>)
    requires fps > 0.0
    ensures |w| == 4
    ensures w[3] == SingleTick(fps)
    ensures w[2] == fps * w[3] && w[2] == 0.01
    ensures w[1] == 60.0 * w[2]
    ensures w[0] == 60.0 * w[1] && w[0] == 36.0
  {
    var t := SingleTick(fps);
    var ht := t * 60.0 * 60.0 * fps;
    var mt := t * 60.0 * fps;
    var st := t * fps;
    assert ht == 3600.0 * (t * fps);
    assert mt == 60.0 * (t * fps);
    [ht, mt, st, t]
  }

  /**
   * chunks_to_total_ticks: the single-tick weight times the total frame count
   * ((h * 3600 + m * 60 + s) * fps + f); that is the weighted sum of the
   * four chunks.
   */
  function ChunksToTotalTicks(h: real, m: real, s: real, f: real, fps: real): (ticks: real)
    requires fps > 0.0
    ensures var w := TicksByChunk(fps);
      ticks == h * w[0] + m * w[1] + s * w[2] + f * w[3]
    ensures ticks == h * 36.0 + m * 0.6 + s * 0.01 + f * SingleTick(fps)
  {
    var totalFrames := ((h * 60.0 * 60.0) + (m * 60.0) + s) * fps + f;
    var t := SingleTick(fps);
    assert t * totalFrames == (h * 3600.0 + m * 60.0 + s) * (t * fps) + f * t;
    t * totalFrames
  }

  // ---------------------------------------------------------------------
  // Real-number helpers standing for std::fmod, std::round and the integer
  // part of std::to_string.
  // ---------------------------------------------------------------------

  /** Truncation toward zero. */
  function Trunc(x: real): (r: int)
    ensures 0.0 <= x ==> r as real <= x < r as real + 1.0
    ensures x < 0.0 ==> r as real - 1.0 < x <= r as real
  {
    if x >= 0.0 then x.Floor else -((-x).Floor)
  }

  /** std::fmod: the remainder of x / y truncated toward zero; it keeps the sign of x. */
  function Fmod(x: real, y: real): (r: real)
    requires y > 0.0
    ensures 0.0 <= x ==> 0.0 <= r < y
    ensures x < 0.0 ==> -y < r <= 0.0
    ensures (x - r) / y == Trunc(x / y) as real
  {
    var q := Trunc(x / y) as real;
    RemainderBounds(x, y, q, x - q * y);
    x - q * y
  }

  /** With q the truncated quotient of x / y, the remainder x - q * y lies within y of zero, on the side of x. */
  lemma RemainderBounds(x: real, y: real, q: real, rem: real)
    requires y > 0.0 && rem == x - q * y
    requires 0.0 <= x ==> q <= x / y < q + 1.0
    requires x < 0.0 ==> q - 1.0 < x / y <= q
    ensures 0.0 <= x ==> 0.0 <= rem < y
    ensures x < 0.0 ==> -y < rem <= 0.0
    ensures (x - rem) / y == q
  {
    var frac := x / y - q;
    assert x / y * y == x;
    assert rem == frac * y;
    if 0.0 <= x {
      FractionBelow(frac, y, rem);
    } else {
      FractionAbove(frac, y, rem);
    }
    assert x - rem == q * y;
  }

  /** A fraction in [0, 1) of a positive y lies in [0, y). */
  lemma FractionBelow(a: real, y: real, p: real)
    requires y > 0.0 && p == a * y && 0.0 <= a < 1.0
    ensures 0.0 <= p < y
  {
    assert (1.0 - a) * y > 0.0;
    assert y - p == (1.0 - a) * y;
  }

  /** A fraction in (-1, 0] of a positive y lies in (-y, 0]. */
  lemma FractionAbove(a: real, y: real, p: real)
    requires y > 0.0 && p == a * y && -1.0 < a <= 0.0
    ensures -y < p <= 0.0
  {
    assert (1.0 + a) * y > 0.0;
    assert y + p == (1.0 + a) * y;
    assert (-a) * y >= 0.0;
  }

  /** std::round: the nearest integer, halfway cases away from zero. */
  function RoundHalfAway(x: real): (r: int)
    ensures r as real - x <= 0.5 && x - r as real <= 0.5
    ensures r as real - x == 0.5 ==> x > 0.0
    ensures x - r as real == 0.5 ==> x < 0.0
  {
    if x >= 0.0 then (x + 0.5).Floor else -((-x + 0.5).Floor)
  }

  /** Rounding never reverses the order of two values. */
  lemma RoundMonotone(x: real, y: real)
    requires x <= y
    ensures RoundHalfAway(x) <= RoundHalfAway(y)
  {
    if 0.0 <= x {
      assert (x + 0.5).Floor <= (y + 0.5).Floor;
    } else if y < 0.0 {
      assert (-y + 0.5).Floor <= (-x + 0.5).Floor;
    }
  }

  /** Every integer rounds to itself. */
  lemma RoundOfInteger(n: int)
    ensures RoundHalfAway(n as real) == n
  {
  }

  /** The padding rule of ticks_to_chunk_string: a one-character field gets a leading "0". */
  function Pad2(str: string): string
  {
    if |str| == 1 then "0" + str else str
  }

  lemma Pad2Digits(str: string)
    requires AllDigits(str)
    ensures AllDigits(Pad2(str)) && DecimalValue(Pad2(str)) == DecimalValue(str)
    ensures |str| >= 1 ==> |Pad2(str)| >= 2
  {
    if |str| == 1 {
      var p := Pad2(str);
      assert p[..1] == "0";
      assert p[..|p| - 1] == "0";
      assert DecimalValue("0") == 0;
    }
  }

  /** The digits std::to_string writes before the '.', sign included. */
  function IntegerDigits(d: real): (str: string)
    ensures |str| >= 1
    ensures ':' !in str && ';' !in str
    ensures 0.0 <= d ==> AllDigits(str) && DecimalValue(str) == d.Floor
  {
    if d < 0.0 then
      var digits := NatToString((-d).Floor);
      NoSeparatorsInDigits(digits);
      "-" + digits
    else
      NoSeparatorsInDigits(NatToString(d.Floor));
      NatToString(d.Floor)
  }

  lemma NoSeparatorsInDigits(str: string)
    requires AllDigits(str)
    ensures ':' !in str && ';' !in str
  {
  }

  /**
   * ticks_to_chunk_string: how many chunks of weight k fit in n ticks, as a
   * field of at least two characters. With `round` the count is rounded to
   * the nearest integer first, and a count that rounded up prints as "00".
   */
  function TicksToChunkString(n: real, k: real, round: bool): (r: string)
    requires k > 0.0
    ensures |r| >= 2
    ensures ':' !in r && ';' !in r
    ensures 0.0 <= n ==> AllDigits(r)
    ensures 0.0 <= n && !round ==> DecimalValue(r) == (n / k).Floor
    ensures 0.0 <= n && round ==>
      DecimalValue(r) == if RoundHalfAway(n / k) as real > n / k then 0 else (n / k).Floor
  {
    var q := n / k;
    var d := if round then RoundHalfAway(q) as real else q;
    if d > q then
      assert DecimalValue("00") == 0;
      NoSeparatorsInDigits("00");
      "00"
    else
      var str := IntegerDigits(d);
      ChunkFieldFacts(str, d, q, round);
      Pad2(str)
  }

  lemma ChunkFieldFacts(str: string, d: real, q: real, round: bool)
    requires str == IntegerDigits(d)
    requires d == (if round then RoundHalfAway(q) as real else q)
    requires d <= q
    ensures |Pad2(str)| >= 2
    ensures ':' !in Pad2(str) && ';' !in Pad2(str)
    ensures 0.0 <= q ==> AllDigits(Pad2(str))
    ensures 0.0 <= q ==> DecimalValue(Pad2(str)) == q.Floor
  {
    if |str| == 1 {
      assert Pad2(str) == "0" + str;
      assert '0' != ':' && '0' != ';';
    }
    if 0.0 <= q {
      if round {
        var r := RoundHalfAway(q);
        assert 0 <= r;
        assert d.Floor == q.Floor;
      }
      assert 0.0 <= d;
      Pad2Digits(str);
    }
  }

  /**
   * ticks_to_string: the hour, minute and second fields count whole chunks of
   * the remaining ticks, each chunk being removed with fmod before the next;
   * the frame field rounds. The fields are joined with ':'; the result never
   * carries the drop-frame ';'.
   */
  function TicksToString(n: real, fps: real): (r: string)
    requires fps > 0.0
    ensures ';' !in r
    ensures |Split(r, ':')| == 4
  {
    var w := TicksByChunk(fps);
    var h := TicksToChunkString(n, w[0], false);
    var n1 := Fmod(n, w[0]);
    var m := TicksToChunkString(n1, w[1], false);
    var n2 := Fmod(n1, w[1]);
    var s := TicksToChunkString(n2, w[2], false);
    var n3 := Fmod(n2, w[2]);
    var f := TicksToChunkString(n3, w[3], true);
    JoinFourFields(h, m, s, f);
    h + ":" + m + ":" + s + ":" + f
  }

  lemma JoinFourFields(h: string, m: string, s: string, f: string)
    requires ':' !in h && ':' !in m && ':' !in s && ':' !in f
    ensures Split(h + ":" + m + ":" + s + ":" + f, ':') == [h, m, s, f]
    ensures ';' !in h && ';' !in m && ';' !in s && ';' !in f ==> ';' !in h + ":" + m + ":" + s + ":" + f
  {
    SplitOfFour(h, m, s, f, ':');
  }

  /** The canonical text of a timecode: four zero-padded fields joined with ':'. */
  function Layout(h: nat, m: nat, s: nat, f: nat): string
  {
    Pad2(NatToString(h)) + ":" + Pad2(NatToString(m)) + ":" + Pad2(NatToString(s)) + ":" + Pad2(NatToString(f))
  }

  lemma FloorOfSplit(k: int, r: real)
    requires 0.0 <= r < 1.0
    ensures (k as real + r).Floor == k
  {
  }

  /** Multiplying by a positive number keeps the sign. */
  lemma ProductSign(a: real, b: real)
    requires b > 0.0
    ensures a > 0.0 <==> a * b > 0.0
    ensures a >= 0.0 <==> a * b >= 0.0
  {
  }

  lemma BelowOne(r: real, w: real)
    requires w > 0.0 && 0.0 <= r < w
    ensures 0.0 <= r / w < 1.0
  {
    var t := r / w;
    assert t * w == r;
    ProductSign(t, w);
    ProductSign(1.0 - t, w);
    assert (1.0 - t) * w == w - r;
  }

  lemma DivSplit(k: real, r: real, w: real)
    requires w > 0.0
    ensures (k * w + r) / w == k + r / w
  {
    assert (k + r / w) * w == k * w + r / w * w;
    assert r / w * w == r;
  }

  /** n is k whole chunks of weight w plus a remainder r below w. */
  predicate WholeChunksPlus(n: real, k: nat, w: real, r: real)
  {
    w > 0.0 && 0.0 <= r < w && n == k as real * w + r
  }

  /**
   * One step of ticks_to_string: n, made of k whole chunks of weight w and
   * a remainder below w, prints as k, and fmod leaves the remainder.
   */
  lemma ChunkStep(k: nat, r: real, w: real, n: real)
    requires WholeChunksPlus(n, k, w, r)
    ensures Fmod(n, w) == r
    ensures TicksToChunkString(n, w, false) == Pad2(NatToString(k))
  {
    DivSplit(k as real, r, w);
    BelowOne(r, w);
    FloorOfSplit(k, r / w);
    assert Trunc(n / w) == k;
  }

  /**
   * Rendering the ticks of (h, m, s, f) gives back the zero-padded fields,
   * for minutes and seconds below 60 and frames below the rate, in exact
   * arithmetic.
   */
  lemma {:induction false} TicksToStringOfChunks(h: nat, m: nat, s: nat, f: nat, fps: real)
    requires fps > 0.0
    requires m < 60 && s < 60 && (f as real) < fps
    ensures TicksToString(ChunksToTotalTicks(h as real, m as real, s as real, f as real, fps), fps)
            == Layout(h, m, s, f)
  {
    var t := SingleTick(fps);
    var n := ChunksToTotalTicks(h as real, m as real, s as real, f as real, fps);
    var frames := f as real * t;
    FramesBelowSecond(f as real, fps, t, frames, fps * t);
    var secs := s as real * 0.01 + frames;
    SubChunk(s, frames, 0.01, secs);
    var mins := m as real * 0.6 + secs;
    SubChunk(m, secs, 0.6, mins);
    RenderChunks(h, m, s, f, fps, n, mins, secs, frames);
  }

  /**
   * The rendering half of TicksToStringOfChunks: n split into whole chunks
   * and remainders, each remainder below its chunk's weight, prints as the
   * padded counts.
   */
  lemma RenderChunks(h: nat, m: nat, s: nat, f: nat, fps: real, n: real, mins: real, secs: real, frames: real)
    requires fps > 0.0
    requires WholeChunksPlus(n, h, 36.0, mins)
    requires WholeChunksPlus(mins, m, 0.6, secs)
    requires WholeChunksPlus(secs, s, 0.01, frames)
    requires frames == f as real * SingleTick(fps)
    ensures TicksToString(n, fps) == Layout(h, m, s, f)
  {
    FrameStep(f, SingleTick(fps), frames);
    ChunkStep(s, frames, 0.01, secs);
    ChunkStep(m, secs, 0.6, mins);
    ChunkStep(h, mins, 36.0, n);
    TicksToStringOfSteps(n, fps, mins, secs, frames);
  }

  /** ticks_to_string unfolded, once the three remainders are known. */
  lemma TicksToStringOfSteps(n: real, fps: real, n1: real, n2: real, n3: real)
    requires fps > 0.0
    requires Fmod(n, 36.0) == n1 && Fmod(n1, 0.6) == n2 && Fmod(n2, 0.01) == n3
    ensures TicksToString(n, fps)
         == TicksToChunkString(n, 36.0, false) + ":" + TicksToChunkString(n1, 0.6, false) + ":"
            + TicksToChunkString(n2, 0.01, false) + ":" + TicksToChunkString(n3, SingleTick(fps), true)
  {
  }

  /** Fewer than 60 chunks of weight w, plus less than w, weigh less than 60 chunks. */
  lemma SubChunk(k: nat, r: real, w: real, n: real)
    requires k < 60 && w > 0.0 && 0.0 <= r < w && n == k as real * w + r
    ensures 0.0 <= n < 60.0 * w
  {
    var c := k as real;
    assert c <= 59.0;
    ProductSign(59.0 - c, w);
    ProductSign(c, w);
    assert 59.0 * w - c * w == (59.0 - c) * w;
  }

  /** Fewer frames than the rate take less than a second, 0.01 ticks. */
  lemma FramesBelowSecond(f: real, fps: real, t: real, p: real, second: real)
    requires 0.0 <= f < fps && t > 0.0 && second == fps * t && second == 0.01 && p == f * t
    ensures 0.0 <= p < 0.01
  {
    assert (fps - f) * t > 0.0;
    assert second - p == (fps - f) * t;
    assert f * t >= 0.0;
  }

  lemma MulDivCancel(a: real, w: real)
    requires w > 0.0
    ensures a * w / w == a
  {
  }

  /** The last step: n, made of f whole frames, rounds to f and prints as f. */
  lemma FrameStep(f: nat, w: real, n: real)
    requires w > 0.0 && n == f as real * w
    ensures TicksToChunkString(n, w, true) == Pad2(NatToString(f))
  {
    MulDivCancel(f as real, w);
    RoundOfInteger(f);
  }

  /** A frame count whose fraction is one half or more rounds up, and then prints as "00". */
  lemma RoundedUpFramePrintsZero()
    ensures TicksToChunkString(0.7, 0.2, true) == "00"
  {
    assert 0.7 / 0.2 == 3.5;
    assert RoundHalfAway(3.5) == 4;
  }
}
