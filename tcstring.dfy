/**
 * Timecode strings "HH:MM:SS:FF" in include/timecode.hpp: the drop-frame
 * test (is_tcstring_dropframe), the validator (valid_tcstring) and the parser
 * into ticks (tcstring_to_ticks). A string uses ';' as its only delimiter
 * when it holds one, ':' otherwise.
 */
module TcString {
  import opened Utility
  import opened Decimal
  import opened Ticks

  /** is_tcstring_dropframe: a scan that stops at the first ';'. */
  method IsTcStringDropframe(tc: string) returns (b: bool)
    ensures b <==> ';' in tc
  {
    for k := 0 to |tc|
      invariant ';' !in tc[..k]
    {
      if tc[k] == ';' {
        return true;
      }
      assert tc[..k + 1] == tc[..k] + [tc[k]];
    }
    assert tc[..|tc|] == tc;
    return false;
  }

  /** The delimiter both valid_tcstring and tcstring_to_ticks split on. */
  function Delim(tc: string): char
  {
    if ';' in tc then ';' else ':'
  }

  /** The fields rg::split_view(tc, delim) yields. */
  function Fields(tc: string): seq<string>
  {
    Split(tc, Delim(tc))
  }

  /** chunk_sizes: the required width of each field; 0 leaves the hour field free. */
  const ChunkSizes: seq<nat> := [0, 2, 2, 2]

  /**
   * What a valid timecode string is: non-empty, exactly four fields, the
   * minute, second and frame fields two characters wide, every field made of
   * digits only. The hour field may have any width, the empty one included.
   */
  predicate IsValidTc(tc: string)
  {
    var fs := Fields(tc);
    tc != [] && |fs| == 4
    && |fs[1]| == 2 && |fs[2]| == 2 && |fs[3]| == 2
    && AllDigits(fs[0]) && AllDigits(fs[1]) && AllDigits(fs[2]) && AllDigits(fs[3])
  }

  /** The check the loop of valid_tcstring makes on field number k. */
  predicate FieldOk(k: nat, field: string)
  {
    AllDigits(field) && (k < 4 && ChunkSizes[k] > 0 ==> |field| == ChunkSizes[k])
  }

  predicate FieldsOk(fields: seq<string>, n: nat)
    requires n <= |fields|
  {
    forall j :: 0 <= j < n ==> FieldOk(j, fields[j])
  }

  lemma FieldsOkValid(tc: string)
    requires tc != []
    ensures |Fields(tc)| == 4 ==> (FieldsOk(Fields(tc), 4) <==> IsValidTc(tc))
  {
    var fs := Fields(tc);
    if |fs| == 4 {
      assert ChunkSizes[0] == 0 && ChunkSizes[1] == 2 && ChunkSizes[2] == 2 && ChunkSizes[3] == 2;
      if IsValidTc(tc) {
        assert FieldOk(0, fs[0]) && FieldOk(1, fs[1]) && FieldOk(2, fs[2]) && FieldOk(3, fs[3]);
      }
      if FieldsOk(fs, 4) {
        assert FieldOk(0, fs[0]) && FieldOk(1, fs[1]) && FieldOk(2, fs[2]) && FieldOk(3, fs[3]);
      }
    }
  }

  /** A field that fails its check makes the whole string invalid. */
  lemma FailedFieldInvalid(tc: string, n: nat)
    requires tc != [] && n <= |Fields(tc)|
    requires !FieldsOk(Fields(tc), n)
    ensures !IsValidTc(tc)
  {
    var fs := Fields(tc);
    var j :| 0 <= j < n && !FieldOk(j, fs[j]);
    if |fs| == 4 {
      FieldsOkValid(tc);
      assert !FieldsOk(fs, 4);
    }
  }

  /** A part of a timecode string that holds neither delimiter. */
  predicate NoDelimiter(x: string)
  {
    ':' !in x && ';' !in x
  }

  /**
   * Four parts without delimiters, joined with ':' or with ';', are exactly
   * the four fields; the string is valid iff the last three are two-digit
   * and the first is all digits, of any width, empty included.
   */
  lemma ValidIffParts(h: string, m: string, s: string, f: string, d: char)
    requires d == ':' || d == ';'
    requires NoDelimiter(h) && NoDelimiter(m) && NoDelimiter(s) && NoDelimiter(f)
    ensures Fields(h + [d] + m + [d] + s + [d] + f) == [h, m, s, f]
    ensures IsValidTc(h + [d] + m + [d] + s + [d] + f) <==>
      (|m| == 2 && |s| == 2 && |f| == 2 && AllDigits(h) && AllDigits(m) && AllDigits(s) && AllDigits(f))
  {
    var tc := h + [d] + m + [d] + s + [d] + f;
    assert tc[|h|] == d;
    if d == ':' {
      assert forall k :: 0 <= k < |tc| ==> tc[k] != ';' by {
        forall k | 0 <= k < |tc|
          ensures tc[k] != ';'
        {
          if k < |h| { assert tc[k] == h[k]; }
          else if k == |h| { }
          else if k < |h| + 1 + |m| { assert tc[k] == m[k - |h| - 1]; }
          else if k == |h| + 1 + |m| { }
          else if k < |h| + 2 + |m| + |s| { assert tc[k] == s[k - |h| - 2 - |m|]; }
          else if k == |h| + 2 + |m| + |s| { }
          else { assert tc[k] == f[k - |h| - 3 - |m| - |s|]; }
        }
      }
    }
    assert Delim(tc) == d;
    SplitOfFour(h, m, s, f, d);
  }

  /**
   * valid_tcstring, with the width check made only for the four fields
   * chunk_sizes describes: any further field makes the string invalid.
   */
  method ValidTcString(tc: string) returns (valid: bool)
    ensures valid == IsValidTc(tc)
  {
    valid := tc != [];
    if !valid {
      return false;
    }
    var chunkCount := 0;
    var dropframe := IsTcStringDropframe(tc);
    var delim := if dropframe then ';' else ':';
    var fields := Split(tc, delim);
    assert fields == Fields(tc);
    while chunkCount < |fields|
      invariant 0 <= chunkCount <= |fields|
      invariant valid == FieldsOk(fields, chunkCount)
    {
      var sv := fields[chunkCount];
      if chunkCount < 4 && ChunkSizes[chunkCount] > 0 {
        valid := valid && |sv| == ChunkSizes[chunkCount];
      }
      ghost var sized := valid;
      assert sized == (FieldsOk(fields, chunkCount)
                       && (chunkCount < 4 && ChunkSizes[chunkCount] > 0 ==> |sv| == ChunkSizes[chunkCount]));
      var p := 0;
      while p < |sv|
        invariant 0 <= p <= |sv|
        invariant valid == (sized && forall q :: 0 <= q < p ==> IsDigit(sv[q]))
      {
        valid := valid && IsDigit(sv[p]);
        if !valid {
          assert !FieldOk(chunkCount, sv) || !FieldsOk(fields, chunkCount);
          assert !FieldsOk(fields, chunkCount + 1);
          FailedFieldInvalid(tc, chunkCount + 1);
          return false;
        }
        p := p + 1;
      }
      assert valid == FieldsOk(fields, chunkCount + 1);
      chunkCount := chunkCount + 1;
    }
    if !valid {
      FailedFieldInvalid(tc, chunkCount);
    } else {
      FieldsOkValid(tc);
    }
    return valid && chunkCount == 4;
  }

  /**
   * The loop of valid_tcstring exactly as written, over the fields from
   * number `count` on, entered with the running flag `valid`. It is None
   * where the loop reads chunk_sizes[count] past its four entries.
   */
  function ScanAsWritten(fields: seq<string>, count: nat, valid: bool): Option<bool>
    requires count <= |fields|
    decreases |fields| - count
  {
    if count == |fields| then Some(valid && count == 4)
    else if count >= 4 then None
    else
      var sv := fields[count];
      var v := if ChunkSizes[count] > 0 then valid && |sv| == ChunkSizes[count] else valid;
      if |sv| > 0 && !(v && AllDigits(sv)) then Some(false)
      else ScanAsWritten(fields, count + 1, v)
  }

  /** valid_tcstring as written; None where it indexes past chunk_sizes. */
  function ValidAsWritten(tc: string): Option<bool>
  {
    if tc == [] then Some(false) else ScanAsWritten(Fields(tc), 0, true)
  }

  /**
   * Wherever the code as written is defined it agrees with IsValidTc, and it
   * is defined for every string of at most four fields.
   */
  lemma {:induction false} ValidAsWrittenAgrees(tc: string)
    ensures ValidAsWritten(tc).Some? ==> ValidAsWritten(tc).value == IsValidTc(tc)
    ensures |Fields(tc)| <= 4 ==> ValidAsWritten(tc).Some?
  {
    if tc != [] {
      ScanAgrees(tc, 0, true);
    }
  }

  lemma {:induction false} ScanAgrees(tc: string, count: nat, valid: bool)
    requires tc != [] && count <= |Fields(tc)|
    requires valid == FieldsOk(Fields(tc), count)
    ensures ScanAsWritten(Fields(tc), count, valid).Some? ==>
              ScanAsWritten(Fields(tc), count, valid).value == IsValidTc(tc)
    ensures |Fields(tc)| <= 4 ==> ScanAsWritten(Fields(tc), count, valid).Some?
    decreases |Fields(tc)| - count
  {
    var fs := Fields(tc);
    if count == |fs| {
      if valid {
        FieldsOkValid(tc);
      } else {
        FailedFieldInvalid(tc, count);
      }
    } else if count < 4 {
      var sv := fs[count];
      var v := if ChunkSizes[count] > 0 then valid && |sv| == ChunkSizes[count] else valid;
      if |sv| > 0 && !(v && AllDigits(sv)) {
        assert !FieldsOk(fs, count + 1);
        FailedFieldInvalid(tc, count + 1);
      } else {
        assert v == FieldsOk(fs, count + 1);
        ScanAgrees(tc, count + 1, v);
      }
    }
  }

  /**
   * Behind four well-formed fields, a fifth field sends the code as written
   * past the end of chunk_sizes; the string is invalid, as ValidTcString
   * reports.
   */
  lemma FifthFieldReadsPastChunkSizes(h: string, m: string, s: string, f: string, g: string)
    requires NoDelimiter(h) && NoDelimiter(m) && NoDelimiter(s) && NoDelimiter(f) && NoDelimiter(g)
    requires AllDigits(h) && AllDigits(m) && AllDigits(s) && AllDigits(f)
    requires |m| == 2 && |s| == 2 && |f| == 2
    ensures ValidAsWritten(h + ":" + m + ":" + s + ":" + f + ":" + g).None?
    ensures !IsValidTc(h + ":" + m + ":" + s + ":" + f + ":" + g)
  {
    var rest := m + [':'] + s + [':'] + f + [':'] + g;
    var tc := h + [':'] + rest;
    assert tc == h + ":" + m + ":" + s + ":" + f + ":" + g;
    ValidIffParts(m, s, f, g, ':');
    assert ';' !in tc by {
      assert forall k :: 0 <= k < |rest| ==> rest[k] != ';';
      forall k | 0 <= k < |tc|
        ensures tc[k] != ';'
      {
        if k < |h| { assert tc[k] == h[k]; }
        else if k > |h| { assert tc[k] == rest[k - |h| - 1]; }
      }
    }
    SplitCons(h, ':', rest);
    var fields := Fields(tc);
    assert fields == [h, m, s, f, g];
    assert ScanAsWritten(fields, 4, true).None?;
    assert ScanAsWritten(fields, 3, true).None?;
    assert ScanAsWritten(fields, 2, true).None?;
    assert ScanAsWritten(fields, 1, true).None?;
    assert ScanAsWritten(fields, 0, true).None?;
  }

  // ---------------------------------------------------------------------
  // tcstring_to_ticks
  // ---------------------------------------------------------------------

  /** A valid string that std::stold can read: its hour field is not empty either. */
  predicate IsParsableTc(tc: string)
  {
    IsValidTc(tc) && Fields(tc)[0] != []
  }

  /** Every field of a parsable string is a non-empty numeral. */
  lemma ParsableFields(tc: string)
    requires IsParsableTc(tc)
    ensures |Fields(tc)| == 4
    ensures forall k :: 0 <= k < 4 ==> Fields(tc)[k] != [] && AllDigits(Fields(tc)[k])
  {
  }

  /** The empty hour field passes valid_tcstring, but std::stold cannot read it. */
  lemma EmptyHourAccepted()
    ensures IsValidTc(":00:00:00")
    ensures !IsParsableTc(":00:00:00")
  {
    var empty, zero := "", "00";
    ValidIffParts(empty, zero, zero, zero, ':');
    assert ":00:00:00" == empty + [':'] + zero + [':'] + zero + [':'] + zero;
  }

  /** The value of field k, as std::stold reads it. */
  function FieldValue(fields: seq<string>, k: nat): real
    requires k < |fields| && fields[k] != [] && AllDigits(fields[k])
  {
    StringToFloat(fields[k])
  }

  predicate Numerals(fields: seq<string>, n: nat)
  {
    n <= |fields| && forall k :: 0 <= k < n ==> fields[k] != [] && AllDigits(fields[k])
  }

  /** The first n fields read as numbers and weighted by the first n coefficients. */
  function WeightedSum(fields: seq<string>, coefs: seq<real>, n: nat): real
    requires Numerals(fields, n) && n <= |coefs|
  {
    if n == 0 then 0.0 else WeightedSum(fields, coefs, n - 1) + FieldValue(fields, n - 1) * coefs[n - 1]
  }

  /**
   * The ticks of a parsable string: the four fields, in order, weighted by
   * the chunk weights. That is chunks_to_total_ticks of the four numbers.
   */
  function StringTicks(tc: string, fps: real): (ticks: real)
    requires IsParsableTc(tc) && fps > 0.0
    ensures
      ticks == ChunksToTotalTicks(FieldValue(Fields(tc), 0), FieldValue(Fields(tc), 1),
                                  FieldValue(Fields(tc), 2), FieldValue(Fields(tc), 3), fps)
  {
    ParsableFields(tc);
    var fs, w := Fields(tc), TicksByChunk(fps);
    assert WeightedSum(fs, w, 1) == FieldValue(fs, 0) * w[0];
    assert WeightedSum(fs, w, 2) == FieldValue(fs, 0) * w[0] + FieldValue(fs, 1) * w[1];
    assert WeightedSum(fs, w, 3) == FieldValue(fs, 0) * w[0] + FieldValue(fs, 1) * w[1] + FieldValue(fs, 2) * w[2];
    WeightedSum(fs, w, 4)
  }

  /** tcstring_to_ticks: one pass over the fields, accumulating value times weight. */
  method TcStringToTicks(tc: string, fps: real) returns (ticks: real)
    requires IsParsableTc(tc) && fps > 0.0
    ensures ticks == StringTicks(tc, fps)
  {
    var dropframe := IsTcStringDropframe(tc);
    var delim := if dropframe then ';' else ':';
    var coefs := TicksByChunk(fps);
    ticks := 0.0;
    var fields := Split(tc, delim);
    ParsableFields(tc);
    assert fields == Fields(tc) && Numerals(fields, 4);
    var i := 0;
    while i < |fields|
      invariant 0 <= i <= |fields| == 4
      invariant ticks == WeightedSum(fields, coefs, i)
    {
      var term := StringToFloat(fields[i]) * coefs[i];
      WeightedSumStep(fields, coefs, i, term);
      ticks := ticks + term;
      i := i + 1;
    }
    StringTicksSum(tc, fps);
  }

  lemma WeightedSumStep(fields: seq<string>, coefs: seq<real>, i: nat, term: real)
    requires Numerals(fields, i + 1) && i < |coefs|
    requires term == StringToFloat(fields[i]) * coefs[i]
    ensures WeightedSum(fields, coefs, i + 1) == WeightedSum(fields, coefs, i) + term
  {
  }

  lemma StringTicksSum(tc: string, fps: real)
    requires IsParsableTc(tc) && fps > 0.0
    ensures Numerals(Fields(tc), 4) && StringTicks(tc, fps) == WeightedSum(Fields(tc), TicksByChunk(fps), 4)
  {
    ParsableFields(tc);
  }

  // ---------------------------------------------------------------------
  // Round trips between strings and ticks
  // ---------------------------------------------------------------------

  /** A two-digit field reads and prints back as itself. */
  lemma TwoDigitCanonical(field: string)
    requires |field| == 2 && AllDigits(field)
    ensures Pad2(NatToString(DecimalValue(field))) == field
  {
    var hi := DigitValue(field[0]);
    var lo := DigitValue(field[1]);
    assert field[..1] == [field[0]];
    assert DecimalValue([field[0]]) == hi by {
      assert [field[0]][..0] == [];
    }
    var v := DecimalValue(field);
    assert v == 10 * hi + lo;
    assert DigitChar(lo) == field[1];
    if hi == 0 {
      assert field[0] == '0';
      assert NatToString(v) == [DigitChar(lo)];
    } else {
      assert v / 10 == hi && v % 10 == lo;
      assert NatToString(hi) == [DigitChar(hi)];
      assert DigitChar(hi) == field[0];
      assert NatToString(v) == [field[0]] + [field[1]];
    }
  }

  /** A number below 100 prints as exactly two digits. */
  lemma TwoDigitField(n: nat)
    requires n < 100
    ensures |Pad2(NatToString(n))| == 2
    ensures AllDigits(Pad2(NatToString(n))) && DecimalValue(Pad2(NatToString(n))) == n
  {
    Pad2Digits(NatToString(n));
  }

  /** The canonical layout of (h, m, s, f) is parsable and parses to the ticks of (h, m, s, f). */
  lemma LayoutParses(h: nat, m: nat, s: nat, f: nat, fps: real)
    requires m < 100 && s < 100 && f < 100 && fps > 0.0
    ensures IsParsableTc(Layout(h, m, s, f))
    ensures StringTicks(Layout(h, m, s, f), fps) ==
            ChunksToTotalTicks(h as real, m as real, s as real, f as real, fps)
  {
    var hs, ms, ss, fs := Pad2(NatToString(h)), Pad2(NatToString(m)), Pad2(NatToString(s)), Pad2(NatToString(f));
    Pad2Digits(NatToString(h));
    TwoDigitField(m);
    TwoDigitField(s);
    TwoDigitField(f);
    NoSeparatorsInDigits(hs);
    NoSeparatorsInDigits(ms);
    NoSeparatorsInDigits(ss);
    NoSeparatorsInDigits(fs);
    var tc := Layout(h, m, s, f);
    assert tc == hs + [':'] + ms + [':'] + ss + [':'] + fs;
    assert ';' !in tc;
    SplitOfFour(hs, ms, ss, fs, ':');
    assert Fields(tc) == [hs, ms, ss, fs];
  }

  /** A parsable ':' string with a canonical hour field is the layout of its own field values. */
  lemma CanonicalLayout(tc: string)
    requires IsParsableTc(tc) && ';' !in tc
    requires Pad2(NatToString(DecimalValue(Fields(tc)[0]))) == Fields(tc)[0]
    ensures Layout(DecimalValue(Fields(tc)[0]), DecimalValue(Fields(tc)[1]),
                   DecimalValue(Fields(tc)[2]), DecimalValue(Fields(tc)[3])) == tc
  {
    var fs := Fields(tc);
    TwoDigitCanonical(fs[1]);
    TwoDigitCanonical(fs[2]);
    TwoDigitCanonical(fs[3]);
    assert fs == [fs[0], fs[1], fs[2], fs[3]];
    JoinOfFour(fs[0], fs[1], fs[2], fs[3], [':']);
  }

  /**
   * string -> ticks -> string: a parsable ':' string whose hour field has no
   * superfluous leading zero, with minutes and seconds below 60 and frames
   * below the rate, is rendered back unchanged.
   */
  lemma StringTicksRoundTrip(tc: string, fps: real)
    requires IsParsableTc(tc) && ';' !in tc && fps > 0.0
    requires Pad2(NatToString(DecimalValue(Fields(tc)[0]))) == Fields(tc)[0]
    requires DecimalValue(Fields(tc)[1]) < 60 && DecimalValue(Fields(tc)[2]) < 60
    requires (DecimalValue(Fields(tc)[3]) as real) < fps
    ensures TicksToString(StringTicks(tc, fps), fps) == tc
  {
    var fs := Fields(tc);
    var h, m, s, f := DecimalValue(fs[0]), DecimalValue(fs[1]), DecimalValue(fs[2]), DecimalValue(fs[3]);
    assert StringTicks(tc, fps) == ChunksToTotalTicks(h as real, m as real, s as real, f as real, fps);
    TicksToStringOfChunks(h, m, s, f, fps);
    CanonicalLayout(tc);
  }

  /** ticks -> string -> ticks: the rendered text of (h, m, s, f) parses back to the same ticks. */
  lemma TicksStringRoundTrip(h: nat, m: nat, s: nat, f: nat, fps: real)
    requires m < 60 && s < 60 && f < 100 && (f as real) < fps
    ensures var ticks := ChunksToTotalTicks(h as real, m as real, s as real, f as real, fps);
      IsParsableTc(TicksToString(ticks, fps)) && StringTicks(TicksToString(ticks, fps), fps) == ticks
  {
    TicksToStringOfChunks(h, m, s, f, fps);
    LayoutParses(h, m, s, f, fps);
  }

  // ---------------------------------------------------------------------
  // Concrete strings
  // ---------------------------------------------------------------------

  /** The empty string and a non-digit field are rejected. */
  lemma RejectedStrings()
    ensures !IsValidTc("")
    ensures !IsValidTc("aa:00:00:00")
  {
    ValidIffParts("aa", "00", "00", "00", ':');
    assert "aa:00:00:00" == "aa" + [':'] + "00" + [':'] + "00" + [':'] + "00";
    assert !IsDigit("aa"[0]);
  }

  /**
   * A ';' anywhere makes ';' the only delimiter: "00;00;00;00" is valid and
   * "00:00:00;00" splits into two fields and is rejected.
   */
  lemma DropFrameDelimiter()
    ensures IsValidTc("00;00;00;00") && Delim("00;00;00;00") == ';'
  {
    var zero := "00";
    ValidIffParts(zero, zero, zero, zero, ';');
    assert "00;00;00;00" == zero + [';'] + zero + [';'] + zero + [';'] + zero;
  }

  /**
   * One ';' among ':' delimiters makes ';' the only delimiter: the string
   * then has two fields and is rejected.
   */
  lemma MixedDelimitersRejected(a: string, b: string)
    requires ';' !in a && ';' !in b
    ensures Delim(a + [';'] + b) == ';'
    ensures |Fields(a + [';'] + b)| == 2 && !IsValidTc(a + [';'] + b)
  {
    var tc := a + [';'] + b;
    assert tc[|a|] == ';';
    SplitOfTwo(a, b, ';');
  }

  lemma MixedDelimitersExample()
    ensures !IsValidTc("00:00:00;00")
  {
    var head := "00:00:00";
    var tail := "00";
    assert "00:00:00;00" == head + [';'] + tail;
    MixedDelimitersRejected(head, tail);
  }
}
