# Timecode core of vtm, in Dafny

This project models the timecode core of the vtm header library. It covers:

- the frame-rate registry `__FPSFormat`, with its four enum-to-value tables;
- the tick algebra, in which one hour is 36 ticks and one second 0.01 ticks at every rate;
- the timecode strings `HH:MM:SS:FF`: the drop-frame test, the validator, the parser and the renderer;
- the class `__BasicTimecode` as `vtm::timecode` instantiates it (`long long` ticks, `long double` ticks);
- the helpers of `utility.hpp` it relies on: `enum_map` / `map_enum_values`, `duplicate_string`, `duplicate_with_prefix` and `static_conditional_value`.

Modules follow the headers:

| module | file | covers |
|---|---|---|
| `Utility` | `utility.dfy` | `utility.hpp`, plus the field splitting that `std::ranges::split_view` performs |
| `FpsFormat` | `fps.dfy` | the `__FPSFormat` registry and its tables |
| `Decimal` | `decimal.dfy` | `std::isdigit`, the integer digits of `std::to_string`, and `std::stold` on digit strings |
| `Ticks` | `ticks.dfy` | `fps_to_single_tick`, `fps_to_ticks_by_chunk`, `chunks_to_total_ticks`, `ticks_to_chunk_string`, `ticks_to_string` |
| `TcString` | `tcstring.dfy` | `is_tcstring_dropframe`, `valid_tcstring`, `tcstring_to_ticks` |
| `Timecode` | `timecode.dfy` | class `__BasicTimecode` as `BasicTimecode`, with its friends |

How the model represents the source:

- Tick counts in `long double` are exact reals.
- `long long` is the newtype `int64`.
- Wrap-around at 64 bits is written out (`Wrap64`). Clamping is written out too (`Saturate`).
- The union `_value` is a pair of both views, `Value(f, i)`. Writing one member leaves the other unspecified; this is modelled by choosing it arbitrarily, and no contract depends on it.
- Loops in the source are loops in the model: `duplicate_string`, the lookups of `map_enum_values`, `is_tcstring_dropframe`, `valid_tcstring` and `tcstring_to_ticks`.
- Each of those loops is proved against a specification function, and the properties are proved about those functions.

Each of the six defects listed under "## Findings" is modelled both ways. A member modelling the code as written exhibits the defect, and the members the rest of the model and the class use take the evidently intended behaviour:

- `FpsFormat.ToString`, `ToInt`, `ToFloat` and `IsDropFrame` use `Utility.Forward`, which falls back to the table default for `none`; as written, `Utility.ForwardAsWritten` reads past the table.
- `TcString.ValidTcString` checks widths for the first four fields only; as written, `TcString.ScanAsWritten` reads `chunk_sizes[4]` behind a fifth field.
- `BasicTimecode.FromString` and `TcString.TcStringToTicks` take parsable strings (`TcString.IsParsableTc`), whose hour field is not empty; as written, `TcString.EmptyHourAccepted` shows an empty hour passing the validator before `std::stold("")`.
- The class operators saturate (`SaturatingAdd`, `SaturatingSub`) and clamp float differences at `lowest()` (`FloatSub`); as written, `AddAsWritten` and `SubAsWritten` overflow before the clamp, and `FloatSubAsWritten` clamps at `min()`.

Where the code and its documentation disagree otherwise, the model follows the code:

- A string holding a `;` is split on `;` only. So `HH:MM:SS;FF` is rejected and `HH;MM;SS;FF` is accepted (`TcString.DropFrameDelimiter`, `TcString.MixedDelimitersRejected`).
- `dropframe()` is false for every timecode built by a constructor or a factory. The default member initializer of `_dropframe` runs before the body sets the rate. The copy constructor is the exception: it initializes `_fps` first, so its flag follows the copied rate.
- Moving from a timecode resets its rate to `{}`, which is `fps_24`, not the default `fps_25`.
- `set_value(const __BasicTimecode&)` always ends in integral mode, because its floating branch has no `else`. So `+=` and `-=` always leave the timecode integral, and `tc + tc` keeps the integer sum only.
- `display()` always returns `"00:00:00:00"`.

## Model

| member | source | states |
|---|---|---|
| `Utility.Split` | include/timecode.hpp:279-280 | the fields between delimiters, as split_view yields them: joining them with the delimiter gives the input back, no field holds the delimiter, and an empty input has no fields |
| `Utility.SplitJoin` | include/timecode.hpp:279-280 | splitting undoes joining for a non-empty join of fields without the delimiter |
| `Utility.Repeated` | include/utility.hpp:52-64 | `n` copies are `n` times as long as the base plus `n - 1` separators; nothing for `n <= 0` |
| `Utility.RepeatedIsJoinOfCopies` | include/utility.hpp:52-64 | the repeated string is exactly `n` copies of the base, with one separator between consecutive copies |
| `Utility.DuplicateString` | include/utility.hpp:52-64 | the loop appending a copy, then a separator unless it was the last copy, yields the repeated string |
| `Utility.DuplicateWithPrefix` | include/utility.hpp:66-72 | the prefix followed by `size` space-separated copies; just the prefix when `size <= 0` |
| `Utility.StaticConditionalValue` | include/utility.hpp:187-192 | the first value when the condition holds, the second otherwise |
| `Utility.ForwardAsWritten` | include/utility.hpp:130-138 | the forward lambda is undefined exactly when the first matching enumerator has no mapped value, since `values[i]` would be read past the end |
| `Utility.Forward` | include/utility.hpp:130-138 | the value paired with the first matching enumerator; `default_out` when no mapped enumerator matches; and it agrees with the lambda wherever the lambda is defined |
| `Utility.Reverse` | include/utility.hpp:140-148 | the enumerator paired with the first matching value; `default_enum` when no value matches |
| `Utility.LookupForward` | include/utility.hpp:130-138 | the lambda's linear search computes `Forward` |
| `Utility.LookupReverse` | include/utility.hpp:140-148 | the lambda's linear search computes `Reverse` |
| `Utility.ReverseUndoesForward` | include/utility.hpp:129-149 | with distinct enumerators and values, the reverse lookup gives back every mapped enumerator |
| `Utility.ForwardUndoesReverse` | include/utility.hpp:129-149 | with distinct enumerators and values, the forward lookup gives back every mapped value |
| `FpsFormat.Ordinal` | include/timecode.hpp:128-136 | each format sits at its declaration position in the enumerator list |
| `FpsFormat.EnumeratorsDistinct` | include/timecode.hpp:128-136 | the enumerators are pairwise distinct |
| `FpsFormat.ToString` | include/timecode.hpp:179-183 | the display name of each format from the name table; `"NONE"` for `none` |
| `FpsFormat.ToInt` | include/timecode.hpp:167-171 | the integer rate of each format (29 for both 29.97 formats); 0 for `none` |
| `FpsFormat.ToFloat` | include/timecode.hpp:173-177 | the floating rate of each format; it is positive exactly for the formats other than `none` |
| `FpsFormat.IsDropFrame` | include/timecode.hpp:147-150 | true exactly for `fpsdf_29p97` |
| `FpsFormat.RatesMissing` | include/timecode.hpp:55-83 | a value missing from a table's list is the value of no format but `none` |
| `FpsFormat.FromInt` | include/timecode.hpp:152-155 | a format having the integer rate, or `none` when no format has it; never the drop-frame format |
| `FpsFormat.FromFloat` | include/timecode.hpp:157-160 | a format having the floating rate, or `none` when no format has it; never the drop-frame format |
| `FpsFormat.FromString` | include/timecode.hpp:162-165 | the format with that name, or `none` when no format has it |
| `FpsFormat.FromDropFrame` | include/timecode.hpp:85-98 | the reverse lookup of the drop-frame table: `fpsdf_29p97` for true, `fps_24` for false |
| `FpsFormat.DefaultValue` | include/timecode.hpp:142-145 | the default format is `fps_25`, the one whose integer rate is `VTM_TIMECODE_FPS_DEFAULT` |
| `FpsFormat.NameRoundTrip` | include/timecode.hpp:162-165 | looking up a format's name gives the format back, `none` included |
| `FpsFormat.IntRoundTrip` | include/timecode.hpp:152-171 | looking up a format's integer rate gives the format back, except that drop-frame 29.97 comes back as non-drop 29.97 |
| `FpsFormat.FloatRoundTrip` | include/timecode.hpp:157-177 | the same holds for the floating rate |
| `FpsFormat.LookupToFloat` | include/timecode.hpp:173-177 | the linear search of the float table computes `ToFloat` |
| `FpsFormat.LookupFromInt` | include/timecode.hpp:152-155 | the linear search of the int table computes `FromInt` |
| `FpsFormat.NoneReadsPastEveryTable` | include/utility.hpp:130-138 | as written, the forward lookup of `none` reads past the end of each of the four tables |
| `FpsFormat.TablesMatchRows` | include/timecode.hpp:42-98 | the four tables are well formed over the enumerators in declaration order, hold at the position of each format other than `none` that format's name, integer rate, floating rate and drop-frame flag, and fall back to `none` with `"NONE"`, 0, 0.0 and false |
| `FpsFormat.NoneReadsAsDefaults` | include/timecode.hpp:42-98 | with the fallback, `none` reads as `"NONE"`, 0, 0.0 and false |
| `Decimal.NatToString` | include/timecode.hpp:231-232 | the integer digits of a natural number: at least one digit, denoting the number, one digit exactly below 10 |
| `Decimal.StringToFloat` | include/utility.hpp:40-47 | `std::stold` of a digit string is exactly the decimal value of its digits, a non-negative whole number |
| `Ticks.SingleTick` | include/timecode.hpp:188-193 | one frame is positive and `fps` frames make 0.01 ticks |
| `Ticks.TicksByChunk` | include/timecode.hpp:208-218 | four weights: a frame, a second of 0.01, a minute of 60 seconds and an hour of 60 minutes, which is 36 ticks |
| `Ticks.ChunksToTotalTicks` | include/timecode.hpp:197-205 | the total is the weighted sum of hours, minutes, seconds and frames by the chunk weights |
| `Ticks.Fmod` | include/timecode.hpp:248-250 | `std::fmod`: the remainder keeps the sign of the dividend, lies below the divisor in magnitude, and leaves a truncated quotient |
| `Ticks.RoundHalfAway` | include/timecode.hpp:228 | `std::round`: within one half of the input, halfway cases away from zero |
| `Ticks.RoundMonotone` | include/timecode.hpp:228 | rounding never reverses the order of two values |
| `Ticks.Pad2Digits` | include/timecode.hpp:234 | the padding keeps a digit string's value and makes it at least two characters |
| `Ticks.IntegerDigits` | include/timecode.hpp:231-232 | the characters before the `.`: digits denoting the floor for a non-negative input, and never a delimiter |
| `Ticks.TicksToChunkString` | include/timecode.hpp:222-235 | a field of at least two characters without delimiters; for non-negative ticks, the number of whole chunks, or 0 when the rounded count is above the exact count |
| `Ticks.RoundedUpFramePrintsZero` | include/timecode.hpp:228-230 | a frame count that rounds up prints as `"00"` |
| `Ticks.TicksToString` | include/timecode.hpp:239-254 | four `:`-separated fields and no `;` |
| `Ticks.JoinFourFields` | include/timecode.hpp:253 | the four fields joined with `:` split back into the same four fields |
| `Ticks.TicksToStringOfChunks` | include/timecode.hpp:239-254 | the ticks of (h, m, s, f) render as the zero-padded fields of (h, m, s, f), for minutes and seconds below 60 and frames below the rate |
| `TcString.IsTcStringDropframe` | include/timecode.hpp:258-266 | true exactly when the string holds a `;` |
| `TcString.IsValidTc` | include/timecode.hpp:268-294 | the definition the validator is proved against: non-empty, four fields, the last three two wide, all digits; its properties are the lemmas below |
| `TcString.FieldsOkValid` | include/timecode.hpp:276-293 | for four fields, passing every field check is the same as being a valid timecode string |
| `TcString.FailedFieldInvalid` | include/timecode.hpp:285-288 | one failed field check makes the string invalid |
| `TcString.ValidIffParts` | include/timecode.hpp:268-294 | four parts joined by `:` or by `;` split back into the parts; the string is valid exactly when the last three parts are two digits each and the first is all digits, of any width |
| `TcString.ValidTcString` | include/timecode.hpp:268-294 | the validator's loop, with the width check limited to four fields, returns true exactly for valid timecode strings |
| `TcString.ValidAsWrittenAgrees` | include/timecode.hpp:268-294 | the validator as written agrees with `IsValidTc` wherever it is defined, and it is defined on every string of at most four fields |
| `TcString.ScanAsWritten` | include/timecode.hpp:279-293 | the validator's loop as written, from field `count` on: `None` where it would read `chunk_sizes` past four entries; related to `IsValidTc` by `ScanAgrees` |
| `TcString.ValidAsWritten` | include/timecode.hpp:268-294 | `valid_tcstring` as written: false for the empty string, otherwise the scan from field 0; related to `IsValidTc` by `ValidAsWrittenAgrees` |
| `TcString.ScanAgrees` | include/timecode.hpp:279-293 | the same, from any field of the scan on |
| `TcString.FifthFieldReadsPastChunkSizes` | include/timecode.hpp:276-283 | behind four well-formed fields, a fifth field makes the validator as written read `chunk_sizes[4]`; the string is invalid |
| `TcString.ParsableFields` | include/timecode.hpp:303-313 | every field of a parsable string is a non-empty numeral |
| `TcString.EmptyHourAccepted` | include/timecode.hpp:268-294 | `":00:00:00"` passes the validator, but its empty hour field cannot be read by `std::stold` |
| `TcString.IsParsableTc` | include/timecode.hpp:296-316 | the precondition the parser is modelled under: a valid string whose hour field is not empty either, so `std::stold` can read every field (see `ParsableFields`) |
| `TcString.StringTicks` | include/timecode.hpp:296-316 | the ticks of a parsable string are `chunks_to_total_ticks` of its four field values |
| `TcString.TcStringToTicks` | include/timecode.hpp:296-316 | the parser's accumulation loop computes `StringTicks` |
| `TcString.TwoDigitCanonical` | include/timecode.hpp:234 | a two-digit field prints back as itself |
| `TcString.TwoDigitField` | include/timecode.hpp:234 | a number below 100 prints as two digits denoting it |
| `TcString.LayoutParses` | include/timecode.hpp:296-316 | the canonical text of (h, m, s, f) is parsable and parses to the ticks of (h, m, s, f) |
| `TcString.CanonicalLayout` | include/timecode.hpp:296-316 | a parsable `:` string with a canonical hour field is the layout of its own field values |
| `TcString.StringTicksRoundTrip` | include/timecode.hpp:239-316 | string to ticks to string gives a canonical string back, for minutes and seconds below 60 and frames below the rate |
| `TcString.TicksStringRoundTrip` | include/timecode.hpp:239-316 | ticks to string to ticks gives the ticks of any (h, m, s, f) back, for minutes and seconds below 60 and frames below both 100 and the rate |
| `TcString.RejectedStrings` | include/timecode.hpp:272-288 | the empty string and a non-digit field are rejected |
| `TcString.DropFrameDelimiter` | include/timecode.hpp:277 | a string that holds a `;` uses `;` as its delimiter, so `"00;00;00;00"` is valid |
| `TcString.MixedDelimitersRejected` | include/timecode.hpp:277 | for any two parts without `;`, joining them with one `;` makes `;` the delimiter and gives two fields, so the string is invalid |
| `TcString.MixedDelimitersExample` | include/timecode.hpp:277 | `"00:00:00;00"` is invalid |
| `Timecode.LongDoubleLimits` | include/timecode.hpp:642-677 | the `long double` limits used by the clamps: `max()` is at least 1 and `min()` lies in (0, 1] |
| `Timecode.Wrap64` | include/timecode.hpp:646-649 | a 64-bit sum equals the exact sum when that is in range, and is `2^64` off on the side it overflows |
| `Timecode.Saturate` | include/timecode.hpp:646-683 | clamping into the 64-bit range: identity inside, the nearer bound outside |
| `Timecode.AddAsWritten` | include/timecode.hpp:646-649 | `std::min(max(), v + x)` as written: the exact sum in range; past `max()` the wrapped sum, `2^64` lower; below `min()` the wrapped sum, `2^64` higher |
| `Timecode.SubAsWritten` | include/timecode.hpp:680-683 | `std::max(min(), v - x)` as written: the exact difference in range; past either bound the difference wrapped by `2^64` |
| `Timecode.AddOverflowWraps` | include/timecode.hpp:646-649 | as written, `max() + 1` wraps to `min()` before the clamp |
| `Timecode.SubOverflowWraps` | include/timecode.hpp:680-683 | as written, `min() - 1` wraps to `max()` before the clamp |
| `Timecode.SaturatingAdd` | include/timecode.hpp:646-649 | the sum clamped at `max()` for a non-negative addend, and at `min()` for a negative one |
| `Timecode.SaturatingSub` | include/timecode.hpp:680-683 | the difference clamped at `min()` for a non-negative subtrahend, and at `max()` for a negative one |
| `Timecode.SaturatingAgreesWithoutOverflow` | include/timecode.hpp:646-683 | without overflow, the code as written and the saturating operations agree |
| `Timecode.FloatAdd` | include/timecode.hpp:641-644 | the sum, clamped at `numeric_limits<long double>::max()`: the exact sum up to `max()`, and `max()` from there on |
| `Timecode.FloatSubAsWritten` | include/timecode.hpp:675-678 | `std::max(min(), f - x)` as written: never below `min()`, the exact difference from `min()` up, and `min()` below it |
| `Timecode.FloatSubNeverNegative` | include/timecode.hpp:675-678 | as written, the difference is always positive, and `min()` whenever the exact difference is not positive |
| `Timecode.FloatSub` | include/timecode.hpp:675-678 | the intended clamp: never below `lowest()`, the exact difference from `lowest()` up, and `lowest()` below it |
| `Timecode.BasicTimecode.InitialFps` | include/timecode.hpp:758 | the member initializer of the rate gives `fps_25`, the format of the default integer rate 25 |
| `Timecode.BasicTimecode.constructor` | include/timecode.hpp:482 | mode floating, value 0.0, the default format, no drop frame |
| `Timecode.BasicTimecode.FromInt` | include/timecode.hpp:520-525 | integral mode holding the value, at the given format, no drop frame |
| `Timecode.BasicTimecode.FromFloat` | include/timecode.hpp:520-525 | floating mode holding the value, at the given format, no drop frame |
| `Timecode.BasicTimecode.FromView` | include/timecode.hpp:527-530 | the text is ignored: the same state as the default constructor |
| `Timecode.BasicTimecode.Copy` | include/timecode.hpp:485-489 | mode, rate and value copied; the drop-frame flag initialized from the copied rate |
| `Timecode.BasicTimecode.MoveFrom` | include/timecode.hpp:491-499 | mode, rate and value moved; the source reset to floating, `fps_24` and 0.0 |
| `Timecode.BasicTimecode.FromHmsf` | include/timecode.hpp:435-452 | a floating timecode at the rate, holding `chunks_to_total_ticks` of (h, m, s, f) at the rate's floating value |
| `Timecode.BasicTimecode.FromString` | include/timecode.hpp:454-470 | a floating timecode at the rate, holding the ticks of the parsed string |
| `Timecode.BasicTimecode.AsSigned` | include/timecode.hpp:576-584 | the float reading rounded half away from zero, which is the stored integer in integral mode |
| `Timecode.BasicTimecode.AsFloat` | include/timecode.hpp:586-594 | the stored float in floating mode; the stored integer widened in integral mode, which rounds back to that integer |
| `Timecode.BasicTimecode.AsPairIntFloat` | include/timecode.hpp:606-613 | the pair of readings, whose integer part is the rounded float part |
| `Timecode.BasicTimecode.AsString` | include/timecode.hpp:596-604 | four `:`-separated fields without `;`, rendered from the float reading at the format's floating rate |
| `Timecode.BasicTimecode.Display` | include/timecode.hpp:329-333 | the canonical text of zero, which is a parsable timecode string |
| `Timecode.BasicTimecode.SetInt` | include/timecode.hpp:546-558 | integral mode, both readings give the value, rate and flag unchanged |
| `Timecode.BasicTimecode.SetFloat` | include/timecode.hpp:546-558 | floating mode, the float reading is the value and the integer reading its rounding, rate and flag unchanged |
| `Timecode.BasicTimecode.SetValue` | include/timecode.hpp:535-544 | as written: always integral mode, holding the source's integer view |
| `Timecode.BasicTimecode.Reset` | include/timecode.hpp:473-476 | floating zero, rate and flag unchanged |
| `Timecode.BasicTimecode.CopyAssign` | include/timecode.hpp:501-507 | mode, rate and value copied; the drop-frame flag stays |
| `Timecode.BasicTimecode.MoveAssign` | include/timecode.hpp:509-518 | mode, rate and value moved; the source reset to floating, `fps_24` and 0.0 |
| `Timecode.BasicTimecode.PlusInt` | include/timecode.hpp:636-652 | a new integral timecode holding the saturated sum of the integer view, at the same rate (the intended clamp; as written see `AddAsWritten` under Findings) |
| `Timecode.BasicTimecode.PlusFloat` | include/timecode.hpp:636-652 | a new floating timecode holding the clamped sum of the float view, at the same rate |
| `Timecode.BasicTimecode.MinusInt` | include/timecode.hpp:670-686 | a new integral timecode holding the saturated difference of the integer view (the intended clamp; as written see `SubAsWritten` under Findings) |
| `Timecode.BasicTimecode.MinusFloat` | include/timecode.hpp:670-686 | a new floating timecode holding the difference of the float view clamped at `lowest()` (the intended clamp; as written see `FloatSubAsWritten` under Findings) |
| `Timecode.BasicTimecode.Plus` | include/timecode.hpp:704-717 | always integral: the saturated sum of the two integer views (the intended clamp, as for `PlusInt`) |
| `Timecode.BasicTimecode.Minus` | include/timecode.hpp:719-732 | always integral: the saturated difference of the two integer views (the intended clamp, as for `MinusInt`) |
| `Timecode.BasicTimecode.AddAssignInt` | include/timecode.hpp:624-628 | integral, holding the saturated sum |
| `Timecode.BasicTimecode.AddAssignFloat` | include/timecode.hpp:624-628 | always ends integral, rate and flag unchanged |
| `Timecode.BasicTimecode.AddAssign` | include/timecode.hpp:624-628 | integral; from an integral timecode it holds the saturated sum of the integer views |
| `Timecode.BasicTimecode.SubAssignInt` | include/timecode.hpp:630-634 | integral, holding the saturated difference |
| `Timecode.BasicTimecode.SubAssignFloat` | include/timecode.hpp:630-634 | always ends integral, rate and flag unchanged |
| `Timecode.BasicTimecode.SubAssign` | include/timecode.hpp:630-634 | integral; from an integral timecode it holds the saturated difference of the integer views |
| `Timecode.BasicTimecode.Equals` | include/timecode.hpp:735-741 | equal exactly when both readings are equal, that is, exactly when the float readings are equal |
| `Timecode.BasicTimecode.Compare` | include/timecode.hpp:743-753 | less, greater or equal exactly as the integer readings compare |
| `Timecode.RoundOrder` | include/timecode.hpp:748-752 | distinct rounded values come from values in the same order, so both readings never disagree in direction |
| `Timecode.IntPlusTimecode` | include/timecode.hpp:654-668 | `V + tc`: the exact sum with the integer view, when in range |
| `Timecode.IntMinusTimecode` | include/timecode.hpp:688-702 | `V - tc`: the exact difference with the integer view, when in range |
| `Timecode.FloatPlusTimecode` | include/timecode.hpp:654-668 | `V + tc`: the sum with the float reading of a floating timecode |
| `Timecode.FloatMinusTimecode` | include/timecode.hpp:688-702 | `V - tc`: the difference with the float reading of a floating timecode |
| `Timecode.EqualsImpliesCompareEqual` | include/timecode.hpp:735-753 | equal timecodes compare equal |
| `Timecode.AsStringOfChunks` | include/timecode.hpp:596-604 | a timecode holding the ticks of (h, m, s, f) renders as the canonical text of (h, m, s, f) |
| `Timecode.AsStringParsesBack` | include/timecode.hpp:454-470 | the rendered text of such a timecode is parsable and parses back to its ticks |
| `Timecode.LayoutLiterals` | include/timecode.hpp:332 | the canonical texts of zero, one hour and one second |
| `Timecode.ZeroRenders` | tests/timecode.test.cpp:45-47 | zero ticks render as `"00:00:00:00"` at every rate |
| `Timecode.OneHourRenders` | tests/timecode.test.cpp:124-128 | 36 ticks render as `"01:00:00:00"` at every rate |
| `Timecode.OneSecondRenders` | tests/timecode.test.cpp:48-50 | 0.01 ticks render as `"00:00:01:00"` at every rate |
| `Timecode.OneSecondParses` | tests/timecode.test.cpp:34-36 | `"00:00:01:00"` is parsable and parses to 0.01 ticks at every rate |
| `Timecode.InitializationCase` | tests/timecode.test.cpp:9-26 | a test case as a method without a contract: its assertions are those of the test (the default timecode reads 0 and 0.0, `timecode{3.33}` reads 3 and 3.33, the rejected near values are not equal) |
| `Timecode.FactoryHmsfCase` | tests/timecode.test.cpp:30-32 | the test's `from_hmsf(0, 0, 0, 0, ...)` at 24, 25 and 30 fps, through `ZeroHmsfCase` |
| `Timecode.ZeroHmsfCase` | tests/timecode.test.cpp:45-47 | for one rate other than `none`: `from_hmsf(0, 0, 0, 0, rate).as_string()` is `"00:00:00:00"` |
| `Timecode.FactoryStringCase` | tests/timecode.test.cpp:34-50 | `from_string("00:00:01:00").as_string()` is `"00:00:01:00"`; the three string kinds are one `seq<char>` |
| `Timecode.AssignmentCase` | tests/timecode.test.cpp:54-82 | copy assignment gives 998 and 998.0; assigning 69420.69420 and 420.420 reads back those floats and the rounded integers 69421 and 420, and not the near values of the test |
| `Timecode.ComparisonCase` | tests/timecode.test.cpp:84-119 | two timecodes of 690420 are equal both ways; after assigning 69.420 they are unequal both ways and the first orders below the second |
| `Timecode.CoarseOrderCase` | include/timecode.hpp:735-753 | not a test of the source: 3.1 and 3.2 compare equal under `<=>` but are not `==` |
| `Timecode.StringCase` | tests/timecode.test.cpp:121-129 | `timecode{0.0}` renders as `"00:00:00:00"` and `timecode{36.0}` as `"01:00:00:00"` |
| `Timecode.DropFrameCopyCase` | include/timecode.hpp:485-489 | not a test of the source (its drop-frame case, lines 131-135 of the test file, asserts `true == true`): a timecode built at drop-frame 29.97 reports no drop frame, a copy of it does |

## Left out

- Floating point: `long double` arithmetic is exact real arithmetic, so rounding errors of the tick computations are not modelled.
- The 80-bit `long double` limits are those of the x87 format; other platforms' limits are not modelled.
- The float tables hold `29.97` as a `double` literal, which is not exactly the `long double` 29.97; the model uses the exact 29.97.
- `std::to_string` writes six decimals, which `ticks_to_chunk_string` cuts at the `.`. The model takes the floor of the exact quotient instead and does not model the rounding to six decimals: a count of 0.9999999 prints as `"1"` in the source but as `"0"` in the model.
- `std::stold` failing with `invalid_argument` or `out_of_range` is not modelled; `IsParsableTc` keeps the empty field out instead.
- The `report_enum` and `report_out` callbacks only log a warning (`VTM_WARN`), so they are left out.
- `VTM_ASSERT` aborts; the model states its conditions as preconditions (`fps > 0`, non-negative `from_hmsf` arguments, a valid string for `tcstring_to_ticks`).
- `set_fps` calls `fps_factory_t::is_dropframe`, which `__FPSFormat` does not declare, so it could never be instantiated; it is left out.
- `fps()` and `dropframe()` are plain field reads; the model reads the fields `fps` and `dropframe`.
- `operator string_t` and `operator string_view_t` only return `as_string()`.
- Owned strings, views and literals are all `seq<char>`; the separate code paths of `from_string` for them are one method.
- `as_pair` is modelled for `<int_t, float_t>` only, the instantiation the comparisons use. `paired_members::choose` lives in `traits.hpp`, which is not part of this model.
- `operator=` for a number is `SetInt` or `SetFloat`.
- The arithmetic and `V + tc` / `V - tc` are modelled for `V = long long` and `V = long double`; narrower `V` and the narrowing of the result are not modelled.
- Signed overflow is undefined behaviour in C++; in `AddAsWritten`, `SubAsWritten`, `IntPlusTimecode` and `IntMinusTimecode` the model takes it as the usual two's-complement wrap-around (`Wrap64`). The class operators use the saturating clamps of "## Findings" instead.
- The arithmetic operators `+` and `-` build `tmp` and return it; the model assumes the named return value optimisation, so the result's drop-frame flag follows its rate (`r.dropframe == IsDropFrame(fps)` in `PlusInt`, `PlusFloat`, `MinusInt`, `MinusFloat`, `Plus`, `Minus`). Without that optimisation the move constructor runs and the flag is false.
- Timecode.BasicTimecode.AsSigned: it returns an unbounded integer, so the undefined `static_cast` of a rounded float outside the 64-bit range is not modelled.
- Timecode.BasicTimecode.SetValue: when a floating timecode is assigned to itself, the integer view it then copies is unspecified, so the contract does not name the value.
- Timecode.BasicTimecode.AddAssignFloat, Timecode.BasicTimecode.SubAssignFloat: the stored integer is the unspecified integer view of a floating timecode, so the contract does not name it.
- Timecode.BasicTimecode.Plus, Timecode.BasicTimecode.Minus: for a floating left operand the integer views read are unspecified, so the contract names the value only for an integral left operand.
- Timecode.BasicTimecode.AddAssign, Timecode.BasicTimecode.SubAssign: they go through `Plus` and `Minus`, so for a floating left operand the stored integer is unspecified in the same way, and the contract names it only for an integral one.
- `compile_time_string`, `oversized_array`, `to_right_sized_array`, `to_string_view` and `make_static` build compile-time strings; they are not part of this model.
- `io.hpp`, `edlfile.hpp`, `timecode_int.hpp` and `locale.hpp` are not part of this model.

## Findings

| source | as written | input that shows it | evidently intended | confidence | as-written member | corrected member |
|---|---|---|---|---|---|---|
| include/utility.hpp:130-138 | the forward lambda returns `values[i]` at the matching enumerator's position, and `values` holds one entry fewer than there are enumerators (line 159) | `to_float(none)`, or any table looked up with `none` | `none` maps to the table's `default_out` | not executed | `Utility.ForwardAsWritten`, `FpsFormat.NoneReadsPastEveryTable` | `Utility.Forward`, `FpsFormat.NoneReadsAsDefaults` |
| include/timecode.hpp:268-294 | the hour field's width is 0 in `chunk_sizes`, so an empty hour passes the validator; `tcstring_to_ticks` then calls `std::stold("")` (line 312) | `":00:00:00"` | an empty hour field is rejected | not executed | `TcString.EmptyHourAccepted` | `TcString.ParsableFields` |
| include/timecode.hpp:276-283 | `chunk_sizes[chunk_count]` is read before the count of fields is checked | `"00:00:00:00:00"` | the string is rejected without reading past `chunk_sizes` | not executed | `TcString.FifthFieldReadsPastChunkSizes` | `TcString.ValidTcString` |
| include/timecode.hpp:646-649 | `std::min(max(), v + x)` is taken after `v + x` has already overflowed | `v = max()`, `x = 1` | the sum saturates at `max()` | not executed | `Timecode.AddAsWritten`, `Timecode.AddOverflowWraps` | `Timecode.SaturatingAdd` |
| include/timecode.hpp:680-683 | `std::max(min(), v - x)` is taken after `v - x` has already overflowed | `v = min()`, `x = 1` | the difference saturates at `min()` | not executed | `Timecode.SubAsWritten`, `Timecode.SubOverflowWraps` | `Timecode.SaturatingSub` |
| include/timecode.hpp:675-678 | the float difference is clamped at `numeric_limits<long double>::min()`, the smallest positive value | `1.0 - 2.0` gives about 3.4e-4932 instead of -1.0 | the difference is clamped at `lowest()` | not executed | `Timecode.FloatSubAsWritten`, `Timecode.FloatSubNeverNegative` | `Timecode.FloatSub` |
