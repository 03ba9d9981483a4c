# BF-117 multimeter stream decoder, modelled in Dafny

The `bf117.py` script reads the serial stream of a BF-117 digital multimeter
and prints one reading per frame it receives. This project models its decoding
pipeline and proves properties of it:

- **Digit decoding** (`digits.dfy`, module `Digits`). A digit byte shows a
  seven-segment pattern in its low seven bits. The pattern is looked up in a
  fixed table of ten patterns, and one that is not in the table shows 0. Bit
  0x80 is never part of the pattern.
- **Frame synchronisation** (`frame_sync.dfy`, module `FrameSync`, pure
  specification). Bytes are read one at a time into a buffer. An attempt stops
  at the terminator 0x55, or once the buffer is longer than 22 bytes (the test
  runs after the append), or at the end of input. A buffer of at least 22
  bytes that ends in 0x55 is a frame. Any other buffer is dropped, and the next
  attempt starts with an empty buffer at the next unread byte.
- **The script's loop** (`meter.dfy`, module `Meter`, imperative). `Run` reads
  the input with a position index, collects buffers with `ReadBuffer`, drops
  the bad ones and decodes each frame. It is proved to produce exactly
  `Frames(input)` and the decoding of each frame.
- **Frame decoding** (`decoder.dfy`, module `Decoder`). Bit 0x80 of byte 8
  gives the sign. Bytes 7, 6, 5 and 4 hold the digits, most significant first.
  The first digit byte with bit 0x80 set places a sticky decimal point. Bytes
  17 and 18 select a multiplier prefix with a first-match-wins chain, and bytes
  18 and 19 select a unit the same way. `AssembleValue` is the digit loop with
  its running value, power and decimal flag. `DecodeFrame` is proved equal to
  the pure `Decode`.

Bytes are `bv8`. The input is a `seq<bv8>`, and the end of the sequence stands
for the read that returns no byte. A reading is kept exact: a sign, an integer
mantissa, an integer power of ten, a prefix and a unit. `Reading.Value()` gives
its exact value. Line 141 computes the same number exactly as an integer when
the power is at least 0, and as a float, possibly rounded, when it is negative.

Some details of `bf117.py` that the model keeps as written:
- A 23-byte buffer is accepted when its 23rd byte is 0x55, because the length
  test at line 59 runs after the append and the tests at lines 64 and 69 only
  ask for at least 22 bytes and a final 0x55.
- The unit chain at lines 120-133 tests F, °F, °C, Hz, %, V, A, in that order.
- The script reads no mode flags and no bargraph from the frame.
- The nano and micro prefixes shift the exponent by -12 and -9 (lines 104-109).

## Model

| member | source | states |
|---|---|---|
| `Digits.Digit` | bf117.py:24-29 | The digit decoded from any byte is in 0..9. |
| `Digits.DigitMeaning` | bf117.py:24-29 | When the low seven bits are a table pattern, the digit is that pattern's table position; otherwise it is 0. |
| `Digits.IndexOf` | bf117.py:27-28 | Returns the position of the first occurrence of the value, as `list.index` does, or the length of the list when the value is absent. |
| `Digits.SegmentsDistinct` | bf117.py:21 | No two table entries are equal, so a pattern names at most one digit. |
| `Digits.SegmentsUnmarked` | bf117.py:21 | No table pattern has bit 0x80 set. |
| `Digits.DigitOfSegment` | bf117.py:21-29 | For each i in 0..9, the table pattern of i decodes to i, with or without bit 0x80. |
| `Digits.DigitIgnoresMarker` | bf117.py:26 | Setting or masking off bit 0x80 never changes the decoded digit. |
| `FrameSync.AttemptEnd` | bf117.py:54-62 | An attempt stops right after the first terminator, or after the 23rd byte, whichever comes first. It finds no end exactly when the input holds at most 22 more bytes and none of them is a terminator. |
| `FrameSync.Accepted` | bf117.py:64-70 | Definition: a collected buffer is kept exactly when it has at least 22 bytes and its last byte is 0x55. |
| `FrameSync.FramesFrom` | bf117.py:51-70 | Definition: the frames found from a position are those of the attempt starting there, when accepted, followed by those found from where it stopped; the input running out ends the list. `Meter.Run` is proved equal to it. |
| `FrameSync.Frames` | bf117.py:51-70 | Definition: the frames of a whole input are those found from position 0. |
| `FrameSync.FramesFromCount` | bf117.py:54-70 | From any position, 22 times the number of frames found is at most the number of bytes left, since every frame uses at least 22 bytes of its own. |
| `FrameSync.FramesCount` | bf117.py:51-70 | An input of n bytes holds at most n / 22 frames. |
| `FrameSync.FramesFromStep` | bf117.py:64-70 | An attempt that ends at e contributes its buffer when the buffer is accepted (at least 22 bytes, last byte 0x55) and nothing otherwise, and an accepted buffer is well formed. Either way scanning resumes at e. |
| `FrameSync.FramesFromWellFormed` | bf117.py:54-70 | Every frame found from any position has 22 or 23 bytes, ends in 0x55 and has no earlier 0x55. |
| `FrameSync.FramesWellFormed` | bf117.py:54-70 | Every frame of a whole input is well formed in that sense. |
| `FrameSync.AcceptAtTwentyTwo` | bf117.py:54-70 | A terminator read as the 22nd byte, with none before it, yields a 22-byte frame; scanning resumes at the next byte. |
| `FrameSync.AcceptAtTwentyThree` | bf117.py:58-70 | With no terminator in the first 22 bytes and a terminator as the 23rd, the overflowing buffer is still accepted, as a 23-byte frame. |
| `FrameSync.DropShort` | bf117.py:64-68 | A terminator met before the 22nd byte drops the buffer. The next attempt starts right after that terminator, so the dropped bytes are not rescanned. |
| `FrameSync.DropOverflow` | bf117.py:59-70 | 23 bytes without a terminator are dropped. The next attempt starts at the 24th byte. |
| `FrameSync.NoPartialFrame` | bf117.py:55-57 | When the input ends inside an attempt, that partial buffer never becomes a frame. |
| `FrameSync.OneFrame` | bf117.py:51-70 | 21 non-terminator bytes followed by 0x55 yield exactly one frame, the whole input. |
| `FrameSync.ResyncAfterOverflow` | bf117.py:51-70 | 23 junk bytes followed by a valid 22-byte frame yield exactly that frame. |
| `Meter.ReadBuffer` | bf117.py:52-62 | The accumulation loop reports end of input exactly when the specification's attempt finds no end. Otherwise it returns the buffer `input[start..pos]` and stops where the specification says. |
| `Meter.Run` | bf117.py:50-70 | The script's loop emits exactly `Frames(input)`. Every emitted frame is well formed, and the reading produced for each frame is `Decode` of that frame. |
| `Decoder.FirstPointFrom` | bf117.py:91-97 | Finds the first digit position, at or after k in the visiting order 7, 6, 5, 4, whose byte has bit 0x80 set, or returns 4 when there is none. |
| `Decoder.DecimalExponent` | bf117.py:91-97 | The exponent is in [-4, 0]. It is 0 exactly when no digit byte is marked. Otherwise the first marked position is 4 + e, and no earlier position is marked. |
| `Decoder.Mantissa` | bf117.py:91-100 | The mantissa is `1000*digit(data[7]) + 100*digit(data[6]) + 10*digit(data[5]) + digit(data[4])`, so it lies in 0..9999. |
| `Decoder.AssembleValue` | bf117.py:78-100 | The loop's results: negative exactly when bit 0x80 of byte 8 is set; the value equals `Mantissa`, the four-digit place-value sum; the power equals `DecimalExponent`. |
| `Decoder.PointIsSticky` | bf117.py:92-97 | Markers after the first marked digit byte do not change the exponent. |
| `Decoder.Prefix.Shift` | bf117.py:104-118 | The exponent change of a prefix lies in [-12, 6]. It is 0 exactly when no prefix was chosen. |
| `Decoder.SelectPrefix` | bf117.py:104-118 | The chosen prefix's indicator bit is set, and no earlier prefix in the test order n, µ, m, k, M is indicated. With no indicated prefix the result is NoPrefix. |
| `Decoder.PrefixChoiceUnique` | bf117.py:104-118 | Exactly one prefix is indicated with no indicated predecessor: the one `SelectPrefix` returns. |
| `Decoder.SelectUnit` | bf117.py:120-133 | The chosen unit's indicator bit is set, and no earlier unit in the test order F, °F, °C, Hz, %, V, A is indicated. With no indicated unit the result is NoUnit. |
| `Decoder.UnitChoiceUnique` | bf117.py:120-133 | Exactly one unit is indicated with no indicated predecessor: the one `SelectUnit` returns. |
| `Decoder.VoltBeforeAmpere` | bf117.py:130-133 | With both the volt bit and the ampere bit set, the unit is never ampere. When in addition none of F, °F, °C, Hz and % is indicated, the unit is volt. |
| `Decoder.Reading.Magnitude` | bf117.py:141 | The absolute value mantissa × 10^exponent, computed exactly. It is never negative, and it is 0 exactly when the mantissa is 0. |
| `Decoder.Reading.Value` | bf117.py:141 | The magnitude, negated when the sign bit was set. The value is negative exactly when the sign is set and the mantissa is not 0, and positive exactly when the sign is clear and the mantissa is not 0. |
| `Decoder.ValueScale` | bf117.py:141 | Writing the number with one more trailing zero and the exponent one lower never changes the value, for every reading and every exponent sign. |
| `Decoder.Decode` | bf117.py:78-133 | The reading's mantissa is at most 9999, and its total exponent (decimal point plus prefix) lies in [-16, 6]. |
| `Decoder.DecodeFrame` | bf117.py:78-133 | The step-by-step decoding of a frame equals `Decode`. |
| `Decoder.SampleDigits` | bf117.py:21-29 | The patterns 0x06, 0x6b, 0x2f and 0x36 show 1, 2, 3 and 4. With bit 0x80 added, 0x2f still shows 3. |
| `Decoder.SampleNegative` | bf117.py:85-100 | A frame with the sign bit set, the digits 1, 2, 3, 4 and no marker decodes to -1234 with exponent 0, no prefix and no unit. Its exact value is -1234. |
| `Decoder.SampleDecimal` | bf117.py:91-100 | The same frame with a marker on byte 5 decodes to mantissa 1234 with exponent -2. |
| `Decoder.DecimalValue` | bf117.py:141 | A negative reading with mantissa 1234 and exponent -2 has value -12.34. |

## Left out

- Opening the input (a serial port at 2400 baud, a file, or standard input) is I/O through a foreign library. The input is a byte sequence instead.
- The debug output, the hex dump and the final `print` are output only. They do not affect the decoded values.
- `time.time()` is read but never used.
- The script's infinite loop ends with `exit()` when a read returns nothing. In the model, `Run` returns its frames and readings at that point.
- Ctrl-C handling (`KeyboardInterrupt`) ends the process and contains no decoding logic.
- Line 141 computes the value with `10 ** power`, which gives a float when `power` is negative. The model keeps the exact sign, mantissa and exponent. `Reading.Value()` is the exact rational value, and floating-point rounding is not modelled.
- The label printed after the value is `Reading.Label()`, the prefix symbol followed by the unit symbol. No lemma is stated about this string.
