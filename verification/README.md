# co2mon frame decoder, validator and poll loop in Dafny

A model of the device-independent core of `Co2mon`, a Java client for a USB
HID CO2 sensor that sends obfuscated 8-byte frames on an interrupt endpoint.
The model covers three pieces of `co2java/src/Co2mon.java`.

- **De-obfuscation** (`swap_char`, `shift`, `decode_buf`, and the
  `magic_word_wrapped` loop of the constructor). Module `Codec`, on top of
  `JavaBytes`, which spells out Java's `byte`/`int` semantics:
  - sign extension on promotion (`Widen`);
  - the `(byte)` cast (`Narrow`);
  - arithmetic `>>` (`Sar`);
  - the signed value of a byte (`Signed`);
  - truncating `%` (`JavaRem`).
- **Validation and classification** of a decoded frame: the sentinel byte,
  the 8-bit checksum, the unsigned 16-bit magnitude and the type code. Module
  `Frames`.
- **The `runOnce` poll loop** as a state machine over a finite sequence of
  interrupt transfers. It has a functional form (`Poll`) and an imperative
  form (`RunOnce`) that mirrors the `while` loop and is proved equal to it.
  Module `PollLoop`.

Bytes are `bv8` bit patterns and Java `int`s are `bv32`. Every arithmetic
step of the decoder goes through the same promotion and narrowing as in Java.
Each stage's contract states the result on unsigned bytes. Examples:
- `Shift` is `((b1 & 7) << 5) | (b2 >>> 3)` for every pair of signed bytes.
- The magic word wraps to the nibble swap of each ASCII byte of `"Htemp99e"`.

The decoder's inverse is `Obfuscate`, the sensor-side transform, which the
program does not contain. It is reconstructed as the stage-by-stage inverse.
Round trips in both directions are proved, so decoding is injective. The
shift stage is also proved to be a 3-bit right rotation of the frame read as
a big-endian 64-bit word.

Temperatures are kept exactly, in units of 1/10000 degree Celsius
(`CelsiusE4(m) = 625 m - 2731500`, which is `m * 0.0625 - 273.15` scaled).
The loop's variables start at -1, so the model starts them at -1 ppm and at
-10000 (that is, -1 degree). The exit test `co2 >= 0 && temp >= 0` is an
integer test. For temperature it holds exactly when the raw magnitude is at
least 4371 (`TempThreshold`).

For example, a temperature frame with magnitude bytes 10 00 carries
0x1000 = 4096, which is 4096 * 0.0625 - 273.15 = -17.15 degrees
(`TemperatureExample`).

## Model

| member | source | states |
|---|---|---|
| JavaBytes.UnsignedValue | co2java/src/Co2mon.java:144-145 | `(b + 256) % 256` on the signed value of a byte is the byte's unsigned value |
| Codec.MagicWordIsAscii | co2java/src/Co2mon.java:32 | the magic word holds the character codes of `"Htemp99e"`, all below 0x80 |
| Codec.WrapByte | co2java/src/Co2mon.java:87-88 | `(byte)((w << 4) \| (w >> 4))` is the nibble swap for a byte below 0x80, and has its high nibble flooded with ones otherwise |
| Codec.WrapWord | co2java/src/Co2mon.java:87-88 | the constructor's loop keeps the length and nibble-swaps every byte of an all-ASCII word |
| Codec.WrappedMagicWord | co2java/src/Co2mon.java:87-88 | `magic_word_wrapped` is the nibble swap of each byte of the magic word, namely 84 47 56 D6 07 93 93 56 |
| Codec.SwapChar | co2java/src/Co2mon.java:169-173 | `swap_char` exchanges the two slots and leaves every other slot unchanged |
| Codec.SwapCharKeepsBytes | co2java/src/Co2mon.java:169-173 | a swap keeps the multiset of bytes |
| Codec.Permute | co2java/src/Co2mon.java:184-187 | the four swaps send slot `Partner(i)` to slot `i`, for the transpositions (0 2)(1 4)(3 7)(5 6) |
| Codec.PermuteKeepsBytes | co2java/src/Co2mon.java:184-187 | the permutation stage neither loses nor duplicates a byte |
| Codec.PermuteInvolution | co2java/src/Co2mon.java:184-187 | applying the four swaps twice gives the frame back |
| Codec.XorByte | co2java/src/Co2mon.java:190 | `a ^= b` on bytes is the bitwise XOR of the two bytes |
| Codec.XorStage | co2java/src/Co2mon.java:189-190 | every slot is XORed with the same slot of the table, and an all-zero table leaves the frame unchanged |
| Codec.XorStageInvolution | co2java/src/Co2mon.java:189-190 | XORing with the same table twice gives the frame back |
| Codec.XorWithMagicTableIsIdentity | co2java/src/Co2mon.java:31 | the freshly allocated, all-zero magic table makes the XOR stage the identity |
| Codec.Shift | co2java/src/Co2mon.java:175-181 | `shift(b1, b2)` has the low three bits of `b1` on top and the high five bits of `b2`, unsigned, below |
| Codec.ShiftStage | co2java/src/Co2mon.java:192-199 | `result[i]` is built from slot `(i + 7) mod 8` and slot `i` |
| Codec.ShiftStageBytes | co2java/src/Co2mon.java:192-199 | the eight output bytes of the shift stage written out one by one |
| Codec.WordRotate | co2java/src/Co2mon.java:192-199 | rotating a big-endian word right by three bits moves the low three bits of each byte on top of the next byte, cyclically |
| Codec.ShiftStageIsRotation | co2java/src/Co2mon.java:192-199 | the shift stage is a 3-bit right rotation of the frame read as a big-endian 64-bit word |
| Codec.SubByte | co2java/src/Co2mon.java:201 | `a -= b` on bytes is subtraction modulo 256 |
| Codec.SubtractStage | co2java/src/Co2mon.java:200-201 | every slot has the wrapped magic word's byte subtracted modulo 256 |
| Codec.DecodeBuf | co2java/src/Co2mon.java:183-202 | for any table and wrapped word, output byte `i` has the low three bits of raw byte `Partner((i + 7) mod 8)` XOR its table byte on top of the high five bits of raw byte `Partner(i)` XOR its table byte, minus `wrapped[i]` modulo 256 |
| Codec.Decode | co2java/src/Co2mon.java:183-202 | with the session's all-zero table and wrapped magic word, decoded byte `i` is the low three bits of raw byte `Partner((i + 7) mod 8)` above the high five bits of raw byte `Partner(i)`, minus the nibble-swapped magic word byte, modulo 256 |
| Codec.DecodeStages | co2java/src/Co2mon.java:183-202 | with the session constants, decoding is permute, shift and subtract, because the XOR stage drops out |
| Codec.UnshiftStage | co2java/src/Co2mon.java:192-199 | the inverse of the shift stage is a 3-bit left rotation of the frame read as a big-endian 64-bit word |
| Codec.AddStage | co2java/src/Co2mon.java:200-201 | adding the wrapped word back is undone by the subtraction stage |
| Codec.ShiftUnshift | co2java/src/Co2mon.java:192-199 | the shift stage undoes its inverse |
| Codec.UnshiftShift | co2java/src/Co2mon.java:192-199 | the inverse undoes the shift stage |
| Codec.AddSubtract | co2java/src/Co2mon.java:200-201 | adding back the wrapped word undoes the subtraction stage |
| Codec.DecodeObfuscate | co2java/src/Co2mon.java:183-202 | decoding an obfuscated frame gives it back, for any table and wrapped word |
| Codec.ObfuscateDecode | co2java/src/Co2mon.java:183-202 | every raw frame is the obfuscation of its decoding |
| Codec.DecodeInjective | co2java/src/Co2mon.java:183-202 | two raw frames with the same decoding are equal |
| Frames.ByteCast | co2java/src/Co2mon.java:139 | the `(byte)` cast of an `int` is the residue modulo 256 that lies in -128..127 |
| Frames.SignedSumResidue | co2java/src/Co2mon.java:139 | summing the signed byte values agrees modulo 256 with summing the unsigned ones |
| Frames.Checksum | co2java/src/Co2mon.java:139 | the computed checksum byte is congruent to the sum of bytes 0..2 modulo 256 |
| Frames.ChecksumMatches | co2java/src/Co2mon.java:139-143 | the checksum comparison succeeds exactly when byte 3 equals the sum of bytes 0..2 modulo 256 |
| Frames.Magnitude | co2java/src/Co2mon.java:144-146 | the magnitude is `unsigned(d1) * 256 + unsigned(d2)`, below 65536 |
| Frames.Validate | co2java/src/Co2mon.java:135-150 | a frame is rejected for its sentinel exactly when byte 4 is not 0x0d, rejected for its checksum exactly when the sentinel is right and the sum is wrong, and accepted otherwise; an accepted frame's kind follows byte 0 (0x42 temperature, 0x50 CO2, anything else unrecognised) and its magnitude comes from bytes 1 and 2 |
| Frames.ValidateIgnoresTail | co2java/src/Co2mon.java:135-150 | bytes 5..7 never influence the verdict |
| Frames.SumByteChanged | co2java/src/Co2mon.java:139 | changing one of bytes 0..2 changes the byte sum modulo 256 |
| Frames.SingleByteChangeBreaksIntact | co2java/src/Co2mon.java:139-143 | changing any single one of bytes 0..3 of an intact frame breaks its checksum |
| Frames.ChecksumCatchesSingleByteChange | co2java/src/Co2mon.java:135-143 | an accepted frame with any single one of bytes 0..3 changed is rejected for its checksum |
| Frames.TempThreshold | co2java/src/Co2mon.java:148 | the converted temperature is non-negative exactly when the magnitude is at least 4371 |
| Frames.Co2Example | co2java/src/Co2mon.java:144-150 | a CO2 frame with magnitude bytes 01 2C reports 300 |
| Frames.TemperatureExample | co2java/src/Co2mon.java:144-148 | a temperature frame with magnitude bytes 10 00 has magnitude 4096, that is -17.15 degrees |
| PollLoop.Reported | co2java/src/Co2mon.java:128-150 | a transfer reports a CO2 (temperature) magnitude exactly when it delivered eight bytes, the decoded frame has the sentinel in byte 4, byte 3 is the sum of bytes 0..2 modulo 256, and byte 0 is 0x50 (0x42); an unrecognised code is reported only when it is neither; the magnitude is `d1 * 256 + d2` |
| PollLoop.Step | co2java/src/Co2mon.java:128-150 | one iteration sets `co2` to a reported CO2 magnitude and `temp` to a reported temperature, and otherwise keeps them |
| PollLoop.StepSkips | co2java/src/Co2mon.java:128-143 | a short read, a bad sentinel, a bad checksum or an unrecognised type code leaves both variables unchanged |
| PollLoop.StepTouchesOneVariable | co2java/src/Co2mon.java:147-150 | a temperature frame leaves `co2` alone and a CO2 frame leaves `temp` alone |
| PollLoop.Latest | co2java/src/Co2mon.java:147-150 | there is no latest sample of a kind exactly when no transfer reports that kind; otherwise it is the report of a transfer after which no transfer reports that kind |
| PollLoop.LatestSnoc | co2java/src/Co2mon.java:147-150 | a frame of a kind at the end of a run supersedes every earlier one, and a run ending in no such frame keeps the earlier latest |
| PollLoop.FoldSnoc | co2java/src/Co2mon.java:120-151 | running the loop body over one more transfer is one more step |
| PollLoop.FoldIsLatestCo2 | co2java/src/Co2mon.java:149-150 | after a run of transfers `co2` holds the latest CO2 magnitude, or its old value if there was none; a later frame overwrites an earlier one |
| PollLoop.FoldIsLatestTemp | co2java/src/Co2mon.java:147-148 | after a run of transfers `temp` holds the latest temperature, or its old value if there was none |
| PollLoop.Poll | co2java/src/Co2mon.java:118-151 | the loop exits only with both variables non-negative, and exits at once when they already are; a failed transfer ends the call with its non-success status |
| PollLoop.PollFinished | co2java/src/Co2mon.java:118-153 | the loop exits after exactly `n` transfers with reading `r` if and only if those transfers succeed, the exit test fails before each of them and holds after the last, and `r` is their combined effect |
| PollLoop.PollAborted | co2java/src/Co2mon.java:120-127 | the call throws after exactly `n` transfers if and only if the `n`-th is the first to fail and the loop was still running before it |
| PollLoop.PollStarved | co2java/src/Co2mon.java:120-151 | the transfers run out with the loop still running if and only if all succeed and the exit test never holds |
| PollLoop.RunOnceReportsLatest | co2java/src/Co2mon.java:118-153 | a call that returns reports the latest CO2 magnitude and the latest temperature among the transfers it used, and that temperature's magnitude is at least 4371 |
| PollLoop.PollAdvance | co2java/src/Co2mon.java:120-151 | one more successful iteration, seen from the start of the call |
| PollLoop.Absorb | co2java/src/Co2mon.java:128-150 | the imperative body of one iteration, with its `continue`s, has the same effect on `co2` and `temp` as the reference step |
| PollLoop.RunOnce | co2java/src/Co2mon.java:112-154 | the imperative loop produces exactly the outcome of `Poll` from `co2 = temp = -1`, and writes the fields only when the loop exits |

## Left out

- The USB session (constructor, lines 52-86): libusb initialisation, opening the device, claiming the interface, detaching the kernel driver and sending the magic table. These are foreign calls. Only the `magic_word_wrapped` loop of lines 87-88 is modelled.
- `findDevice` (lines 91-110): a first-match search over the libusb device list, also foreign calls.
- `close`, `getTemp`, `getCO2` (lines 156-166): a wrapper and trivial getters. The two fields appear only as `RunOnce`'s `fields` input and `after` output.
- `main` (lines 204-275): argument parsing, sleeping, the working-hours window, the HTTP upload and logging. All of it is I/O.
- The interrupt transfer itself (lines 121-127), including the 5000 ms timeout. Each transfer's result code, reported size and buffer contents are an element of the input sequence.
- The loop reading forever. The loop may read without bound, but the input is a finite sequence. When it runs out before the exit test holds, the model reports `Starved` with the current state.
- The `System.err` diagnostics for skipped frames.
- Floating point. `temp` is kept exactly in units of 1/10000 degree, and `co2` is an integer, so the values written to the fields are the exact ones rather than the rounded `double`s. The loop's exit test is still modelled exactly. The product `val * 0.0625` is exact, because `val` is below 65536. The literal `273.15` is not exact as a `double`: it is 273.15 - 1/43980465111040. But no multiple of 1/16 lies between that value and 273.15, and none equals it. So `val * 0.0625` is at least the `double` constant exactly when it is at least 273.15. Rounding the difference is monotone and keeps zero, so the computed `temp` is non-negative exactly when the exact one is.
- `decode_buf` works in place on `bb`. The model is pure and returns new sequences, which is the same as far as the decoded frame is concerned. `bb` is not used after decoding.
- The encoding of `"Htemp99e".getBytes()`. It uses the platform's default charset; the model assumes an ASCII-compatible one, which gives one byte per character with the character's code.
- JavaBytes.Sar: no contract of its own. It is used only inside `WrapByte` and `Shift`, whose contracts state the effect of the shifts they perform.
