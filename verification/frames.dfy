/** Validation and classification of a decoded frame, as the body of `runOnce` does it.

A decoded frame is accepted when byte 4 is the sentinel 0x0d and byte 3 is the
8-bit sum of bytes 0..2. Bytes 1 and 2 then form an unsigned big-endian 16-bit
magnitude, and byte 0 says what it measures: 0x42 a temperature, 0x50 a CO2
concentration; any other code is accepted but carries nothing the program uses.
Bytes 5..7 are never looked at.
 */
module Frames {
  import opened JavaBytes
  import opened Codec

  /** The value byte 4 of every well-formed frame holds. */
  const Sentinel: bv8 := 0x0d
  /** The type code of a temperature frame. */
  const TempCode: bv8 := 0x42
  /** The type code of a CO2 frame. */
  const Co2Code: bv8 := 0x50

  datatype Kind = Temperature | Co2 | Unrecognised(code: bv8)

  /** The outcome of checking one decoded frame; `computed` is the value of the
      checksum byte the program computed, in -128..127. */
  datatype FrameCheck =
    | BadSentinel(found: bv8)
    | BadChecksum(stored: bv8, computed: int)
    | WellFormed(kind: Kind, magnitude: nat)

  // ---------------------------------------------------------------- residues modulo 256

  /** Adding a multiple of 256 does not change the residue modulo 256. */
  lemma ResidueShift(x: int, k: int)
    ensures (x + 256 * k) % 256 == x % 256
  {
  }

  /** Within -128..127 the residue modulo 256 tells values apart. */
  lemma WindowResidue(v: int, w: int)
    requires -128 <= v < 128 && -128 <= w < 128
    ensures v == w <==> v % 256 == w % 256
  {
  }

  /** Moving a number by a nonzero amount smaller than 256 changes its residue. */
  lemma ResidueMoves(s: int, delta: int)
    requires -256 < delta < 256 && delta != 0
    ensures (s + delta) % 256 != s % 256
  {
    var q, q2 := s / 256, (s + delta) / 256;
    assert s == 256 * q + s % 256;
    assert s + delta == 256 * q2 + (s + delta) % 256;
    var m := q2 - q;
    assert (s + delta) % 256 - s % 256 == delta - 256 * m;
    if m >= 1 {
      assert 256 * m >= 256;
    } else if m <= -1 {
      assert 256 * m <= -256;
    }
  }

  // ---------------------------------------------------------------- the checksum

  /** The value of `(byte) x` for an `int` value `x`: the residue of `x` modulo 256
      that lies in -128..127. */
  function ByteCast(x: int): (v: int)
    ensures -128 <= v < 128
    ensures v % 256 == x % 256
  {
    ResidueShift((x + 128) % 256 - 128, (x + 128) / 256);
    (x + 128) % 256 - 128
  }

  /** The sum of the unsigned values of bytes 0..2, modulo 256. */
  function ByteSum(d: Frame): int {
    (d[0] as int + d[1] as int + d[2] as int) % 256
  }

  /** Summing the signed values instead of the unsigned ones changes nothing modulo 256. */
  lemma SignedSumResidue(d: Frame)
    ensures (Signed(d[0]) + Signed(d[1]) + Signed(d[2])) % 256 == ByteSum(d)
  {
    var u0, u1, u2 := d[0] as int, d[1] as int, d[2] as int;
    var s0, s1, s2 := Signed(d[0]), Signed(d[1]), Signed(d[2]);
    var k := (if s0 == u0 then 0 else 1) + (if s1 == u1 then 0 else 1) + (if s2 == u2 then 0 else 1);
    assert s0 + s1 + s2 + 256 * k == u0 + u1 + u2;
    ResidueShift(s0 + s1 + s2, k);
  }

  /** `(byte)(decoded[0] + decoded[1] + decoded[2])`: the signed byte values are
      summed as `int`s and narrowed, which leaves a byte congruent to their sum. */
  function Checksum(d: Frame): (c: int)
    ensures -128 <= c < 128
    ensures c % 256 == ByteSum(d)
  {
    SignedSumResidue(d);
    ByteCast(Signed(d[0]) + Signed(d[1]) + Signed(d[2]))
  }

  /** Does the decoded frame pass both integrity checks: the sentinel in byte 4,
      and byte 3 equal to the sum of bytes 0..2 modulo 256? */
  predicate Intact(d: Frame) {
    d[4] == Sentinel && ByteSum(d) == d[3] as int
  }

  /** The computed checksum equals the stored byte exactly when the byte sum agrees with it. */
  lemma ChecksumMatches(d: Frame)
    ensures Checksum(d) == Signed(d[3]) <==> ByteSum(d) == d[3] as int
  {
    var c, t := Checksum(d), Signed(d[3]);
    WindowResidue(c, t);
    SignedRecoversUnsigned(d[3]);
    ResidueShift(t, if t == d[3] as int then 0 else 1);
  }

  // ---------------------------------------------------------------- classification

  /** `(r1 << 8) + r2` with `rk = (decoded[k] + 256) % 256`, the unsigned values
      of bytes 1 and 2; `r1 << 8` is `r1 * 256` because `r1` is below 256. */
  function Magnitude(d: Frame): (v: nat)
    ensures v == d[1] as int * 256 + d[2] as int
    ensures v < 0x1_0000
  {
    var r1 := UnsignedValue(d[1]);
    var r2 := UnsignedValue(d[2]);
    r1 * 256 + r2
  }

  /** The checks of one loop iteration after decoding: sentinel first, then
      checksum, then the type code. Java compares a `byte` with an `int` or `short`
      constant on the byte's signed value, which is how the comparisons are written
      here; the constants are below 0x80, so their signed value is their code. */
  function Validate(d: Frame): (r: FrameCheck)
    ensures r.BadSentinel? <==> d[4] != Sentinel
    ensures r.BadChecksum? <==> d[4] == Sentinel && !Intact(d)
    ensures r.WellFormed? <==> Intact(d)
    ensures r.BadSentinel? ==> r.found == d[4]
    ensures r.BadChecksum? ==> r.stored == d[3] && r.computed % 256 == ByteSum(d)
    ensures r.WellFormed? ==> r.magnitude == d[1] as int * 256 + d[2] as int
    ensures r.WellFormed? ==> (r.kind == Temperature <==> d[0] == TempCode)
    ensures r.WellFormed? ==> (r.kind == Co2 <==> d[0] == Co2Code)
    ensures r.WellFormed? && r.kind.Unrecognised? ==> r.kind.code == d[0]
  {
    ChecksumMatches(d);
    if Signed(d[4]) != Signed(Sentinel) then
      BadSentinel(d[4])
    else
      var checksum := Checksum(d);
      if checksum != Signed(d[3]) then
        BadChecksum(d[3], checksum)
      else
        var val := Magnitude(d);
        if Signed(d[0]) == Signed(TempCode) then WellFormed(Temperature, val)
        else if Signed(d[0]) == Signed(Co2Code) then WellFormed(Co2, val)
        else WellFormed(Unrecognised(d[0]), val)
  }

  /** Bytes 5..7 of a decoded frame never influence its verdict. */
  lemma ValidateIgnoresTail(d: Frame, e: Frame)
    requires forall i :: 0 <= i < 5 ==> d[i] == e[i]
    ensures Validate(d) == Validate(e)
  {
    assert d[0] == e[0] && d[1] == e[1] && d[2] == e[2] && d[3] == e[3] && d[4] == e[4];
    assert Checksum(d) == Checksum(e);
    assert Magnitude(d) == Magnitude(e);
  }

  // ---------------------------------------------------------------- detection

  /** Changing one of bytes 0..2 changes the byte sum. */
  lemma SumByteChanged(d: Frame, k: int, b: bv8)
    requires 0 <= k < 3 && b != d[k]
    ensures ByteSum(d[k := b]) != ByteSum(d)
  {
    var e := d[k := b];
    var x0, x1, x2 := d[0] as int, d[1] as int, d[2] as int;
    var delta := b as int - d[k] as int;
    if k == 0 {
      assert e[1] == d[1] && e[2] == d[2];
      ResidueMoves(x0 + x1 + x2, delta);
    } else if k == 1 {
      assert e[0] == d[0] && e[2] == d[2];
      ResidueMoves(x0 + x1 + x2, delta);
    } else {
      assert e[0] == d[0] && e[1] == d[1];
      ResidueMoves(x0 + x1 + x2, delta);
    }
  }

  /** Changing any one of bytes 0..3 of an intact frame breaks its checksum. */
  lemma SingleByteChangeBreaksIntact(d: Frame, k: int, b: bv8)
    requires Intact(d)
    requires 0 <= k < 4 && b != d[k]
    ensures !Intact(d[k := b])
  {
    var e := d[k := b];
    if k < 3 {
      SumByteChanged(d, k, b);
      assert e[3] == d[3];
    } else {
      assert e[0] == d[0] && e[1] == d[1] && e[2] == d[2];
      assert ByteSum(e) == ByteSum(d);
    }
  }

  /** Changing any one of bytes 0..3 of an accepted frame makes it fail the checksum test. */
  lemma ChecksumCatchesSingleByteChange(d: Frame, k: int, b: bv8)
    requires Validate(d).WellFormed?
    requires 0 <= k < 4 && b != d[k]
    ensures Validate(d[k := b]).BadChecksum?
  {
    SingleByteChangeBreaksIntact(d, k, b);
    assert d[k := b][4] == d[4];
  }

  // ---------------------------------------------------------------- temperature

  /** The temperature in units of 1/10000 degree Celsius: exactly
      `magnitude * 0.0625 - 273.15`, scaled by 10^4 to stay in integers. */
  function CelsiusE4(magnitude: int): int {
    magnitude * 625 - 2731500
  }

  /** The loop treats a temperature as present once it is not negative, which is
      exactly when the raw magnitude is at least 4371 (4370 * 0.0625 = 273.125,
      4371 * 0.0625 = 273.1875). */
  lemma TempThreshold(magnitude: int)
    ensures CelsiusE4(magnitude) >= 0 <==> magnitude >= 4371
  {
  }

  /** A CO2 frame with magnitude bytes 0x01 0x2c reports 300 ppm. */
  lemma Co2Example()
    ensures Validate([0x50, 0x01, 0x2C, 0x7D, 0x0D, 0, 0, 0]) == WellFormed(Co2, 300)
  {
  }

  /** A temperature frame with magnitude bytes 0x10 0x00 has magnitude 4096,
      that is 4096 * 0.0625 - 273.15 = -17.15 degrees Celsius. */
  lemma TemperatureExample()
    ensures Validate([0x42, 0x10, 0x00, 0x52, 0x0D, 0, 0, 0]) == WellFormed(Temperature, 4096)
    ensures CelsiusE4(4096) == -171500
  {
  }
}
