/** The sensor's frame de-obfuscation, as performed by `decode_buf`.

A raw 8-byte frame is decoded in four stages: four fixed byte swaps, a
position-wise XOR with the magic table, a bit shuffle that rebuilds each byte
from two cyclically adjacent bytes, and a position-wise subtraction of the
nibble-swapped magic word. Every stage is modelled with the Java operations it
is written in (sign extension, arithmetic shift, narrowing casts) and its
contract states what it computes on unsigned bytes.

`Obfuscate` is the transform the sensor applies before sending; the program does
not contain it. It is reconstructed here as the inverse of the decoder, so that
decoding can be shown to lose no information.
 */
module Codec {
  import opened JavaBytes

  /** A frame read from, or decoded for, the sensor's interrupt endpoint. */
  type Frame = s: seq<bv8> | |s| == 8 witness [0, 0, 0, 0, 0, 0, 0, 0]

  /** The magic word `"Htemp99e"`, as `String.getBytes()` encodes it under an ASCII-compatible
      default charset: one byte per character, holding its code. */
  const MagicWord: seq<bv8> := [0x48, 0x74, 0x65, 0x6D, 0x70, 0x39, 0x39, 0x65]

  /** The magic word's bytes are the character codes of `"Htemp99e"`, all below 0x80. */
  lemma MagicWordIsAscii()
    ensures |MagicWord| == |"Htemp99e"|
    ensures forall i :: 0 <= i < |MagicWord| ==> MagicWord[i] as int == "Htemp99e"[i] as int
    ensures forall i :: 0 <= i < |MagicWord| ==> MagicWord[i] < 0x80
  {
  }

  /** The magic table: a freshly allocated `byte[8]`, so all zero. */
  const MagicTable: Frame := [0, 0, 0, 0, 0, 0, 0, 0]

  /** Exchanging the high and low nibble of a byte. */
  function NibbleSwap(b: bv8): bv8 {
    (b << 4) | (b >> 4)
  }

  // ---------------------------------------------------------------- the magic word

  /** One step of the constructor's loop: `(byte)((w << 4) | (w >> 4))` with `w` promoted to `int`.
      For an ASCII byte this is the nibble swap; for a byte with the top bit set
      the sign extension of `w >> 4` floods the high nibble with ones. */
  function WrapByte(w: bv8): (r: bv8)
    ensures w < 0x80 ==> r == NibbleSwap(w)
    ensures w >= 0x80 ==> r == 0xF0 | (w >> 4)
  {
    Narrow((Widen(w) << 4) | Sar(Widen(w), 4))
  }

  /** The constructor's loop over the magic word, producing `magic_word_wrapped`. */
  function WrapWord(word: seq<bv8>): (r: seq<bv8>)
    ensures |r| == |word|
    ensures (forall i :: 0 <= i < |word| ==> word[i] < 0x80) ==>
              forall i :: 0 <= i < |word| ==> r[i] == NibbleSwap(word[i])
  {
    seq(|word|, i requires 0 <= i < |word| => WrapByte(word[i]))
  }

  /** `magic_word_wrapped` as every session computes it: each byte of `"Htemp99e"`
      nibble-swapped, because every one of them is ASCII. */
  function WrappedMagicWord(): (w: Frame)
    ensures forall i :: 0 <= i < 8 ==> w[i] == NibbleSwap(MagicWord[i])
    ensures w == [0x84, 0x47, 0x56, 0xD6, 0x07, 0x93, 0x93, 0x56]
  {
    WrapWord(MagicWord)
  }

  // ---------------------------------------------------------------- stage 1: swaps

  /** `swap_char(buf, i, j)`: exchange two slots and leave every other slot alone. */
  function SwapChar(buf: seq<bv8>, i: int, j: int): (r: seq<bv8>)
    requires 0 <= i < |buf| && 0 <= j < |buf|
    ensures |r| == |buf|
    ensures r[i] == buf[j] && r[j] == buf[i]
    ensures forall k :: 0 <= k < |buf| && k != i && k != j ==> r[k] == buf[k]
  {
    var b := buf[i];
    buf[i := buf[j]][j := b]
  }

  /** A swap neither loses nor duplicates a byte. */
  lemma SwapCharKeepsBytes(buf: seq<bv8>, i: int, j: int)
    requires 0 <= i < |buf| && 0 <= j < |buf|
    ensures multiset(SwapChar(buf, i, j)) == multiset(buf)
  {
  }

  /** The slot each slot exchanges with under the transpositions (0 2)(1 4)(3 7)(5 6). */
  function Partner(i: int): (j: int)
    ensures 0 <= i < 8 ==> 0 <= j < 8
  {
    match i
    case 0 => 2 case 2 => 0
    case 1 => 4 case 4 => 1
    case 3 => 7 case 7 => 3
    case 5 => 6 case 6 => 5
    case _ => i
  }

  /** The four swaps at the start of `decode_buf`: slot `i` receives the byte of slot `Partner(i)`. */
  function Permute(buf: Frame): (r: Frame)
    ensures forall i :: 0 <= i < 8 ==> r[i] == buf[Partner(i)]
  {
    var b1 := SwapChar(buf, 0, 2);
    var b2 := SwapChar(b1, 1, 4);
    var b3 := SwapChar(b2, 3, 7);
    SwapChar(b3, 5, 6)
  }

  /** The permutation stage neither loses nor duplicates a byte. */
  lemma PermuteKeepsBytes(buf: Frame)
    ensures multiset(Permute(buf)) == multiset(buf)
  {
    var b1 := SwapChar(buf, 0, 2);
    var b2 := SwapChar(b1, 1, 4);
    var b3 := SwapChar(b2, 3, 7);
    SwapCharKeepsBytes(buf, 0, 2);
    SwapCharKeepsBytes(b1, 1, 4);
    SwapCharKeepsBytes(b2, 3, 7);
    SwapCharKeepsBytes(b3, 5, 6);
  }

  /** The four transpositions are disjoint, so the permutation undoes itself. */
  lemma PermuteInvolution(buf: Frame)
    ensures Permute(Permute(buf)) == buf
  {
    var r := Permute(Permute(buf));
    forall i | 0 <= i < 8
      ensures r[i] == buf[i]
    {
      assert Partner(Partner(i)) == i;
    }
  }

  // ---------------------------------------------------------------- stage 2: XOR

  /** The compound assignment `a ^= b` on bytes: promote both, XOR, narrow back. */
  function XorByte(a: bv8, b: bv8): (r: bv8)
    ensures r == a ^ b
  {
    Narrow(Widen(a) ^ Widen(b))
  }

  /** `buf[i] ^= table[i]` for every position. */
  function XorStage(buf: Frame, table: Frame): (r: Frame)
    ensures forall i :: 0 <= i < 8 ==> r[i] == buf[i] ^ table[i]
    ensures (forall i :: 0 <= i < 8 ==> table[i] == 0) ==> r == buf
  {
    seq(8, i requires 0 <= i < 8 => XorByte(buf[i], table[i]))
  }

  /** XOR with the same table twice restores the buffer. */
  lemma XorStageInvolution(buf: Frame, table: Frame)
    ensures XorStage(XorStage(buf, table), table) == buf
  {
  }

  /** The all-zero magic table makes the XOR stage the identity. */
  lemma XorWithMagicTableIsIdentity(buf: Frame)
    ensures XorStage(buf, MagicTable) == buf
  {
  }

  // ---------------------------------------------------------------- stage 3: shift

  /** `shift(b1, b2)`: the top three bits come from the low three bits of `b1`
      and the low five bits from the high five bits of `b2`. The sign extension
      of `b2` before `>> 3` is masked away by `& 0x1f`, so the result is the same
      as with an unsigned shift. */
  function Shift(b1: bv8, b2: bv8): (r: bv8)
    ensures r == ((b1 & 7) << 5) | (b2 >> 3)
    ensures r >> 5 == b1 & 7
    ensures r & 0x1F == b2 >> 3
  {
    var v1 := Narrow(Widen(b1) << 5);
    var v1 := Narrow(Widen(v1) & 0xE0);
    var v2 := Narrow(Sar(Widen(b2), 3));
    var v2 := Narrow(Widen(v2) & 0x1F);
    Narrow(Widen(v1) | Widen(v2))
  }

  /** The cyclically preceding slot, `(i + 7) mod 8`. */
  function Prev(i: int): (j: int)
    ensures 0 <= i < 8 ==> 0 <= j < 8
  {
    if i == 0 then 7 else i - 1
  }

  /** The cyclically following slot, `(i + 1) mod 8`. */
  function Next(i: int): (j: int)
    ensures 0 <= i < 8 ==> 0 <= j < 8
  {
    if i == 7 then 0 else i + 1
  }

  /** The eight `shift` calls of `decode_buf`, `result[i] = shift(buf[i - 1], buf[i])`
      with `buf[7]` preceding `buf[0]`: output byte `i` takes its top three bits
      from the cyclically preceding byte and its low five from byte `i` itself. */
  function ShiftStage(buf: Frame): (r: Frame)
    ensures forall i :: 0 <= i < 8 ==> r[i] == ((buf[Prev(i)] & 7) << 5) | (buf[i] >> 3)
  {
    seq(8, i requires 0 <= i < 8 => Shift(buf[Prev(i)], buf[i]))
  }

  /** The big-endian 64-bit word whose bytes, most significant first, are `a` to `h`. */
  function Word(a: bv8, b: bv8, c: bv8, d: bv8, e: bv8, f: bv8, g: bv8, h: bv8): bv64 {
    (a as bv64 << 56) | (b as bv64 << 48) | (c as bv64 << 40) | (d as bv64 << 32) |
    (e as bv64 << 24) | (f as bv64 << 16) | (g as bv64 << 8) | h as bv64
  }

  /** The frame read as a big-endian 64-bit word. */
  function Pack(buf: Frame): bv64 {
    Word(buf[0], buf[1], buf[2], buf[3], buf[4], buf[5], buf[6], buf[7])
  }

  /** Rotating a word right by three bits moves the low three bits of each byte
      to the top of the next one, and those of the last byte to the top of the first. */
  lemma WordRotate(a: bv8, b: bv8, c: bv8, d: bv8, e: bv8, f: bv8, g: bv8, h: bv8)
    ensures Word(a, b, c, d, e, f, g, h).RotateRight(3) ==
      Word(((h & 7) << 5) | (a >> 3), ((a & 7) << 5) | (b >> 3), ((b & 7) << 5) | (c >> 3), ((c & 7) << 5) | (d >> 3),
           ((d & 7) << 5) | (e >> 3), ((e & 7) << 5) | (f >> 3), ((f & 7) << 5) | (g >> 3), ((g & 7) << 5) | (h >> 3))
  {
  }

  /** The eight bytes of the shift stage's output, spelled out. */
  lemma ShiftStageBytes(buf: Frame)
    ensures var r := ShiftStage(buf);
      && r[0] == ((buf[7] & 7) << 5) | (buf[0] >> 3)
      && r[1] == ((buf[0] & 7) << 5) | (buf[1] >> 3)
      && r[2] == ((buf[1] & 7) << 5) | (buf[2] >> 3)
      && r[3] == ((buf[2] & 7) << 5) | (buf[3] >> 3)
      && r[4] == ((buf[3] & 7) << 5) | (buf[4] >> 3)
      && r[5] == ((buf[4] & 7) << 5) | (buf[5] >> 3)
      && r[6] == ((buf[5] & 7) << 5) | (buf[6] >> 3)
      && r[7] == ((buf[6] & 7) << 5) | (buf[7] >> 3)
  {
    assert Prev(0) == 7;
  }

  /** Across the whole frame, the shift stage rotates the big-endian word right by three bits. */
  lemma ShiftStageIsRotation(buf: Frame)
    ensures Pack(ShiftStage(buf)) == Pack(buf).RotateRight(3)
  {
    var r := ShiftStage(buf);
    ShiftStageBytes(buf);
    WordRotate(buf[0], buf[1], buf[2], buf[3], buf[4], buf[5], buf[6], buf[7]);
    assert Pack(r) == Word(r[0], r[1], r[2], r[3], r[4], r[5], r[6], r[7]);
  }

  // ---------------------------------------------------------------- stage 4: subtract

  /** The compound assignment `a -= b` on bytes: subtraction modulo 256. */
  function SubByte(a: bv8, b: bv8): (r: bv8)
    ensures r == a - b
  {
    Narrow(Widen(a) - Widen(b))
  }

  /** `result[i] -= wrapped[i]` for every position. */
  function SubtractStage(res: Frame, wrapped: Frame): (r: Frame)
    ensures forall i :: 0 <= i < 8 ==> r[i] == res[i] - wrapped[i]
  {
    seq(8, i requires 0 <= i < 8 => SubByte(res[i], wrapped[i]))
  }

  // ---------------------------------------------------------------- the decoder

  /** `decode_buf(buf, result, table)` with `magic_word_wrapped` passed explicitly.
      Output byte `i` is built from the raw bytes that the swaps move into slots
      `(i + 7) mod 8` and `i`, each XORed with the table byte of the slot it lands in. */
  function DecodeBuf(raw: Frame, table: Frame, wrapped: Frame): (r: Frame)
    ensures forall i :: 0 <= i < 8 ==>
      r[i] == ((((raw[Partner(Prev(i))] ^ table[Prev(i)]) & 7) << 5) | ((raw[Partner(i)] ^ table[i]) >> 3)) - wrapped[i]
  {
    var r := SubtractStage(ShiftStage(XorStage(Permute(raw), table)), wrapped);
    assert forall i :: 0 <= i < 8 ==>
      r[i] == ((((raw[Partner(Prev(i))] ^ table[Prev(i)]) & 7) << 5) | ((raw[Partner(i)] ^ table[i]) >> 3)) - wrapped[i]
    by {
      forall i | 0 <= i < 8
        ensures r[i] == ((((raw[Partner(Prev(i))] ^ table[Prev(i)]) & 7) << 5) | ((raw[Partner(i)] ^ table[i]) >> 3)) - wrapped[i]
      {
        StagesByte(raw, table, wrapped, i);
      }
    }
    r
  }

  /** Byte `i` through the four stages, one stage at a time. */
  lemma StagesByte(raw: Frame, table: Frame, wrapped: Frame, i: int)
    requires 0 <= i < 8
    ensures SubtractStage(ShiftStage(XorStage(Permute(raw), table)), wrapped)[i] ==
      ((((raw[Partner(Prev(i))] ^ table[Prev(i)]) & 7) << 5) | ((raw[Partner(i)] ^ table[i]) >> 3)) - wrapped[i]
  {
    var p := Permute(raw);
    var q := XorStage(p, table);
    var s := ShiftStage(q);
    var a, b := q[Prev(i)], q[i];
    assert a == raw[Partner(Prev(i))] ^ table[Prev(i)];
    assert b == raw[Partner(i)] ^ table[i];
    assert s[i] == ((a & 7) << 5) | (b >> 3);
  }

  /** Decoding with the constants every session uses: the magic table and
      `magic_word_wrapped` computed from `"Htemp99e"`. Byte `i` of the result is the
      low three bits of raw byte `Partner((i + 7) mod 8)` above the high five bits of
      raw byte `Partner(i)`, minus the nibble-swapped magic word byte, modulo 256. */
  function Decode(raw: Frame): (r: Frame)
    ensures forall i :: 0 <= i < 8 ==>
      r[i] == (((raw[Partner(Prev(i))] & 7) << 5) | (raw[Partner(i)] >> 3)) - NibbleSwap(MagicWord[i])
  {
    var w := WrappedMagicWord();
    var r := DecodeBuf(raw, MagicTable, w);
    assert forall i :: 0 <= i < 8 ==>
      r[i] == (((raw[Partner(Prev(i))] & 7) << 5) | (raw[Partner(i)] >> 3)) - NibbleSwap(MagicWord[i])
    by {
      forall i | 0 <= i < 8
        ensures r[i] == (((raw[Partner(Prev(i))] & 7) << 5) | (raw[Partner(i)] >> 3)) - NibbleSwap(MagicWord[i])
      {
        SessionByte(raw, i);
      }
    }
    r
  }

  /** Byte `i` of `decode_buf` with the session's table and wrapped word. */
  lemma SessionByte(raw: Frame, i: int)
    requires 0 <= i < 8
    ensures DecodeBuf(raw, MagicTable, WrappedMagicWord())[i] ==
      (((raw[Partner(Prev(i))] & 7) << 5) | (raw[Partner(i)] >> 3)) - NibbleSwap(MagicWord[i])
  {
    var p := Permute(raw);
    var s := ShiftStage(p);
    var w := WrappedMagicWord();
    XorWithMagicTableIsIdentity(p);
    var r := SubtractStage(s, w);
    assert DecodeBuf(raw, MagicTable, w) == r;
    assert r[i] == s[i] - w[i];
    assert s[i] == ((p[Prev(i)] & 7) << 5) | (p[i] >> 3);
  }

  /** With the all-zero magic table the XOR stage drops out of decoding. */
  lemma DecodeStages(raw: Frame)
    ensures Decode(raw) == SubtractStage(ShiftStage(Permute(raw)), WrappedMagicWord())
  {
    XorWithMagicTableIsIdentity(Permute(raw));
  }

  // ---------------------------------------------------------------- the inverse

  /** The byte whose high five bits are the low five of `b1` and whose low three are the high three of `b2`. */
  function Unshift(b1: bv8, b2: bv8): bv8 {
    (b1 << 3) | (b2 >> 5)
  }

  /** Rebuild the buffer the shift stage consumed: the high five bits of byte `i`
      come from the low five of output byte `i`, the low three from the high three
      of output byte `(i + 1) mod 8`. Across the frame this is a 3-bit left rotation. */
  function UnshiftStage(res: Frame): (r: Frame)
    ensures Pack(r) == Pack(res).RotateLeft(3)
  {
    var r := seq(8, i requires 0 <= i < 8 => Unshift(res[i], res[Next(i)]));
    ShiftUndoesUnshift(res, r);
    ShiftStageIsRotation(r);
    r
  }

  /** Shifting the bytes `Unshift` rebuilt gives the shift stage's output back. */
  lemma ShiftUndoesUnshift(res: Frame, r: Frame)
    requires forall i :: 0 <= i < 8 ==> r[i] == Unshift(res[i], res[Next(i)])
    ensures ShiftStage(r) == res
  {
    var s := ShiftStage(r);
    forall i | 0 <= i < 8
      ensures s[i] == res[i]
    {
      assert Next(Prev(i)) == i;
    }
  }

  /** Add the wrapped magic word back, modulo 256. */
  function AddStage(dec: Frame, wrapped: Frame): (r: Frame)
    ensures SubtractStage(r, wrapped) == dec
  {
    seq(8, i requires 0 <= i < 8 => dec[i] + wrapped[i])
  }

  /** The sensor's obfuscation of a frame: the decoder's stages undone in reverse order. */
  function Obfuscate(dec: Frame, table: Frame, wrapped: Frame): Frame {
    Permute(XorStage(UnshiftStage(AddStage(dec, wrapped)), table))
  }

  /** The shift stage undoes its inverse. */
  lemma ShiftUnshift(res: Frame)
    ensures ShiftStage(UnshiftStage(res)) == res
  {
    ShiftUndoesUnshift(res, UnshiftStage(res));
  }

  /** The inverse undoes the shift stage. */
  lemma UnshiftShift(buf: Frame)
    ensures UnshiftStage(ShiftStage(buf)) == buf
  {
    var s := ShiftStage(buf);
    var r := UnshiftStage(s);
    forall i | 0 <= i < 8
      ensures r[i] == buf[i]
    {
      assert Prev(Next(i)) == i;
    }
  }

  /** Adding the wrapped word back undoes the subtraction stage. */
  lemma AddSubtract(res: Frame, wrapped: Frame)
    ensures AddStage(SubtractStage(res, wrapped), wrapped) == res
  {
  }

  /** Decoding an obfuscated frame gives the frame back. */
  lemma DecodeObfuscate(dec: Frame, table: Frame, wrapped: Frame)
    ensures DecodeBuf(Obfuscate(dec, table, wrapped), table, wrapped) == dec
  {
    var s := AddStage(dec, wrapped);
    var p := UnshiftStage(s);
    var q := XorStage(p, table);
    PermuteInvolution(q);
    XorStageInvolution(p, table);
    ShiftUnshift(s);
  }

  /** Every raw frame is the obfuscation of its decoding. */
  lemma ObfuscateDecode(raw: Frame, table: Frame, wrapped: Frame)
    ensures Obfuscate(DecodeBuf(raw, table, wrapped), table, wrapped) == raw
  {
    var p := Permute(raw);
    var q := XorStage(p, table);
    var s := ShiftStage(q);
    AddSubtract(s, wrapped);
    UnshiftShift(q);
    XorStageInvolution(p, table);
    PermuteInvolution(raw);
  }

  /** Distinct raw frames decode to distinct frames: decoding loses nothing. */
  lemma DecodeInjective(a: Frame, b: Frame, table: Frame, wrapped: Frame)
    requires DecodeBuf(a, table, wrapped) == DecodeBuf(b, table, wrapped)
    ensures a == b
  {
    ObfuscateDecode(a, table, wrapped);
    ObfuscateDecode(b, table, wrapped);
  }
}
