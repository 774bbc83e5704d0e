/** Java's integer semantics for the few operations the decoder performs on bytes.

A Java `byte` is an 8-bit two's-complement value and a Java `int` a 32-bit one;
both are modelled by their bit patterns (`bv8`, `bv32`). Every arithmetic,
bitwise or shift operator first promotes a `byte` operand to `int` by sign
extension, `>>` on an `int` is an arithmetic (sign-filling) shift, and the
cast `(byte)` keeps the low eight bits. Comparisons of a byte with an `int`
constant compare the byte's signed value.
 */
module JavaBytes {

  /** Binary numeric promotion of a `byte` to `int`: the sign bit fills the upper 24 bits. */
  function Widen(b: bv8): (r: bv32)
    ensures r & 0xFF == b as bv32
    ensures r >> 8 == if b < 0x80 then 0 else 0xFF_FFFF
  {
    if b < 0x80 then b as bv32 else b as bv32 | 0xFFFF_FF00
  }

  /** The narrowing cast `(byte) x` of an `int`: keep the low eight bits. */
  function Narrow(x: bv32): (r: bv8)
    ensures Widen(r) & 0xFF == x & 0xFF
  {
    (x & 0xFF) as bv8
  }

  /** Java's `x >> n` on an `int`: vacated high bits are copies of the sign bit. */
  function Sar(x: bv32, n: nat): (r: bv32)
    requires n < 32
  {
    if x < 0x8000_0000 then x >> n else !((!x) >> n)
  }

  /** The numeric value of a Java `byte`, in -128..127. */
  function Signed(b: bv8): (v: int)
    ensures -128 <= v < 128
    ensures v == b as int || v == b as int - 256
  {
    var u := b as int;
    if u < 128 then u else u - 256
  }

  /** `(b + 256) % 256` on the signed value of a byte gives back its unsigned value. */
  lemma SignedRecoversUnsigned(b: bv8)
    ensures 0 <= b as int < 256
    ensures (Signed(b) + 256) % 256 == b as int
  {
  }

  /** The idiom `(b + 256) % 256` on a `byte`: its unsigned value. */
  function UnsignedValue(b: bv8): (r: int)
    ensures r == b as int
  {
    SignedRecoversUnsigned(b);
    JavaRem(Signed(b) + 256, 256)
  }

  /** Java's `%` on `int`: the remainder takes the sign of the dividend. */
  function JavaRem(a: int, b: int): (r: int)
    requires b != 0
    ensures a >= 0 ==> r >= 0
    ensures a >= 0 && b > 0 ==> r == a % b
  {
    var m := (if a >= 0 then a else -a) % (if b > 0 then b else -b);
    if a >= 0 then m else -m
  }
}
