/** JavaScript's 32-bit integer operators on Numbers that hold integers:
    ToInt32/ToUint32 conversions, `|`, `<<`, `>>` and `&` with a low-bit mask.
    Every operand is first wrapped to 32 bits, and shift counts are taken
    modulo 32, as the ECMAScript operators do. */
module JsInt32 {
  import opened ByteCodec

  const TWO31: int := 0x8000_0000
  const TWO32: int := 0x1_0000_0000

  /** A JavaScript Number as the decoders produce it: an integer, or NaN
      when `parseInt` finds no digit. */
  datatype JsNumber = Num(n: int) | NaN

  /** ToInt32 of a Number, as every bitwise operator applies it: NaN is 0. */
  function NumberToInt32(x: JsNumber): int
  {
    match x
    case Num(n) => ToInt32(n)
    case NaN => 0
  }

  function ToUint32(x: int): (r: int)
    ensures 0 <= r < TWO32
  {
    x % TWO32
  }

  function ToInt32(x: int): (r: int)
    ensures -TWO31 <= r < TWO31
    ensures r % TWO32 == x % TWO32
  {
    var u := x % TWO32;
    if u >= TWO31 then u - TWO32 else u
  }

  /** Bitwise OR of two naturals, one bit at a time from the least significant. */
  function OrNat(a: nat, b: nat): nat
    decreases a + b
  {
    if a == 0 then b
    else if b == 0 then a
    else 2 * OrNat(a / 2, b / 2) + (if a % 2 == 1 || b % 2 == 1 then 1 else 0)
  }

  /** JavaScript `a | b`. */
  function BitOr(a: int, b: int): int
  {
    ToInt32(OrNat(ToUint32(a), ToUint32(b)))
  }

  /** JavaScript `a << n`. */
  function ShiftLeft(a: int, n: int): int
  {
    ToInt32(ToUint32(a) * Pow2(ToUint32(n) % 32))
  }

  /** JavaScript `a >> n` (sign-propagating, so a floor division). */
  function ShiftRight(a: int, n: int): int
  {
    ToInt32(a) / Pow2(ToUint32(n) % 32)
  }

  /** JavaScript `a & (2^k - 1)` for a mask of k < 32 low bits. */
  function AndLow(a: int, k: nat): int
    requires k < 32
  {
    ToUint32(a) % Pow2(k)
  }

  lemma Int32Identity(x: int)
    requires -TWO31 <= x < TWO31
    ensures ToInt32(x) == x
  {
    if x >= 0 {
      DivModUnique(x, TWO32, 0, x);
    } else {
      DivModUnique(x, TWO32, -1, x + TWO32);
    }
  }

  lemma Uint32Identity(x: int)
    requires 0 <= x < TWO32
    ensures ToUint32(x) == x
  {
    DivModUnique(x, TWO32, 0, x);
  }

  /** OR of a value below 2^k with a multiple of 2^k is their sum: the bits do
      not overlap. */
  lemma {:induction false} OrDisjoint(a: nat, b: nat, k: nat)
    requires a < Pow2(k) && b % Pow2(k) == 0
    ensures OrNat(a, b) == a + b
    decreases k
  {
    if a != 0 && b != 0 {
      var p := Pow2(k - 1);
      var t := b / Pow2(k);
      assert b == (t * p) * 2 by {
        assert b == t * Pow2(k) + b % Pow2(k);
      }
      DivModUnique(b, 2, t * p, 0);
      DivModUnique(t * p, p, t, 0);
      OrDisjoint(a / 2, b / 2, k - 1);
    }
  }

  lemma SmallPowers(i: nat)
    requires i <= 3
    ensures Pow2(8 * i) == Pow256(i)
    ensures Pow256(i) == if i == 0 then 1 else if i == 1 then 0x100 else if i == 2 then 0x1_0000 else 0x100_0000
  {
    Pow2Bytes(i);
  }

  /** A shift count below 32 is used as it is. */
  lemma ShiftCount(n: int)
    requires 0 <= n < 32
    ensures ToUint32(n) % 32 == n
  {
    Uint32Identity(n);
    DivModUnique(n, 32, 0, n);
  }

  /** Wrapping to signed 32 bits and back to unsigned is wrapping to unsigned. */
  lemma Uint32OfInt32(x: int)
    ensures ToUint32(ToInt32(x)) == ToUint32(x)
  {
    var t := ToInt32(x);
    DivModUnique(t, TWO32, t / TWO32, x % TWO32);
  }

  /** A byte at weight 2^(8i), i <= 3, fits in 32 unsigned bits. */
  lemma WeightedByteFits(b: int, i: nat)
    requires i <= 3 && IsByte(b)
    ensures 0 <= b * Pow256(i) < TWO32
  {
    SmallPowers(i);
    if i == 0 {
    } else if i == 1 {
    } else if i == 2 {
    } else {
    }
  }

  /** `byte << (8 * i)` for i <= 3 puts the byte at weight 2^(8i), wrapped to
      32 bits. */
  lemma ShiftByte(b: int, i: nat)
    requires i <= 3 && IsByte(b)
    ensures ShiftLeft(b, 8 * i) == ToInt32(b * Pow256(i))
    ensures ToUint32(ShiftLeft(b, 8 * i)) == b * Pow256(i)
  {
    SmallPowers(i);
    ShiftCount(8 * i);
    Uint32Identity(b);
    WeightedByteFits(b, i);
    Uint32Identity(b * Pow256(i));
    Uint32OfInt32(b * Pow256(i));
  }

  /** One step of the `value |= byte << (8 * i)` accumulation: while fewer
      than four bytes have been folded in, it adds the byte at its weight and
      wraps the sum to 32 bits. */
  lemma AccumulateByte(u: int, b: int, i: nat)
    requires i <= 3 && IsByte(b) && 0 <= u < Pow256(i)
    ensures BitOr(u, ShiftLeft(b, 8 * i)) == ToInt32(u + b * Pow256(i))
  {
    ShiftByte(b, i);
    SmallPowers(i);
    Uint32Identity(u);
    DivModUnique(b * Pow256(i), Pow2(8 * i), b, 0);
    OrDisjoint(u, b * Pow256(i), 8 * i);
  }

  /** `val |= 0xFF000000` on a 24-bit value with bit 23 set is two's-complement
      sign extension: it subtracts 2^24. */
  lemma SignExtend24(u: int)
    requires 0 <= u < 0x100_0000
    ensures BitOr(u, 0xFF00_0000) == u - 0x100_0000
  {
    Uint32Identity(u);
    Uint32Identity(0xFF00_0000);
    assert Pow2(24) == 0x100_0000 by {
      Pow2Bytes(3);
    }
    DivModUnique(0xFF00_0000, Pow2(24), 0xFF, 0);
    OrDisjoint(u, 0xFF00_0000, 24);
    DivModUnique(u + 0xFF00_0000, TWO32, 0, u + 0xFF00_0000);
  }

  /** ToInt32 moves its argument by a multiple of 2^32. */
  lemma Int32Offset(v: int) returns (c: int)
    ensures ToInt32(v) == v + c * TWO32
  {
    var q := v / TWO32;
    if v % TWO32 >= TWO31 {
      c := -q - 1;
    } else {
      c := -q;
    }
  }

  /** Byte i (i <= 3) of a value does not change when a multiple of 2^32 is added. */
  lemma ByteIgnoresWrap(v: int, c: int, i: nat)
    requires i <= 3
    ensures ((v + c * TWO32) / Pow256(i)) % 256 == (v / Pow256(i)) % 256
  {
    var p := Pow256(i);
    SmallPowers(i);
    var k: int := if i == 0 then 0x100_0000 else if i == 1 then 0x1_0000 else if i == 2 then 0x100 else 1;
    assert c * TWO32 == (c * k * 256) * p;
    DivAddMultiple(v, c * k * 256, p);
    DivAddMultiple(v / p, c * k, 256);
  }

  /** Masking the eight low bits is the remainder modulo 256. */
  lemma AndLowByte(x: int)
    ensures AndLow(x, 8) == x % 256
  {
    assert Pow2(8) == 256;
    ModMod(x, 256, 0x100_0000);
  }

  /** `(v >> (8 * i)) & 0xFF` for i <= 3 is byte i of v, whatever the size
      or sign of v: the 32-bit wrap only changes bits above bit 31. */
  lemma ShiftMaskByte(v: int, i: nat)
    requires i <= 3
    ensures AndLow(ShiftRight(v, 8 * i), 8) == (v / Pow256(i)) % 256
  {
    var n := 8 * i;
    SmallPowers(i);
    ShiftCount(n);
    var p := Pow256(i);
    var t := ToInt32(v);
    assert ShiftRight(v, n) == t / p;
    var c := Int32Offset(v);
    ByteIgnoresWrap(v, c, i);
    AndLowByte(t / p);
  }
}
