/** Fixed-width integers over byte sequences: the numeric primitive every
    codec variant is built on. A byte is an int in 0..255; multi-byte fields are
    little-endian unless a reader reverses them first. */
module ByteCodec {

  predicate IsByte(b: int) { 0 <= b < 256 }

  predicate IsBytes(bs: seq<int>) { forall i | 0 <= i < |bs| :: IsByte(bs[i]) }

  /** Two byte sequences joined are a byte sequence. */
  lemma BytesAppend(a: seq<int>, b: seq<int>)
    requires IsBytes(a) && IsBytes(b)
    ensures IsBytes(a + b)
  {
    forall i | 0 <= i < |a + b|
      ensures IsByte((a + b)[i])
    {
      if i >= |a| {
        assert (a + b)[i] == b[i - |a|];
      }
    }
  }

  /** 2^(8w), the number of values a w-byte field can hold. */
  function Pow256(w: nat): (p: nat)
    ensures p > 0
  {
    if w == 0 then 1 else 256 * Pow256(w - 1)
  }

  function Pow2(k: nat): (p: nat)
    ensures p > 0
  {
    if k == 0 then 1 else 2 * Pow2(k - 1)
  }

  lemma {:induction false} Pow2Add(a: nat, b: nat)
    ensures Pow2(a + b) == Pow2(a) * Pow2(b)
  {
    if a > 0 {
      Pow2Add(a - 1, b);
    }
  }

  lemma {:induction false} Pow2Bytes(w: nat)
    ensures Pow2(8 * w) == Pow256(w)
  {
    if w > 0 {
      Pow2Bytes(w - 1);
      Pow2Add(8, 8 * (w - 1));
      assert 8 * w == 8 + 8 * (w - 1);
    }
  }

  /** The quotient and remainder of Euclidean division are the only pair with
      v == q * m + r and 0 <= r < m. */
  lemma DivModUnique(v: int, m: int, q: int, r: int)
    requires m > 0 && 0 <= r < m && v == q * m + r
    ensures v / m == q && v % m == r
  {
    var q', r' := v / m, v % m;
    assert (q' - q) * m == r - r' by {
      assert q' * m + r' == q * m + r;
    }
    if q' > q {
      MulAtLeast(q' - q, m);
    } else if q' < q {
      MulAtLeast(q - q', m);
    }
  }

  lemma MulAtLeast(d: int, m: int)
    requires d >= 1 && m > 0
    ensures d * m >= m
  {
  }

  /** Adding a multiple of m changes the quotient by that multiple and
      leaves the remainder alone. */
  lemma DivAddMultiple(a: int, q: int, m: int)
    requires m > 0
    ensures (a + q * m) / m == a / m + q && (a + q * m) % m == a % m
  {
    DivModUnique(a + q * m, m, a / m + q, a % m);
  }

  /** Dividing by a and then by b is dividing by a * b. */
  lemma DivDiv(v: int, a: int, b: int)
    requires a > 0 && b > 0
    ensures (v / a) / b == v / (a * b)
  {
    var q, r := v / a, v % a;
    var s, t := q / b, q % b;
    MixedRadix(v, a, b, q, r, s, t);
    DivModUnique(v, a * b, s, t * a + r);
  }

  /** Two digits of a mixed-radix number: v == q * a + r with q == s * b + t
      puts v at s * (a * b) + (t * a + r), and that remainder is below a * b. */
  lemma MixedRadix(v: int, a: int, b: int, q: int, r: int, s: int, t: int)
    requires a > 0 && b > 0 && 0 <= r < a && 0 <= t < b
    requires v == q * a + r && q == s * b + t
    ensures v == s * (a * b) + (t * a + r)
    ensures 0 <= t * a + r < a * b
  {
    assert q * a == s * (a * b) + t * a;
    assert t * a <= (b - 1) * a;
  }

  /** The remainder modulo m of a remainder modulo a multiple of m. */
  lemma ModMod(x: int, m: int, n: int)
    requires m > 0 && n > 0
    ensures (x % (m * n)) % m == x % m
  {
    var q := x / (m * n);
    assert x % (m * n) == x - (q * n) * m;
    DivAddMultiple(x % (m * n), q * n, m);
  }

  /** Unsigned little-endian value of a byte sequence (int.from_bytes with
      byteorder="little"). */
  function ReadLE(bs: seq<int>): int
  {
    if bs == [] then 0 else bs[0] + 256 * ReadLE(bs[1..])
  }

  /** Unsigned big-endian value: the bytes taken most significant first. */
  function ReadBE(bs: seq<int>): int
  {
    ReadLE(Reverse(bs))
  }

  function Reverse<T>(s: seq<T>): (r: seq<T>)
    ensures |r| == |s|
  {
    if s == [] then [] else Reverse(s[1..]) + [s[0]]
  }

  lemma {:induction false} ReverseAt<T>(s: seq<T>, k: nat)
    requires k < |s|
    ensures Reverse(s)[k] == s[|s| - 1 - k]
  {
    if k < |s| - 1 {
      ReverseAt(s[1..], k);
    }
  }

  lemma {:induction false} ReverseReverse<T>(s: seq<T>)
    ensures Reverse(Reverse(s)) == s
  {
    forall k | 0 <= k < |s|
      ensures Reverse(Reverse(s))[k] == s[k]
    {
      ReverseAt(Reverse(s), k);
      ReverseAt(s, |s| - 1 - k);
    }
  }

  /** Reversing a sequence with one more element puts that element first. */
  lemma ReverseSnoc<T>(s: seq<T>, x: T)
    ensures Reverse(s + [x]) == [x] + Reverse(s)
  {
    var t := s + [x];
    forall k | 0 <= k < |t|
      ensures Reverse(t)[k] == ([x] + Reverse(s))[k]
    {
      ReverseAt(t, k);
      if k > 0 {
        ReverseAt(s, k - 1);
      }
    }
  }

  /** One more byte at the end of a big-endian number shifts it by a byte. */
  lemma ReadBESnoc(bs: seq<int>, b: int)
    ensures ReadBE(bs + [b]) == 256 * ReadBE(bs) + b
  {
    ReverseSnoc(bs, b);
    assert ([b] + Reverse(bs))[1..] == Reverse(bs);
  }

  lemma {:induction false} ReadLERange(bs: seq<int>)
    requires IsBytes(bs)
    ensures 0 <= ReadLE(bs) < Pow256(|bs|)
  {
    if bs != [] {
      ReadLERange(bs[1..]);
    }
  }

  /** Appending a byte adds it at weight 2^(8 * old length). */
  lemma {:induction false} ReadLESnoc(bs: seq<int>, b: int)
    ensures ReadLE(bs + [b]) == ReadLE(bs) + b * Pow256(|bs|)
  {
    if bs == [] {
      assert bs + [b] == [b];
      assert [b][1..] == [];
    } else {
      assert (bs + [b])[1..] == bs[1..] + [b];
      ReadLESnoc(bs[1..], b);
    }
  }

  /** The w low-order bytes of v, least significant first; a negative v gives
      its two's-complement bytes (Dafny's % and / are Euclidean). */
  function WriteLE(v: int, w: nat): (bs: seq<int>)
    ensures |bs| == w && IsBytes(bs)
    decreases w
  {
    if w == 0 then [] else [v % 256] + WriteLE(v / 256, w - 1)
  }

  /** A byte written at width one is itself. */
  lemma WriteLEOne(b: int)
    requires 0 <= b < 256
    ensures WriteLE(b, 1) == [b]
  {
    assert WriteLE(b / 256, 0) == [];
  }

  /** A low byte t and a w-byte value v are written, one after the
      other, as the (w + 1)-byte value t + 256 * v. */
  lemma WriteLEByteThen(t: int, v: int, w: nat)
    requires 0 <= t < 256
    ensures WriteLE(t + 256 * v, w + 1) == WriteLE(t, 1) + WriteLE(v, w)
  {
    DivModUnique(t + 256 * v, 256, v, t);
    WriteLEOne(t);
  }

  /** Within a longer sequence: a byte t written just before a w-byte
      value v reads as the (w + 1)-byte write of t + 256 * v. */
  lemma SliceByteThen(s: seq<int>, lo: nat, t: int, v: int, w: nat, hi: nat, word: int)
    requires hi == lo + 1 + w <= |s| && 0 <= t < 256 && word == t + 256 * v
    requires s[lo..lo + 1] == WriteLE(t, 1) && s[lo + 1..hi] == WriteLE(v, w)
    ensures s[lo..hi] == WriteLE(word, hi - lo)
  {
    assert s[lo..lo + 1 + w] == s[lo..lo + 1] + s[lo + 1..lo + 1 + w];
    WriteLEByteThen(t, v, w);
  }

  /** A low byte and a w-byte value make a (w + 1)-byte value. */
  lemma ByteThenRange(t: int, v: int, w: nat, w1: nat, word: int)
    requires InUnsignedRange(t, 1) && InUnsignedRange(v, w) && w1 == w + 1 && word == t + 256 * v
    ensures InUnsignedRange(word, w1)
  {
    assert Pow256(1) == 256;
    assert 256 * v <= 256 * (Pow256(w) - 1);
  }

  /** Byte k of WriteLE(v, w) is byte k of v: (v / 2^(8k)) mod 256. */
  lemma {:induction false} WriteLEAt(v: int, w: nat, k: nat)
    requires k < w
    ensures WriteLE(v, w)[k] == (v / Pow256(k)) % 256
    decreases k
  {
    if k > 0 {
      WriteLEAt(v / 256, w - 1, k - 1);
      DivDiv(v, 256, Pow256(k - 1));
    }
  }

  /** A (a + b)-byte write is the a low bytes followed by the b-byte write
      of what is above them. */
  lemma {:induction false} WriteLESplit(v: int, a: nat, b: nat)
    ensures WriteLE(v, a + b) == WriteLE(v, a) + WriteLE(v / Pow256(a), b)
    decreases a
  {
    if a > 0 {
      WriteLESplit(v / 256, a - 1, b);
      DivDiv(v, 256, Pow256(a - 1));
    }
  }

  /** Reading back what WriteLE wrote gives v modulo 2^(8w). */
  lemma {:induction false} ReadWriteLE(v: int, w: nat)
    ensures ReadLE(WriteLE(v, w)) == v % Pow256(w)
    decreases w
  {
    if w > 0 {
      var p := Pow256(w - 1);
      var q, r := v / 256, v % 256;
      ReadWriteLE(q, w - 1);
      var bs := WriteLE(v, w);
      assert bs[1..] == WriteLE(q, w - 1);
      var m := q % p;
      assert ReadLE(bs) == r + 256 * m;
      MixedRadix(v, 256, p, q, r, q / p, m);
      DivModUnique(v, 256 * p, q / p, m * 256 + r);
    }
  }

  /** Writing the value of a byte sequence gives the same bytes back. */
  lemma {:induction false} WriteReadLE(bs: seq<int>)
    requires IsBytes(bs)
    ensures WriteLE(ReadLE(bs), |bs|) == bs
  {
    if bs != [] {
      var rest := ReadLE(bs[1..]);
      WriteReadLE(bs[1..]);
      DivModUnique(bs[0] + 256 * rest, 256, rest, bs[0]);
      assert WriteLE(ReadLE(bs), |bs|) == [bs[0]] + WriteLE(rest, |bs| - 1);
    }
  }

  /** WriteLE only depends on v modulo 2^(8w). */
  lemma WriteLEMod(v: int, w: nat)
    ensures WriteLE(v, w) == WriteLE(v % Pow256(w), w)
  {
    ReadWriteLE(v, w);
    WriteReadLE(WriteLE(v, w));
    ReadWriteLE(v % Pow256(w), w);
    WriteReadLE(WriteLE(v % Pow256(w), w));
    assert v % Pow256(w) % Pow256(w) == v % Pow256(w);
  }

  /** Two's-complement reinterpretation of a w-byte unsigned value: subtract
      2^(8w) when the value is at least half of it. */
  function Signed(u: int, w: nat): int
  {
    if 2 * u >= Pow256(w) then u - Pow256(w) else u
  }

  predicate InUnsignedRange(v: int, w: nat) { 0 <= v < Pow256(w) }

  predicate InSignedRange(v: int, w: nat) { -(Pow256(w) as int) <= 2 * v < Pow256(w) }

  /** An unsigned in-range value survives WriteLE then ReadLE. */
  lemma UnsignedRoundTrip(v: int, w: nat)
    requires InUnsignedRange(v, w)
    ensures ReadLE(WriteLE(v, w)) == v
  {
    ReadWriteLE(v, w);
    DivModUnique(v, Pow256(w), 0, v);
  }

  /** A signed in-range value survives WriteLE, ReadLE and Signed. */
  lemma SignedRoundTrip(v: int, w: nat)
    requires InSignedRange(v, w)
    ensures Signed(ReadLE(WriteLE(v, w)), w) == v
  {
    var p := Pow256(w);
    ReadWriteLE(v, w);
    if v >= 0 {
      DivModUnique(v, p, 0, v);
    } else {
      DivModUnique(v, p, -1, v + p);
    }
  }

  /** Bit k of v in two's complement (Python's and JavaScript's `v & 2**k`
      test, for any integer v). */
  predicate Bit(v: int, k: nat)
  {
    (v / Pow2(k)) % 2 == 1
  }

  /** v & mask for the mask whose bits lo..hi-1 are set, in two's complement. */
  function MaskBits(v: int, lo: nat, hi: nat): int
  {
    v % Pow2(hi) - v % Pow2(lo)
  }
}
