/** Hexadecimal text: the upper-case two-digit rendering every encoder writes
    (the "base16" alphabet of section 8 of RFC 4648), the two-character pair
    split every decoder starts from, and the three ways the decoders turn hex
    text back into numbers — JavaScript `parseInt(s, 16)`, Python
    `int(s, 16)` and Python `bytes.fromhex(s)`. */
module Hex {
  import opened Wrappers
  import opened ByteCodec
  import opened Text
  import opened JsInt32
  import opened Sequences

  predicate IsHexDigit(c: char)
  {
    IsAsciiDigit(c) || 'a' <= c <= 'f' || 'A' <= c <= 'F'
  }

  predicate AllHex(s: string)
  {
    forall i | 0 <= i < |s| :: IsHexDigit(s[i])
  }

  function DigitValue(c: char): (v: nat)
    requires IsHexDigit(c)
    ensures v < 16
  {
    if IsAsciiDigit(c) then c as int - '0' as int
    else if 'a' <= c <= 'f' then c as int - 'a' as int + 10
    else c as int - 'A' as int + 10
  }

  function UpperDigit(n: nat): (c: char)
    requires n < 16
    ensures IsHexDigit(c) && DigitValue(c) == n
  {
    "0123456789ABCDEF"[n]
  }

  function Pow16(n: nat): (p: nat)
    ensures p > 0
  {
    if n == 0 then 1 else 16 * Pow16(n - 1)
  }

  lemma {:induction false} Pow16Bytes(w: nat)
    ensures Pow16(2 * w) == Pow256(w)
  {
    if w > 0 {
      Pow16Bytes(w - 1);
      assert Pow16(2 * w) == 256 * Pow16(2 * (w - 1));
    }
  }

  /** A byte as two upper-case hex digits, high nibble first. */
  function ByteHex(b: int): (s: string)
    requires IsByte(b)
    ensures |s| == 2 && AllHex(s)
    ensures 16 * DigitValue(s[0]) + DigitValue(s[1]) == b
  {
    [UpperDigit(b / 16), UpperDigit(b % 16)]
  }

  /** Bytes as hex text, two digits per byte in sequence order. */
  function ToHex(bs: seq<int>): (s: string)
    requires IsBytes(bs)
    ensures |s| == 2 * |bs| && AllHex(s)
  {
    if bs == [] then "" else ByteHex(bs[0]) + ToHex(bs[1..])
  }

  /** The hex text of each byte, one string per byte. */
  function HexPairs(bs: seq<int>): (ps: seq<string>)
    requires IsBytes(bs)
    ensures |ps| == |bs|
  {
    seq(|bs|, i requires 0 <= i < |bs| => ByteHex(bs[i]))
  }

  /** One byte has one pair. */
  lemma HexPairsOne(b: int)
    requires IsByte(b)
    ensures IsBytes([b]) && HexPairs([b]) == [ByteHex(b)]
  {
  }

  lemma HexPairsSnoc(bs: seq<int>, b: int)
    requires IsBytes(bs) && IsByte(b)
    ensures IsBytes(bs + [b]) && HexPairs(bs + [b]) == HexPairs(bs) + [ByteHex(b)]
  {
  }

  /** The two-character chunks of s in order; an odd last character is
      dropped, as the decoders' `len // 2` pair loops do. */
  function Pairs(s: string): (ps: seq<string>)
    ensures |ps| == |s| / 2
    ensures forall i | 0 <= i < |ps| :: ps[i] == s[2 * i..2 * i + 2]
  {
    if |s| < 2 then []
    else
      var rest := Pairs(s[2..]);
      assert forall i | 0 <= i < |rest| :: rest[i] == s[2 * (i + 1)..2 * (i + 1) + 2];
      [s[..2]] + rest
  }

  /** Splitting encoder output into pairs gives back each byte's hex text. */
  lemma {:induction false} PairsOfHex(bs: seq<int>)
    requires IsBytes(bs)
    ensures Pairs(ToHex(bs)) == HexPairs(bs)
  {
    if bs != [] {
      var h, t := ByteHex(bs[0]), ToHex(bs[1..]);
      assert ToHex(bs) == h + t;
      PrefixOfAppend(h, t);
      SuffixOfAppend(h, t);
      PairsOfHex(bs[1..]);
      assert HexPairs(bs) == [h] + HexPairs(bs[1..]);
    }
  }

  lemma {:induction false} ToHexAppend(a: seq<int>, b: seq<int>)
    requires IsBytes(a) && IsBytes(b)
    ensures ToHex(a + b) == ToHex(a) + ToHex(b)
  {
    if a == [] {
      assert a + b == b;
    } else {
      assert (a + b)[1..] == a[1..] + b;
      ToHexAppend(a[1..], b);
    }
  }

  /** Joining the pair texts of bytes gives the hex text of those bytes. */
  lemma {:induction false} ConcatHexPairs(bs: seq<int>)
    requires IsBytes(bs)
    ensures Concat(HexPairs(bs)) == ToHex(bs)
  {
    if bs != [] {
      assert HexPairs(bs)[1..] == HexPairs(bs[1..]);
      ConcatHexPairs(bs[1..]);
    }
  }

  lemma HexPairsSlice(bs: seq<int>, lo: nat, hi: nat)
    requires IsBytes(bs) && lo <= hi <= |bs|
    ensures HexPairs(bs)[lo..hi] == HexPairs(bs[lo..hi])
  {
  }

  lemma {:induction false} HexPairsReverse(bs: seq<int>)
    requires IsBytes(bs)
    ensures IsBytes(Reverse(bs)) && Reverse(HexPairs(bs)) == HexPairs(Reverse(bs))
  {
    forall k | 0 <= k < |bs|
      ensures Reverse(bs)[k] == bs[|bs| - 1 - k] && Reverse(HexPairs(bs))[k] == HexPairs(bs)[|bs| - 1 - k]
    {
      ReverseAt(bs, k);
      ReverseAt(HexPairs(bs), k);
    }
  }

  /** Value of a run of hex digits, most significant first: each further
      digit multiplies what was read so far by 16 and adds itself. */
  function HexValue(s: string): (v: nat)
    requires AllHex(s)
    ensures v < Pow16(|s|)
  {
    if s == [] then 0
    else 16 * HexValue(s[..|s| - 1]) + DigitValue(s[|s| - 1])
  }

  /** One more digit at the end. */
  lemma HexValueSnoc(s: string, c: char)
    requires AllHex(s) && IsHexDigit(c)
    ensures AllHex(s + [c])
    ensures HexValue(s + [c]) == 16 * HexValue(s) + DigitValue(c)
  {
    assert (s + [c])[..|s|] == s;
  }

  /** Two more digits at the end shift what was read by one byte. */
  lemma HexValuePair(s: string, h: string)
    requires AllHex(s) && |h| == 2 && AllHex(h)
    ensures AllHex(s + h)
    ensures HexValue(s + h) == 256 * HexValue(s) + 16 * DigitValue(h[0]) + DigitValue(h[1])
  {
    assert s + h == s + [h[0]] + [h[1]];
    HexValueSnoc(s, h[0]);
    HexValueSnoc(s + [h[0]], h[1]);
  }

  /** Hex text of bytes read as one number is their big-endian value. */
  lemma {:induction false} HexValueOfToHex(bs: seq<int>)
    requires IsBytes(bs)
    ensures HexValue(ToHex(bs)) == ReadBE(bs)
  {
    if bs != [] {
      var n := |bs| - 1;
      var front := bs[..n];
      assert bs == front + [bs[n]];
      ToHexAppend(front, [bs[n]]);
      assert ToHex([bs[n]]) == ByteHex(bs[n]);
      HexValueOfToHex(front);
      HexValuePair(ToHex(front), ByteHex(bs[n]));
      ReadBESnoc(front, bs[n]);
    }
  }

  /** Hex text of the reversed bytes read as one number is their
      little-endian value: what the decoders that reverse their pairs compute. */
  lemma HexValueOfReversed(bs: seq<int>)
    requires IsBytes(bs)
    ensures IsBytes(Reverse(bs)) && HexValue(ToHex(Reverse(bs))) == ReadLE(bs)
  {
    HexPairsReverse(bs);
    HexValueOfToHex(Reverse(bs));
    ReverseReverse(bs);
  }

  /** Each byte's hex text reads back as that byte, in all three parsers. */
  lemma ByteHexValue(b: int)
    requires IsByte(b)
    ensures HexValue(ByteHex(b)) == b
    ensures ParseIntHex(ByteHex(b)) == Num(b) && PyIntHex(ByteHex(b)) == Some(b)
  {
    var h := ByteHex(b);
    assert h == [] + [h[0]] + [h[1]];
    HexValueSnoc([], h[0]);
    HexValueSnoc([h[0]], h[1]);
    ParseIntHexOfDigits(h);
    PyIntHexOfDigits(h);
  }

  /** The pair loop every decoder runs over the payload: one two-character
      slice per index below half the length, appended in order. */
  method SplitPairs(hexData: string) returns (pairs: seq<string>)
    ensures pairs == Pairs(hexData)
  {
    pairs := [];
    var index := 0;
    while index < |hexData| / 2
      invariant 0 <= index <= |hexData| / 2
      invariant pairs == Pairs(hexData)[..index]
    {
      pairs := pairs + [hexData[index * 2..index * 2 + 2]];
      index := index + 1;
    }
  }

  /** Number of leading hex digits. */
  function HexRun(s: string): (n: nat)
    ensures n <= |s| && AllHex(s[..n])
    ensures n < |s| ==> !IsHexDigit(s[n])
    ensures AllHex(s) ==> n == |s|
  {
    if s != [] && IsHexDigit(s[0]) then
      var n := 1 + HexRun(s[1..]);
      assert s[..n] == [s[0]] + s[1..][..n - 1];
      n
    else 0
  }

  /** A hex digit is neither white space, a sign nor the `x` of a prefix. */
  lemma HexDigitIsPlain(c: char)
    requires IsHexDigit(c)
    ensures !IsJsWhite(c) && !IsPyWhite(c) && c != '-' && c != '+' && c != 'x' && c != 'X'
  {
  }

  /** What follows one optional sign and then an optional `0x`/`0X` prefix,
      and whether the sign was '-': the digits `parseInt` and `int` read. */
  function SignAndBody(t: string): (bool, string)
  {
    var negative := t != [] && t[0] == '-';
    var u := if t != [] && (t[0] == '-' || t[0] == '+') then t[1..] else t;
    (negative, if |u| >= 2 && u[0] == '0' && (u[1] == 'x' || u[1] == 'X') then u[2..] else u)
  }

  lemma SignAndBodyOfDigits(s: string)
    requires |s| > 0 && AllHex(s)
    ensures SignAndBody(s) == (false, s)
  {
    HexDigitIsPlain(s[0]);
    if |s| >= 2 {
      HexDigitIsPlain(s[1]);
    }
  }

  /** A run of hex digits passes through the trimming and the sign and
      prefix handling of both parsers unchanged. */
  lemma PlainDigits(s: string)
    ensures |s| > 0 && AllHex(s) ==> TrimStartJs(s) == s && TrimPy(s) == s && SignAndBody(s) == (false, s)
  {
    if |s| > 0 && AllHex(s) {
      HexDigitIsPlain(s[0]);
      HexDigitIsPlain(s[|s| - 1]);
      SignAndBodyOfDigits(s);
    }
  }

  /** JavaScript `parseInt(s, 16)`: leading white space is skipped, one sign
      and a `0x`/`0X` prefix are accepted, then the longest run of hex digits
      is read; no digits at all gives NaN. */
  function ParseIntHex(s: string): JsNumber
  {
    var (negative, body) := SignAndBody(TrimStartJs(s));
    var n := HexRun(body);
    if n == 0 then NaN
    else
      var v: int := HexValue(body[..n]);
      Num(if negative then -v else v)
  }

  /** `parseInt` reads a plain run of hex digits as its value. */
  lemma ParseIntHexOfDigits(s: string)
    requires |s| > 0 && AllHex(s)
    ensures ParseIntHex(s) == Num(HexValue(s))
  {
    PlainDigits(s);
    assert s[..|s|] == s;
  }

  /** Python `int(s, 16)` on ASCII hex digits: surrounding white space and one
      sign are allowed, as is a `0x`/`0X` prefix, and what remains must be at
      least one hex digit. None stands for the ValueError. Python also
      accepts single underscores between digits and non-ASCII decimal
      digits; this model rejects both. */
  function PyIntHex(s: string): (r: Option<int>)
    ensures s == [] ==> r.None?
  {
    var (negative, body) := SignAndBody(TrimPy(s));
    if body != [] && AllHex(body) then
      var v: int := HexValue(body);
      Some(if negative then -v else v)
    else None
  }

  /** `int(s, 16)` reads a plain run of hex digits as its value. */
  lemma PyIntHexOfDigits(s: string)
    requires |s| > 0 && AllHex(s)
    ensures PyIntHex(s) == Some(HexValue(s))
  {
    PlainDigits(s);
  }

  /** Python `bytes.fromhex(s)` on text without white space: pairs of hex
      digits, one byte each; an odd length or a non-hex character is the
      ValueError, modelled as None. */
  function FromHex(s: string): (r: Option<seq<int>>)
    ensures r.Some? ==> IsBytes(r.value) && |r.value| == |s| / 2
    ensures r.Some? <==> |s| % 2 == 0 && AllHex(s)
  {
    if s == [] then Some([])
    else if |s| == 1 || !IsHexDigit(s[0]) || !IsHexDigit(s[1]) then None
    else
      match FromHex(s[2..])
      case None =>
        assert !AllHex(s[2..]) || |s[2..]| % 2 != 0;
        None
      case Some(rest) =>
        Some([16 * DigitValue(s[0]) + DigitValue(s[1])] + rest)
  }

  /** Two hex digits in front add their byte in front. */
  lemma FromHexPair(h: string, t: string)
    requires |h| == 2 && AllHex(h) && FromHex(t).Some?
    ensures FromHex(h + t) == Some([16 * DigitValue(h[0]) + DigitValue(h[1])] + FromHex(t).value)
  {
    var s := h + t;
    assert s[0] == h[0] && s[1] == h[1];
    SuffixOfAppend(h, t);
  }

  /** `bytes.fromhex` inverts the encoders' hex rendering. */
  lemma {:induction false} FromHexToHex(bs: seq<int>)
    requires IsBytes(bs)
    ensures FromHex(ToHex(bs)) == Some(bs)
  {
    if bs != [] {
      var h, t := ByteHex(bs[0]), ToHex(bs[1..]);
      assert ToHex(bs) == h + t;
      FromHexToHex(bs[1..]);
      FromHexPair(h, t);
      HeadTail(bs);
    }
  }
}
