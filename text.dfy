/** String helpers shared by the decoders, the line buffer and the command
    builders: splitting and joining on a separator, white space as JavaScript
    and Python see it, decimal rendering of integers, and a scanner for the
    `rssi([-+]?\d+)` / `snr([-+]?\d+)` searches of the diagnostics suffix. */
module Text {
  import opened Sequences
  import opened Wrappers

  predicate IsAsciiDigit(c: char) { '0' <= c <= '9' }

  predicate IsAsciiLetter(c: char) { 'a' <= c <= 'z' || 'A' <= c <= 'Z' }

  predicate IsAsciiAlnum(c: char) { IsAsciiDigit(c) || IsAsciiLetter(c) }

  /** ECMAScript WhiteSpace and LineTerminator code points: what `trim()`,
      `parseInt` and the regular expression class `\s` skip. */
  predicate IsJsWhite(c: char)
  {
    var n := c as int;
    (0x09 <= n <= 0x0D) || n == 0x20 || n == 0xA0 || n == 0x1680
    || (0x2000 <= n <= 0x200A) || n == 0x2028 || n == 0x2029 || n == 0x202F
    || n == 0x205F || n == 0x3000 || n == 0xFEFF
  }

  /** Python's `str.isspace()`: the white space `strip()` removes and `int()`
      allows around its argument. */
  predicate IsPyWhite(c: char)
  {
    var n := c as int;
    (0x09 <= n <= 0x0D) || (0x1C <= n <= 0x20) || n == 0x85 || n == 0xA0 || n == 0x1680
    || (0x2000 <= n <= 0x200A) || n == 0x2028 || n == 0x2029 || n == 0x202F
    || n == 0x205F || n == 0x3000
  }

  function TrimStartJs(s: string): (t: string)
    ensures |t| <= |s|
    ensures t == [] || !IsJsWhite(t[0])
  {
    if s != [] && IsJsWhite(s[0]) then TrimStartJs(s[1..]) else s
  }

  function TrimEndJs(s: string): (t: string)
    ensures |t| <= |s| && t == s[..|t|]
    ensures t == [] || !IsJsWhite(t[|t| - 1])
  {
    if s != [] && IsJsWhite(s[|s| - 1]) then TrimEndJs(s[..|s| - 1]) else s
  }

  /** JavaScript `s.trim()`. */
  function TrimJs(s: string): string
  {
    TrimEndJs(TrimStartJs(s))
  }

  /** JavaScript `s.replace(/\s/g, '')`. */
  function RemoveJsWhite(s: string): (t: string)
    ensures forall i | 0 <= i < |t| :: !IsJsWhite(t[i])
    ensures |t| <= |s|
  {
    if s == [] then []
    else if IsJsWhite(s[0]) then RemoveJsWhite(s[1..])
    else [s[0]] + RemoveJsWhite(s[1..])
  }

  /** Removing white space from a concatenation removes it from each part. */
  lemma {:induction false} RemoveJsWhiteAppend(a: string, b: string)
    ensures RemoveJsWhite(a + b) == RemoveJsWhite(a) + RemoveJsWhite(b)
  {
    if a != [] {
      assert (a + b)[1..] == a[1..] + b;
      RemoveJsWhiteAppend(a[1..], b);
    } else {
      assert a + b == b;
    }
  }

  /** A string without white space is left as it is. */
  lemma {:induction false} RemoveJsWhiteOfPlain(s: string)
    requires forall i | 0 <= i < |s| :: !IsJsWhite(s[i])
    ensures RemoveJsWhite(s) == s
  {
    if s != [] {
      RemoveJsWhiteOfPlain(s[1..]);
    }
  }

  /** `trim()` leaves a string that starts and ends with a visible character. */
  lemma TrimJsOfPlain(s: string)
    requires s != [] && !IsJsWhite(s[0]) && !IsJsWhite(s[|s| - 1])
    ensures TrimJs(s) == s
  {
  }

  /** `trim()` of a trimmed string changes nothing. */
  lemma TrimJsTwice(s: string)
    ensures TrimJs(TrimJs(s)) == TrimJs(s)
  {
    var t := TrimJs(s);
    if t != [] {
      assert t[0] == TrimStartJs(s)[0];
      TrimJsOfPlain(t);
    }
  }

  /** Python's `s.strip()`: white space removed at both ends. */
  function TrimPy(s: string): (t: string)
    ensures |t| <= |s|
    ensures t != [] ==> !IsPyWhite(t[0]) && !IsPyWhite(t[|t| - 1])
  {
    if s != [] && IsPyWhite(s[0]) then TrimPy(s[1..])
    else if s != [] && IsPyWhite(s[|s| - 1]) then TrimPy(s[..|s| - 1])
    else s
  }

  predicate StartsWith(s: string, prefix: string)
  {
    |prefix| <= |s| && s[..|prefix|] == prefix
  }

  /** Python's `sub in s` and JavaScript's `s.includes(sub)`. */
  predicate Contains(s: string, sub: string)
    decreases |s|
  {
    StartsWith(s, sub) || (s != [] && Contains(s[1..], sub))
  }

  /** Index of the first c in s, or -1 (JavaScript `indexOf`). */
  function IndexOf(s: string, c: char): (k: int)
    ensures -1 <= k < |s|
    ensures k >= 0 ==> s[k] == c
  {
    if s == [] then -1
    else if s[0] == c then 0
    else
      var k := IndexOf(s[1..], c);
      if k == -1 then -1 else k + 1
  }

  /** IndexOf finds the first c, and -1 exactly when there is none. */
  lemma {:induction false} IndexOfFirst(s: string, c: char)
    ensures IndexOf(s, c) == -1 <==> c !in s
    ensures IndexOf(s, c) >= 0 ==> c !in s[..IndexOf(s, c)]
  {
    if s != [] && s[0] != c {
      IndexOfFirst(s[1..], c);
      var k := IndexOf(s[1..], c);
      assert s == [s[0]] + s[1..];
      if k != -1 {
        assert s[..k + 1] == [s[0]] + s[1..][..k];
      }
    }
  }

  /** The first c is at k when s[k] is c and no earlier character is. */
  lemma {:induction false} IndexOfAt(s: string, c: char, k: nat)
    requires k < |s| && s[k] == c
    requires forall i | 0 <= i < k :: s[i] != c
    ensures IndexOf(s, c) == k
  {
    if k > 0 {
      IndexOfAt(s[1..], c, k - 1);
    }
  }

  /** The first piece of a split is everything before the first separator. */
  lemma SplitFirst(s: string, c: char, k: nat)
    requires k < |s| && s[k] == c
    requires forall i | 0 <= i < k :: s[i] != c
    ensures Split(s, c)[0] == s[..k]
  {
    IndexOfAt(s, c, k);
  }

  /** `s.split(c)` in both JavaScript and Python: the pieces between the
      occurrences of c, so one more piece than there are separators. */
  function Split(s: string, c: char): (parts: seq<string>)
    ensures |parts| >= 1
    decreases |s|
  {
    var k := IndexOf(s, c);
    if k == -1 then [s]
    else [s[..k]] + Split(s[k + 1..], c)
  }

  /** No piece holds the separator. */
  lemma {:induction false} SplitPiecesPlain(s: string, c: char)
    ensures forall i | 0 <= i < |Split(s, c)| :: c !in Split(s, c)[i]
    decreases |s|
  {
    var k := IndexOf(s, c);
    IndexOfFirst(s, c);
    if k != -1 {
      SplitPiecesPlain(s[k + 1..], c);
    }
  }

  /** Joining the pieces with the separator gives the string back. */
  lemma {:induction false} SplitJoin(s: string, c: char)
    ensures Join(Split(s, c), c) == s
    decreases |s|
  {
    var k := IndexOf(s, c);
    if k != -1 {
      var rest := Split(s[k + 1..], c);
      SplitJoin(s[k + 1..], c);
      Around(s, k);
      ConsTail(s[..k], rest);
    }
  }

  /** Two pieces without the separator, joined by it, split back into those
      two pieces. */
  lemma SplitTwo(a: string, c: char, b: string)
    requires c !in a && c !in b
    ensures Split(a + [c] + b, c) == [a, b]
  {
    var s := a + [c] + b;
    IndexOfAt(s, c, |a|);
    IndexOfFirst(b, c);
    Associative(a, [c], b);
    PrefixOfAppend(a, [c] + b);
    SuffixOfAppend(a + [c], b);
    assert s[|a|] == c;
  }

  /** Splitting s + t: the pieces of s before its last one, then the pieces
      of that last piece followed by t. */
  lemma {:induction false} SplitAppend(s: string, t: string, c: char)
    ensures Split(s + t, c)
      == Split(s, c)[..|Split(s, c)| - 1] + Split(Split(s, c)[|Split(s, c)| - 1] + t, c)
    decreases |s|, 1
  {
    var k := IndexOf(s, c);
    if k == -1 {
      assert Split(s, c) == [s];
      assert Split(s, c)[..0] == [];
    } else {
      SplitAppendAt(s, t, c, k);
    }
  }

  /** SplitAppend when s has a separator, the first at k. */
  lemma {:induction false} SplitAppendAt(s: string, t: string, c: char, k: int)
    requires 0 <= k == IndexOf(s, c)
    ensures Split(s + t, c)
      == Split(s, c)[..|Split(s, c)| - 1] + Split(Split(s, c)[|Split(s, c)| - 1] + t, c)
    decreases |s|, 0
  {
    var tail := s[k + 1..];
    FirstPieceOfAppend(s, t, c, k);
    SplitAppend(tail, t, c);
    RegroupPieces(s, t, c, s[..k], tail);
  }

  /** The pieces of s + t regrouped, given how s and s + t split after their
      first piece and how the rest splits with t appended. */
  lemma RegroupPieces(s: string, t: string, c: char, head: string, tail: string)
    requires Split(s, c) == [head] + Split(tail, c)
    requires Split(s + t, c) == [head] + Split(tail + t, c)
    requires Split(tail + t, c)
      == Split(tail, c)[..|Split(tail, c)| - 1] + Split(Split(tail, c)[|Split(tail, c)| - 1] + t, c)
    ensures Split(s + t, c)
      == Split(s, c)[..|Split(s, c)| - 1] + Split(Split(s, c)[|Split(s, c)| - 1] + t, c)
  {
    var rest, parts, whole := Split(tail, c), Split(s, c), Split(s + t, c);
    var tailParts, more := Split(tail + t, c), Split(rest[|rest| - 1] + t, c);
    Regroup(head, rest, parts, whole, tailParts, more);
  }

  /** With its first separator at k, s and s + t both split into s[..k]
      and the pieces of what follows the separator. */
  lemma FirstPieceOfAppend(s: string, t: string, c: char, k: int)
    requires 0 <= k == IndexOf(s, c)
    ensures Split(s, c) == [s[..k]] + Split(s[k + 1..], c)
    ensures Split(s + t, c) == [s[..k]] + Split(s[k + 1..] + t, c)
  {
    IndexOfAppend(s, t, c);
    SplitUnfold(s + t, c, k);
    assert (s + t)[k + 1..] == s[k + 1..] + t && (s + t)[..k] == s[..k];
  }

  /** Split takes one piece off at the first separator. */
  lemma SplitUnfold(u: string, c: char, k: int)
    requires 0 <= k == IndexOf(u, c)
    ensures Split(u, c) == [u[..k]] + Split(u[k + 1..], c)
  {
  }

  /** A separator in s is found at the same place in s + t. */
  lemma {:induction false} IndexOfAppend(s: string, t: string, c: char)
    requires IndexOf(s, c) != -1
    ensures IndexOf(s + t, c) == IndexOf(s, c)
  {
    if s[0] != c {
      assert (s + t)[1..] == s[1..] + t;
      IndexOfAppend(s[1..], t, c);
    }
  }

  /** A string without the separator is a single piece. */
  lemma SplitPlain(s: string, c: char)
    requires c !in s
    ensures Split(s, c) == [s]
  {
    IndexOfFirst(s, c);
  }

  /** A string splits into more than one piece exactly when it contains
      the separator. */
  lemma SplitPieces(s: string, c: char)
    ensures |Split(s, c)| >= 2 <==> c in s
  {
    IndexOfFirst(s, c);
  }

  /** `parts.join(c)`. */
  function Join(parts: seq<string>, c: char): string
  {
    if parts == [] then ""
    else if |parts| == 1 then parts[0]
    else parts[0] + [c] + Join(parts[1..], c)
  }

  /** Joining one more piece adds the separator and that piece. */
  lemma {:induction false} JoinSnoc(parts: seq<string>, last: string, c: char)
    requires parts != []
    ensures Join(parts + [last], c) == Join(parts, c) + [c] + last
  {
    if |parts| > 1 {
      assert (parts + [last])[1..] == parts[1..] + [last];
      JoinSnoc(parts[1..], last, c);
    }
  }

  /** `"".join(parts)`. */
  function Concat(parts: seq<string>): string
  {
    if parts == [] then "" else parts[0] + Concat(parts[1..])
  }

  /** Joining a single part gives the part. */
  lemma ConcatOne(x: string)
    ensures Concat([x]) == x
  {
    assert [x][1..] == [];
  }

  lemma {:induction false} ConcatAppend(a: seq<string>, b: seq<string>)
    ensures Concat(a + b) == Concat(a) + Concat(b)
  {
    if a != [] {
      assert (a + b)[1..] == a[1..] + b;
      ConcatAppend(a[1..], b);
    } else {
      assert a + b == b;
    }
  }

  /** Python's and JavaScript's slice `s[lo:hi]`, which clamps both ends to
      the length instead of failing. */
  function Slice<T>(s: seq<T>, lo: nat, hi: nat): (r: seq<T>)
    ensures |r| == if hi <= lo || lo >= |s| then 0 else (if hi <= |s| then hi else |s|) - lo
  {
    var h := if hi <= |s| then hi else |s|;
    if lo >= h then [] else s[lo..h]
  }

  /** Within bounds, the clamping slice is the plain subsequence. */
  lemma SliceInBounds<T>(s: seq<T>, lo: nat, hi: nat)
    requires lo <= hi <= |s|
    ensures Slice(s, lo, hi) == s[lo..hi]
  {
  }

  function DigitChar(d: nat): char
    requires d < 10
  {
    "0123456789"[d]
  }

  /** The digit character of d stands for d. */
  lemma DigitCharValue(d: nat)
    requires d < 10
    ensures IsAsciiDigit(DigitChar(d)) && DigitChar(d) as int - '0' as int == d
  {
    var digits := "0123456789";
    assert forall k | 0 <= k < 10 :: digits[k] as int == '0' as int + k;
  }

  /** Decimal rendering of a natural number, as String(n) and str(n) write it. */
  function NatToDecimal(n: nat): (s: string)
    ensures |s| >= 1 && forall i | 0 <= i < |s| :: IsAsciiDigit(s[i])
  {
    if n < 10 then [DigitChar(n)] else NatToDecimal(n / 10) + [DigitChar(n % 10)]
  }

  /** Decimal rendering of an integer: a '-' before the digits of a negative one. */
  function IntToDecimal(i: int): (s: string)
    ensures |s| >= 1
    ensures i >= 0 ==> forall k | 0 <= k < |s| :: IsAsciiDigit(s[k])
    ensures i < 0 ==> s[0] == '-' && |s| >= 2 && forall k | 1 <= k < |s| :: IsAsciiDigit(s[k])
  {
    if i < 0 then "-" + NatToDecimal(-i) else NatToDecimal(i)
  }

  /** Number of leading ASCII digits. */
  function DigitRun(s: string): (n: nat)
    ensures n <= |s|
    ensures forall i | 0 <= i < n :: IsAsciiDigit(s[i])
    ensures n < |s| ==> !IsAsciiDigit(s[n])
  {
    if s != [] && IsAsciiDigit(s[0]) then 1 + DigitRun(s[1..]) else 0
  }

  /** The group `[-+]?\d+` matched greedily at the start of t, if any. */
  function SignedDigitsAt(t: string): Option<string>
  {
    var signLen := if t != [] && (t[0] == '-' || t[0] == '+') then 1 else 0;
    var n := DigitRun(t[signLen..]);
    if n == 0 then None else Some(t[..signLen + n])
  }

  /** The pattern `tag([-+]?\d+)` matches at the start of s. */
  predicate TagAt(s: string, tag: string)
  {
    |tag| <= |s| && s[..|tag|] == tag && SignedDigitsAt(s[|tag|..]).Some?
  }

  /** A regular-expression search for `tag([-+]?\d+)`: the group of the
      leftmost position where the pattern matches, or None. */
  function SearchTagged(s: string, tag: string): (r: Option<string>)
    ensures r.Some? ==> |r.value| >= 1
    decreases |s|
  {
    if TagAt(s, tag) then SignedDigitsAt(s[|tag|..])
    else if s == [] then None
    else SearchTagged(s[1..], tag)
  }

  /** Where no position inside `pre` starts a match, the search result is
      decided by `rest` alone. */
  lemma {:induction false} SearchSkips(pre: string, rest: string, tag: string)
    requires forall k | 0 <= k < |pre| :: !TagAt((pre + rest)[k..], tag)
    ensures SearchTagged(pre + rest, tag) == SearchTagged(rest, tag)
    decreases |pre|
  {
    if pre != [] {
      var s := pre + rest;
      assert s[1..] == pre[1..] + rest;
      forall k | 0 <= k < |pre[1..]|
        ensures !TagAt((pre[1..] + rest)[k..], tag)
      {
        assert (pre[1..] + rest)[k..] == s[k + 1..];
      }
      SearchSkips(pre[1..], rest, tag);
      assert s[0..] == s;
    } else {
      assert pre + rest == rest;
    }
  }

  /** Text that starts with neither a sign nor a digit has no signed
      digits at its start. */
  lemma NoDigitsAt(t: string)
    requires |t| > 0 && !IsAsciiDigit(t[0]) && t[0] != '-' && t[0] != '+'
    ensures SignedDigitsAt(t) == None
  {
  }

  /** The pattern cannot match where the text differs from the tag in its
      first or second character. */
  lemma NoTagAt(s: string, k: nat, tag: string)
    requires 2 <= |tag| && k < |s|
    requires s[k] != tag[0] || (k + 1 < |s| && s[k + 1] != tag[1])
    ensures !TagAt(s[k..], tag)
  {
    var t := s[k..];
    if |tag| <= |t| {
      assert t[..|tag|][0] == s[k];
      if k + 1 < |s| {
        assert t[..|tag|][1] == s[k + 1];
      }
    }
  }

  /** A search in text where the pattern matches nowhere finds nothing. */
  lemma SearchNone(s: string, tag: string)
    requires forall k | 0 <= k < |s| :: !TagAt(s[k..], tag)
    ensures SearchTagged(s, tag) == None
  {
    AppendNothing(s);
    SearchSkips(s, [], tag);
    assert !TagAt([], tag);
  }

  /** `tag` followed by the decimal rendering of n is found with that rendering
      as its group, however the text continues after a non-digit. */
  lemma TaggedDecimal(tag: string, n: int, tail: string)
    requires tail == [] || !IsAsciiDigit(tail[0])
    ensures SearchTagged(tag + IntToDecimal(n) + tail, tag) == Some(IntToDecimal(n))
  {
    var d := IntToDecimal(n);
    var t := d + tail;
    Associative(tag, d, tail);
    PrefixOfAppend(tag, t);
    SuffixOfAppend(tag, t);
    var signLen := if n < 0 then 1 else 0;
    assert t[0] == d[0];
    DropAppend(d, tail, signLen);
    DigitRunOver(d[signLen..], tail);
    PrefixOfAppend(d, tail);
  }

  lemma {:induction false} DigitRunOver(digits: string, tail: string)
    requires forall i | 0 <= i < |digits| :: IsAsciiDigit(digits[i])
    requires tail == [] || !IsAsciiDigit(tail[0])
    ensures DigitRun(digits + tail) == |digits|
  {
    if digits != [] {
      assert (digits + tail)[1..] == digits[1..] + tail;
      DigitRunOver(digits[1..], tail);
    } else {
      assert digits + tail == tail;
    }
  }
}
