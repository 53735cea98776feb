/** Generic facts about sequence concatenation and slicing, stated once so
    that proofs about bytes and text can use them without the solver
    rediscovering them on every concrete sequence. */
module Sequences {

  lemma Associative<T>(a: seq<T>, b: seq<T>, c: seq<T>)
    ensures a + b + c == a + (b + c)
  {
  }

  lemma AppendNothing<T>(a: seq<T>)
    ensures a + [] == a
  {
  }

  /** Slicing past the first part of a concatenation slices the second. */
  lemma SliceAfter<T>(a: seq<T>, b: seq<T>, lo: nat, hi: nat)
    requires lo <= hi <= |b|
    ensures (a + b)[|a| + lo..|a| + hi] == b[lo..hi]
  {
  }

  /** The first part of a concatenation is its prefix of that length. */
  lemma PrefixOfAppend<T>(a: seq<T>, b: seq<T>)
    ensures (a + b)[..|a|] == a
  {
  }

  /** What follows the first part of a concatenation is the second. */
  lemma SuffixOfAppend<T>(a: seq<T>, b: seq<T>)
    ensures (a + b)[|a|..] == b
  {
  }

  /** Dropping from a concatenation less than its first part. */
  lemma DropAppend<T>(a: seq<T>, b: seq<T>, k: nat)
    requires k <= |a|
    ensures (a + b)[k..] == a[k..] + b
  {
  }

  /** A sequence is what precedes index k, the element there, and what follows. */
  lemma Around<T>(s: seq<T>, k: nat)
    requires k < |s|
    ensures s[..k] + [s[k]] + s[k + 1..] == s
  {
  }

  /** The tail of a sequence built by putting x in front of r is r. */
  lemma ConsTail<T>(x: T, r: seq<T>)
    ensures ([x] + r)[0] == x && ([x] + r)[1..] == r
  {
  }

  /** Putting x in front keeps the last element and the rest before it. */
  lemma ConsLast<T>(x: T, r: seq<T>)
    requires |r| >= 1
    ensures ([x] + r)[|r|] == r[|r| - 1] && ([x] + r)[..|r|] == [x] + r[..|r| - 1]
  {
  }

  /** Pieces regrouped: a first piece in front of the pieces of the rest,
      whose last piece has been replaced by more pieces. */
  lemma Regroup<T>(head: T, rest: seq<T>, parts: seq<T>, whole: seq<T>, tailParts: seq<T>, more: seq<T>)
    requires |rest| >= 1 && parts == [head] + rest
    requires whole == [head] + tailParts && tailParts == rest[..|rest| - 1] + more
    ensures parts[|parts| - 1] == rest[|rest| - 1]
    ensures whole == parts[..|parts| - 1] + more
  {
    assert parts[..|parts| - 1] == [head] + rest[..|rest| - 1];
  }

  /** The front and the last element of a concatenation whose second part
      is not empty. */
  lemma FrontOfAppend<T>(a: seq<T>, b: seq<T>)
    requires |b| >= 1
    ensures (a + b)[..|a + b| - 1] == a + b[..|b| - 1]
    ensures (a + b)[|a + b| - 1] == b[|b| - 1]
  {
  }

  /** One more element of a prefix. */
  lemma TakeOneMore<T>(s: seq<T>, i: nat)
    requires i < |s|
    ensures s[..i + 1] == s[..i] + [s[i]]
  {
  }

  /** The prefix of full length is the whole sequence. */
  lemma TakeAll<T>(s: seq<T>)
    ensures s[..|s|] == s
  {
  }

  /** A sequence is its prefix and suffix at any cut. */
  lemma SplitAt<T>(s: seq<T>, i: nat)
    requires i <= |s|
    ensures s[..i] + s[i..] == s
  {
  }

  /** A non-empty sequence is its first element and the rest. */
  lemma HeadTail<T>(s: seq<T>)
    requires |s| > 0
    ensures s == [s[0]] + s[1..]
  {
  }

  /** A non-empty sequence is all but its last element and that element. */
  lemma FrontLast<T>(s: seq<T>)
    requires |s| > 0
    ensures s == s[..|s| - 1] + [s[|s| - 1]]
  {
  }

  /** One element appended: the old sequence is its front and the element
      its last. */
  lemma Snoc<T>(s: seq<T>, x: T)
    ensures (s + [x])[..|s|] == s && (s + [x])[|s|] == x
    ensures s != [] ==> (s + [x])[1..] == s[1..] + [x]
  {
  }

  /** A slice is the slice up to a midpoint followed by the slice after it. */
  lemma SliceJoin<T>(s: seq<T>, a: nat, b: nat, c: nat)
    requires a <= b <= c <= |s|
    ensures s[a..c] == s[a..b] + s[b..c]
  {
  }

  /** f applied to each element, in order. */
  function Map<A, B>(f: A -> B, xs: seq<A>): (ys: seq<B>)
    ensures |ys| == |xs|
  {
    if xs == [] then [] else [f(xs[0])] + Map(f, xs[1..])
  }

  /** Element k of a map is f of element k. */
  lemma {:induction false} MapAt<A, B>(f: A -> B, xs: seq<A>, k: nat)
    requires k < |xs|
    ensures Map(f, xs)[k] == f(xs[k])
  {
    if k > 0 {
      MapAt(f, xs[1..], k - 1);
    }
  }
}
