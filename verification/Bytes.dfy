/** Byte strings, fixed-width integers and the few sequence facts the other modules share. */
module Bytes {

  type Byte = x: int | 0 <= x < 256
  type ByteString = seq<Byte>

  const TWO63: int := 0x8000_0000_0000_0000
  const TWO64: int := 0x1_0000_0000_0000_0000

  type Int64 = x: int | -0x8000_0000_0000_0000 <= x < 0x8000_0000_0000_0000
  type Uint64 = x: int | 0 <= x < 0x1_0000_0000_0000_0000

  datatype Option<+T> = None | Some(value: T)

  /** Two's-complement wrap-around of an exact result to 64 signed bits. */
  function Wrap64(x: int): (r: Int64)
    ensures -TWO63 <= x < TWO63 ==> r == x
  {
    (x + TWO63) % TWO64 - TWO63
  }

  /** Wrap-around of an exact result to 64 unsigned bits. */
  function WrapU64(x: int): (r: Uint64)
    ensures 0 <= x < TWO64 ==> r == x
  {
    x % TWO64
  }

  /** Division of the source language: truncates toward zero. */
  function TruncDiv(x: int, y: int): int
    requires y > 0
  {
    if x >= 0 then x / y else -((-x) / y)
  }

  /** The elements of `xs` that satisfy `keep`, in order. */
  function Filter<T>(xs: seq<T>, keep: T -> bool): seq<T> {
    if xs == [] then []
    else if keep(xs[0]) then [xs[0]] + Filter(xs[1..], keep)
    else Filter(xs[1..], keep)
  }

  lemma {:induction false} FilterAppend<T>(xs: seq<T>, ys: seq<T>, keep: T -> bool)
    ensures Filter(xs + ys, keep) == Filter(xs, keep) + Filter(ys, keep)
  {
    if xs == [] {
      assert xs + ys == ys;
    } else {
      assert (xs + ys)[1..] == xs[1..] + ys;
      FilterAppend(xs[1..], ys, keep);
    }
  }

  lemma {:induction false} FilterMembers<T>(xs: seq<T>, keep: T -> bool)
    ensures forall x :: x in Filter(xs, keep) <==> x in xs && keep(x)
    ensures |Filter(xs, keep)| <= |xs|
  {
    if xs != [] {
      FilterMembers(xs[1..], keep);
      assert xs == [xs[0]] + xs[1..];
    }
  }

  /** Filtering twice is filtering by the conjunction. */
  lemma {:induction false} FilterTwice<T>(xs: seq<T>, p: T -> bool, q: T -> bool, both: T -> bool)
    requires forall x :: x in xs ==> both(x) == (p(x) && q(x))
    ensures Filter(Filter(xs, p), q) == Filter(xs, both)
  {
    if xs != [] {
      assert forall x :: x in xs[1..] ==> x in xs;
      FilterTwice(xs[1..], p, q, both);
      if p(xs[0]) {
        assert ([xs[0]] + Filter(xs[1..], p))[1..] == Filter(xs[1..], p);
      }
    }
  }

  lemma {:induction false} FilterExt<T>(xs: seq<T>, p: T -> bool, q: T -> bool)
    requires forall x :: x in xs ==> p(x) == q(x)
    ensures Filter(xs, p) == Filter(xs, q)
  {
    if xs != [] {
      assert forall x :: x in xs[1..] ==> x in xs;
      FilterExt(xs[1..], p, q);
    }
  }

  // ----- byte order -----------------------------------------------------------------------------

  /** The first string is a proper prefix of the second, or smaller at the first byte where they differ. */
  ghost predicate BytesBefore(x: ByteString, y: ByteString) {
    exists n :: 0 <= n <= |x| && n <= |y| && SplitsAt(x, y, n)
  }

  ghost predicate SplitsAt(x: ByteString, y: ByteString, n: nat)
    requires n <= |x| && n <= |y|
  {
    x[..n] == y[..n] && n < |y| && (n == |x| || x[n] < y[n])
  }

  lemma SplitFirst(x: ByteString, y: ByteString, n: nat)
    requires n <= |x| && n <= |y| && SplitsAt(x, y, n)
    ensures y != [] && (n > 0 ==> x[0] == y[0])
    ensures n == 0 ==> x == [] || x[0] < y[0]
  {
    if n > 0 {
      assert x[..n][0] == y[..n][0];
    }
  }
}
