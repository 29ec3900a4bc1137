/** Go strings as byte sequences, and Go's byte-wise string order. */
module Bytes {

  /** One byte of a Go string. */
  newtype byte = b: int | 0 <= b < 256

  /** `maxByte = 1<<8 - 1` in VersionOrdinal. */
  const MaxByte: int := 255

  const Zero: byte := 48  // '0'
  const Nine: byte := 57  // '9'
  const Dot: byte := 46   // '.'

  predicate IsDigit(b: byte) {
    Zero <= b <= Nine
  }

  predicate AllDigits(s: seq<byte>) {
    forall i :: 0 <= i < |s| ==> IsDigit(s[i])
  }

  /** Go's `a < b` on strings: the first differing byte decides, and a proper prefix is smaller. */
  predicate LexLess(a: seq<byte>, b: seq<byte>)
    decreases |a|
  {
    |b| > 0 && (|a| == 0 || a[0] < b[0] || (a[0] == b[0] && LexLess(a[1..], b[1..])))
  }

  /** Go's `a > b` on strings. */
  predicate Greater(a: seq<byte>, b: seq<byte>) {
    LexLess(b, a)
  }

  lemma {:induction false} LexLessIrreflexive(a: seq<byte>)
    ensures !LexLess(a, a)
    decreases |a|
  {
    if a != [] {
      LexLessIrreflexive(a[1..]);
    }
  }

  /** A common prefix does not change the order. */
  lemma {:induction false} LexLessCommonPrefix(p: seq<byte>, x: seq<byte>, y: seq<byte>)
    ensures LexLess(p + x, p + y) == LexLess(x, y)
    decreases |p|
  {
    if p == [] {
      assert p + x == x && p + y == y;
    } else {
      assert (p + x)[1..] == p[1..] + x;
      assert (p + y)[1..] == p[1..] + y;
      LexLessCommonPrefix(p[1..], x, y);
    }
  }

  /** When two equally long prefixes differ, whatever follows them does not matter. */
  lemma {:induction false} LexLessFirstDifference(x: seq<byte>, y: seq<byte>, s: seq<byte>, t: seq<byte>)
    requires |x| == |y| && x != y
    ensures LexLess(x + s, y + t) == LexLess(x, y)
    decreases |x|
  {
    assert |x| > 0;
    if x[0] == y[0] {
      assert x[1..] != y[1..];
      assert (x + s)[1..] == x[1..] + s;
      assert (y + t)[1..] == y[1..] + t;
      LexLessFirstDifference(x[1..], y[1..], s, t);
    }
  }

  /** Appending one byte to each of two equally long strings. */
  lemma LexLessSnoc(x: seq<byte>, y: seq<byte>, c: byte, d: byte)
    requires |x| == |y|
    ensures LexLess(x + [c], y + [d]) == (LexLess(x, y) || (x == y && c < d))
  {
    if x == y {
      LexLessCommonPrefix(x, [c], [d]);
      LexLessIrreflexive(x);
      assert LexLess([c], [d]) == (c < d) by {
        assert [c][1..] == [] && [d][1..] == [];
      }
    } else {
      LexLessFirstDifference(x, y, [c], [d]);
    }
  }
}
