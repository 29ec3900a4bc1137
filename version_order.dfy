/**
 * Why dbLock (main.go:125-128) may compare `VersionOrdinal(v) > VersionOrdinal("5.5.0")` as
 * plain strings: for dotted numeric versions whose components are written without leading
 * zeros and have at most 255 digits, the byte order of the encodings is the numeric order of
 * the components, read left to right.
 */
module VersionOrder {
  import opened Bytes
  import opened Ordinals

  function Pow10(k: nat): (r: nat)
    ensures r >= 1
  {
    if k == 0 then 1 else 10 * Pow10(k - 1)
  }

  /** The decimal digits of `n`, without leading zeros. */
  function Digits(n: nat): (d: seq<byte>)
    ensures |d| >= 1 && AllDigits(d)
    ensures |d| == 1 <==> n < 10
    ensures d[0] == Zero <==> n == 0
    decreases n
  {
    if n < 10 then [(48 + n) as byte] else Digits(n / 10) + [(48 + n % 10) as byte]
  }

  /** The number a string of decimal digits stands for. */
  function Value(d: seq<byte>): nat
    requires AllDigits(d)
  {
    if d == [] then 0 else 10 * Value(d[..|d| - 1]) + (d[|d| - 1] - Zero) as int
  }

  lemma {:induction false} ValueOfDigits(n: nat)
    ensures Value(Digits(n)) == n
    decreases n
  {
    if n >= 10 {
      var d := Digits(n);
      assert d[..|d| - 1] == Digits(n / 10);
      ValueOfDigits(n / 10);
    }
  }

  /** Different numbers have different decimal representations. */
  lemma DigitsInjective(a: nat, b: nat)
    ensures Digits(a) == Digits(b) <==> a == b
  {
    ValueOfDigits(a);
    ValueOfDigits(b);
  }

  lemma {:induction false} Pow10Monotone(i: nat, j: nat)
    requires i <= j
    ensures Pow10(i) <= Pow10(j)
    decreases j
  {
    if i < j {
      Pow10Monotone(i, j - 1);
    }
  }

  /** A number with `k` digits lies in [10^(k-1), 10^k) (0 being the one-digit exception below). */
  lemma {:induction false} DigitsBounds(n: nat)
    ensures n < Pow10(|Digits(n)|)
    ensures n >= 10 ==> Pow10(|Digits(n)| - 1) <= n
    decreases n
  {
    if n >= 10 {
      DigitsBounds(n / 10);
      assert |Digits(n)| == |Digits(n / 10)| + 1;
    }
  }

  /** A number with fewer digits is smaller. */
  lemma ShorterIsSmaller(a: nat, b: nat)
    requires |Digits(a)| < |Digits(b)|
    ensures a < b
  {
    DigitsBounds(a);
    DigitsBounds(b);
    Pow10Monotone(|Digits(a)|, |Digits(b)| - 1);
  }

  /** For numbers of the same width, byte order of the digits is numeric order. */
  lemma {:induction false} DigitsOrder(a: nat, b: nat)
    requires |Digits(a)| == |Digits(b)|
    ensures LexLess(Digits(a), Digits(b)) <==> a < b
    decreases a
  {
    if a < 10 {
      var x, y := Digits(a), Digits(b);
      assert x[1..] == [] && y[1..] == [];
    } else {
      var x, y := Digits(a / 10), Digits(b / 10);
      assert Digits(a) == x + [(48 + a % 10) as byte];
      assert Digits(b) == y + [(48 + b % 10) as byte];
      LexLessSnoc(x, y, (48 + a % 10) as byte, (48 + b % 10) as byte);
      DigitsOrder(a / 10, b / 10);
      DigitsInjective(a / 10, b / 10);
    }
  }

  /** The numbers a version string is made of, written in decimal and joined by dots. */
  function Render(cs: seq<nat>): (v: seq<byte>)
    ensures v == [] <==> cs == []
    decreases |cs|
  {
    if cs == [] then []
    else if |cs| == 1 then Digits(cs[0])
    else Digits(cs[0]) + [Dot] + Render(cs[1..])
  }

  /** No component has more than 255 digits. */
  predicate Fits(cs: seq<nat>) {
    forall i :: 0 <= i < |cs| ==> |Digits(cs[i])| <= MaxByte
  }

  /** Versions compared component by component, numerically; a proper prefix is smaller. */
  predicate ComponentsLess(a: seq<nat>, b: seq<nat>)
    decreases |a|
  {
    |b| > 0 && (|a| == 0 || a[0] < b[0] || (a[0] == b[0] && ComponentsLess(a[1..], b[1..])))
  }

  /** How a component of at most 255 digits is encoded: its digit count, then its digits. */
  function Code(c: nat): seq<byte>
    requires |Digits(c)| <= MaxByte
  {
    [|Digits(c)| as byte] + Digits(c)
  }

  lemma OrdinalOfDigits(c: nat)
    requires |Digits(c)| <= MaxByte
    ensures Ordinal(Digits(c)) == Code(c)
  {
    var d := Digits(c);
    OrdinalOfRun(d);
    assert Significant(d) == d;
    LengthByteCounts(d);
  }

  /** Components of different widths: the digit counts differ, and they decide. */
  lemma WidthsDecide(x: nat, y: nat, s: seq<byte>, t: seq<byte>)
    requires |Digits(x)| <= MaxByte && |Digits(y)| <= MaxByte && |Digits(x)| != |Digits(y)|
    ensures LexLess(Code(x) + s, Code(y) + t) <==> x < y
  {
    if |Digits(x)| < |Digits(y)| {
      ShorterIsSmaller(x, y);
    } else {
      ShorterIsSmaller(y, x);
    }
    var ex, ey := Code(x) + s, Code(y) + t;
    assert ex[0] == |Digits(x)| as byte && ey[0] == |Digits(y)| as byte;
  }

  /** Different components of the same width: the digits decide. */
  lemma DigitsDecide(x: nat, y: nat, s: seq<byte>, t: seq<byte>)
    requires |Digits(x)| <= MaxByte && |Digits(x)| == |Digits(y)| && x != y
    ensures LexLess(Code(x) + s, Code(y) + t) <==> x < y
  {
    DigitsInjective(x, y);
    assert Code(x)[1..] == Digits(x) && Code(y)[1..] == Digits(y);
    LexLessFirstDifference(Code(x), Code(y), s, t);
    LexLessCommonPrefix([|Digits(x)| as byte], Digits(x), Digits(y));
    DigitsOrder(x, y);
  }

  /** Two different leading components decide the order, whatever follows them. */
  lemma HeadsDecide(x: nat, y: nat, s: seq<byte>, t: seq<byte>)
    requires x != y && |Digits(x)| <= MaxByte && |Digits(y)| <= MaxByte
    ensures LexLess(Code(x) + s, Code(y) + t) <==> x < y
  {
    if |Digits(x)| != |Digits(y)| {
      WidthsDecide(x, y, s, t);
    } else {
      DigitsDecide(x, y, s, t);
    }
  }

  /** What follows the first component: nothing, or a dot and the rest. */
  function Tail(cs: seq<nat>): seq<byte>
    requires cs != []
  {
    if |cs| == 1 then [] else [Dot] + Ordinal(Render(cs[1..]))
  }

  /** Each dot closes a component. */
  lemma OrdinalHeadTail(cs: seq<nat>)
    requires cs != [] && |Digits(cs[0])| <= MaxByte
    ensures Ordinal(Render(cs)) == Code(cs[0]) + Tail(cs)
  {
    OrdinalOfDigits(cs[0]);
    if |cs| > 1 {
      var rest := Render(cs[1..]);
      assert Render(cs) == Digits(cs[0]) + [Dot] + rest;
      OrdinalSplit(Digits(cs[0]), Dot, rest);
      ConcatAssoc(Code(cs[0]), [Dot], Ordinal(rest));
    } else {
      assert Render(cs) == Digits(cs[0]);
    }
  }

  /**
   * The ordering theorem: comparing encodings as Go strings compares the versions
   * component by component, numerically.
   */
  lemma {:induction false} OrdinalOrdersVersions(a: seq<nat>, b: seq<nat>)
    requires Fits(a) && Fits(b)
    ensures LexLess(Ordinal(Render(a)), Ordinal(Render(b))) <==> ComponentsLess(a, b)
    decreases |a|
  {
    if a == [] || b == [] {
      assert Ordinal([]) == [];
      if b != [] {
        OrdinalHeadTail(b);
      }
    } else {
      OrdinalHeadTail(a);
      OrdinalHeadTail(b);
      if a[0] != b[0] {
        HeadsDecide(a[0], b[0], Tail(a), Tail(b));
      } else {
        LexLessCommonPrefix(Code(a[0]), Tail(a), Tail(b));
        TailsOrder(a, b);
      }
    }
  }

  /** With equal first components, the tails decide, as the rest of the versions do. */
  lemma {:induction false} TailsOrder(a: seq<nat>, b: seq<nat>)
    requires a != [] && b != [] && Fits(a) && Fits(b)
    ensures LexLess(Tail(a), Tail(b)) <==> ComponentsLess(a[1..], b[1..])
    decreases |a|, 0
  {
    if |a| > 1 && |b| > 1 {
      LexLessCommonPrefix([Dot], Ordinal(Render(a[1..])), Ordinal(Render(b[1..])));
      assert Fits(a[1..]) && Fits(b[1..]) by {
        assert forall i :: 0 <= i < |a| - 1 ==> a[1..][i] == a[i + 1];
        assert forall i :: 0 <= i < |b| - 1 ==> b[1..][i] == b[i + 1];
      }
      OrdinalOrdersVersions(a[1..], b[1..]);
    }
  }

  /** The digit count comes first, so a component with more digits is always larger. */
  lemma LongerComponentWins(x: nat, y: nat, s: seq<byte>, t: seq<byte>)
    requires |Digits(x)| < |Digits(y)| <= MaxByte
    ensures LexLess(Code(x) + s, Code(y) + t)
  {
    WidthsDecide(x, y, s, t);
    ShorterIsSmaller(x, y);
  }

  /** "5.10.1" as bytes. */
  const V5101: seq<byte> := [53, 46, 49, 48, 46, 49]
  /** "5.5.0" as bytes, the version dbLock compares against (main.go:127). */
  const V550: seq<byte> := [53, 46, 53, 46, 48]

  lemma RenderExamples()
    ensures Render([5, 10, 1]) == V5101 && Render([5, 5, 0]) == V550
  {
    assert Digits(10) == [49, 48];
    assert [5, 10, 1][1..] == [10, 1] && [10, 1][1..] == [1];
    assert [5, 5, 0][1..] == [5, 0] && [5, 0][1..] == [0];
  }

  /** 5.5.0, the version dbLock compares against, as components. */
  lemma MinimumVersion()
    ensures Fits([5, 5, 0]) && Render([5, 5, 0]) == V550
  {
    RenderExamples();
    assert Digits(5) == [53] && Digits(0) == [48];
  }

  /** The example of dbLock's comparison: 5.10.1 is newer than 5.5.0, though "5.1" < "5.5" as text. */
  lemma NewerThanMinimum()
    ensures Greater(Ordinal(V5101), Ordinal(V550))
    ensures LexLess(V5101, V550)
  {
    RenderExamples();
    assert Fits([5, 10, 1]) && Fits([5, 5, 0]) by {
      assert Digits(10) == [49, 48];
    }
    assert ComponentsLess([5, 5, 0], [5, 10, 1]) by {
      assert [5, 5, 0][1..] == [5, 0] && [5, 10, 1][1..] == [10, 1];
    }
    OrdinalOrdersVersions([5, 5, 0], [5, 10, 1]);
    assert V5101[1..] == [46, 49, 48, 46, 49] && V550[1..] == [46, 53, 46, 48];
  }
}
