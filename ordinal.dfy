/**
 * VersionOrdinal (main.go:27-54): re-encodes a version string so that Go's plain byte-wise
 * string order compares versions component by component.
 *
 * The model reads the input as a sequence of pieces: every non-digit byte is a piece
 * of its own, every maximal run of digits is one piece. A non-digit piece is copied through;
 * a run becomes a length byte followed by its significant digits (leading zeros dropped,
 * at least one digit kept).
 *
 * The length byte is a Go `byte` and is incremented in byte arithmetic. The guard meant to
 * stop at 255 digits (`vo[j]+1 > maxByte`) is evaluated in byte arithmetic as well, so it
 * never fires: a run of 256 significant digits gets the length byte 0. The model keeps that
 * wrap-around (`Inc`, `Wrap`) instead of excluding long runs by a precondition.
 */
module Ordinals {
  import opened Bytes

  /** One piece of a version string. */
  datatype Piece = Sep(b: byte) | Run(digits: seq<byte>)

  /** The bytes a piece stands for. */
  function PieceBytes(p: Piece): seq<byte> {
    match p
    case Sep(b) => [b]
    case Run(d) => d
  }

  /** Inverse of the decomposition: the pieces written back to back. */
  function Flatten(ps: seq<Piece>): seq<byte> {
    if ps == [] then [] else Flatten(ps[..|ps| - 1]) + PieceBytes(ps[|ps| - 1])
  }

  predicate PieceOk(p: Piece) {
    match p
    case Sep(b) => !IsDigit(b)
    case Run(d) => d != [] && AllDigits(d)
  }

  /** Every piece is proper, and no two runs are adjacent, so every run is maximal. */
  predicate WellFormed(ps: seq<Piece>) {
    (forall i :: 0 <= i < |ps| ==> PieceOk(ps[i])) &&
    (forall i :: 0 <= i < |ps| - 1 ==> ps[i].Sep? || ps[i + 1].Sep?)
  }

  /** What one more input byte does to the pieces read so far. */
  function Step(ps: seq<Piece>, b: byte): seq<Piece> {
    if !IsDigit(b) then ps + [Sep(b)]
    else if ps != [] && ps[|ps| - 1].Run? then ps[..|ps| - 1] + [Run(ps[|ps| - 1].digits + [b])]
    else ps + [Run([b])]
  }

  /**
   * The decomposition of `v` into pieces, built from the end so that one more input byte is
   * one more step, as in the scanning loop.
   */
  function Pieces(v: seq<byte>): (ps: seq<Piece>)
    ensures ps == [] <==> v == []
    decreases |v|
  {
    if v == [] then [] else Step(Pieces(v[..|v| - 1]), v[|v| - 1])
  }

  /** `Pieces` of one more byte. */
  lemma PiecesSnoc(p: seq<byte>, b: byte)
    ensures Pieces(p + [b]) == Step(Pieces(p), b)
  {
    assert (p + [b])[..|p|] == p;
  }

  lemma FlattenSnoc(ps: seq<Piece>, q: Piece)
    ensures Flatten(ps + [q]) == Flatten(ps) + PieceBytes(q)
  {
    assert (ps + [q])[..|ps|] == ps;
  }

  /** One step adds the byte at the end of what the pieces spell out. */
  lemma FlattenStep(qs: seq<Piece>, b: byte)
    ensures Flatten(Step(qs, b)) == Flatten(qs) + [b]
  {
    if !IsDigit(b) {
      FlattenSnoc(qs, Sep(b));
    } else if qs != [] && qs[|qs| - 1].Run? {
      var init, d := qs[..|qs| - 1], qs[|qs| - 1].digits;
      assert qs == init + [Run(d)];
      FlattenSnoc(init, Run(d));
      FlattenSnoc(init, Run(d + [b]));
    } else {
      FlattenSnoc(qs, Run([b]));
    }
  }

  /** One step keeps the pieces proper and the runs maximal. */
  lemma WellFormedStep(qs: seq<Piece>, b: byte)
    requires WellFormed(qs)
    ensures WellFormed(Step(qs, b))
    ensures Step(qs, b)[|Step(qs, b)| - 1].Run? <==> IsDigit(b)
  {
    var ps := Step(qs, b);
    if IsDigit(b) && qs != [] && qs[|qs| - 1].Run? {
      var d := qs[|qs| - 1].digits;
      assert forall i :: 0 <= i < |qs| - 1 ==> ps[i] == qs[i];
      assert AllDigits(d + [b]);
    } else {
      assert forall i :: 0 <= i < |qs| ==> ps[i] == qs[i];
    }
  }

  /** The pieces of `v` spell out `v`, every piece is proper and every run is maximal. */
  lemma {:induction false} PiecesDecompose(v: seq<byte>)
    ensures Flatten(Pieces(v)) == v
    ensures WellFormed(Pieces(v))
    ensures v != [] ==> (Pieces(v)[|Pieces(v)| - 1].Run? <==> IsDigit(v[|v| - 1]))
    decreases |v|
  {
    if v != [] {
      var p, b := v[..|v| - 1], v[|v| - 1];
      assert v == p + [b];
      PiecesDecompose(p);
      PiecesSnoc(p, b);
      FlattenStep(Pieces(p), b);
      WellFormedStep(Pieces(p), b);
    }
  }

  /** The digits of a run that the encoding keeps: leading zeros dropped, one digit kept. */
  function Significant(d: seq<byte>): (s: seq<byte>)
    ensures |s| <= |d|
    ensures d != [] ==> |s| >= 1
    ensures |s| > 1 ==> s[0] != Zero
    decreases |d|
  {
    if |d| > 1 && d[0] == Zero then Significant(d[1..]) else d
  }

  /** `Significant` keeps a suffix of the run, and what it drops are zeros. */
  lemma {:induction false} SignificantDropsZeros(d: seq<byte>)
    ensures Significant(d) == d[|d| - |Significant(d)|..]
    ensures forall i :: 0 <= i < |d| - |Significant(d)| ==> d[i] == Zero
    decreases |d|
  {
    if |d| > 1 && d[0] == Zero {
      SignificantDropsZeros(d[1..]);
      assert d[1..][|d| - 1 - |Significant(d)|..] == d[|d| - |Significant(d)|..];
      assert forall i :: 1 <= i < |d| - |Significant(d)| ==> d[i] == d[1..][i - 1];
    }
  }

  /** Go's `x + 1` on a byte: 255 wraps around to 0. */
  function Inc(x: byte): byte {
    if x as int == MaxByte then 0 else x + 1
  }

  /** Go's byte addition is addition modulo 256. */
  lemma IncIsModular(x: byte)
    ensures Inc(x) as int == (x as int + 1) % 256
  {
  }

  /** `n` reduced into a byte, as repeated byte increments from 0 leave it. */
  function Wrap(n: nat): byte
    decreases n
  {
    if n <= MaxByte then n as byte else Wrap(n - 256)
  }

  /** The length byte of `n` digits is `n` modulo 256. */
  lemma {:induction false} WrapIsModular(n: nat)
    ensures Wrap(n) as int == n % 256
    decreases n
  {
    if n > MaxByte {
      WrapIsModular(n - 256);
    }
  }

  lemma {:induction false} WrapSucc(n: nat)
    ensures Wrap(n + 1) == Inc(Wrap(n))
    decreases n
  {
    if n > MaxByte {
      WrapSucc(n - 256);
    }
  }

  /** The length byte of a run: the count of significant digits, in byte arithmetic. */
  function LengthByte(s: seq<byte>): byte {
    Wrap(|s|)
  }

  lemma LengthByteSnoc(s: seq<byte>, b: byte)
    ensures LengthByte([b]) == 1
    ensures LengthByte(s + [b]) == Inc(LengthByte(s))
  {
    WrapSucc(|s|);
  }

  lemma LengthByteCounts(s: seq<byte>)
    requires |s| <= MaxByte
    ensures LengthByte(s) as int == |s|
  {
  }

  function EncodePiece(p: Piece): seq<byte> {
    match p
    case Sep(b) => [b]
    case Run(d) => [LengthByte(Significant(d))] + Significant(d)
  }

  function EncodeAll(ps: seq<Piece>): seq<byte> {
    if ps == [] then [] else EncodeAll(ps[..|ps| - 1]) + EncodePiece(ps[|ps| - 1])
  }

  lemma EncodeAllSnoc(ps: seq<Piece>, q: Piece)
    ensures EncodeAll(ps + [q]) == EncodeAll(ps) + EncodePiece(q)
  {
    assert (ps + [q])[..|ps|] == ps;
  }

  /** What VersionOrdinal returns for `v`. */
  function Ordinal(v: seq<byte>): seq<byte> {
    EncodeAll(Pieces(v))
  }

  /**
   * Where the length byte of the run that the encoding of `v` ends in sits: `vo[j]` in the
   * loop; -1 when `v` does not end in a digit.
   */
  function OpenRun(v: seq<byte>): int {
    var ps := Pieces(v);
    if ps != [] && ps[|ps| - 1].Run?
    then |Ordinal(v)| - 1 - |Significant(ps[|ps| - 1].digits)|
    else -1
  }

  /** One more digit at the end of a run. */
  lemma {:induction false} SignificantSnoc(d: seq<byte>, b: byte)
    requires d != []
    ensures Significant(d + [b]) == if Significant(d) == [Zero] then [b] else Significant(d) + [b]
    decreases |d|
  {
    if |d| > 1 && d[0] == Zero {
      assert (d + [b])[1..] == d[1..] + [b];
      SignificantSnoc(d[1..], b);
    } else if d == [Zero] {
      assert Significant([Zero, b]) == Significant([b]);
    }
  }

  lemma ConcatAssoc<T>(a: seq<T>, b: seq<T>, c: seq<T>)
    ensures a + b + c == a + (b + c)
  {
  }

  lemma AppendSnocStep(ps: seq<Piece>, init: seq<Piece>, q: Piece)
    requires EncodeAll(ps + init) == EncodeAll(ps) + EncodeAll(init)
    ensures EncodeAll(ps + (init + [q])) == EncodeAll(ps) + EncodeAll(init + [q])
  {
    ConcatAssoc(ps, init, [q]);
    EncodeAllSnoc(ps + init, q);
    EncodeAllSnoc(init, q);
    ConcatAssoc(EncodeAll(ps), EncodeAll(init), EncodePiece(q));
  }

  lemma {:induction false} EncodeAllAppend(ps: seq<Piece>, qs: seq<Piece>)
    ensures EncodeAll(ps + qs) == EncodeAll(ps) + EncodeAll(qs)
    decreases |qs|
  {
    if qs == [] {
      assert ps + qs == ps;
    } else {
      var init := qs[..|qs| - 1];
      assert qs == init + [qs[|qs| - 1]];
      EncodeAllAppend(ps, init);
      AppendSnocStep(ps, init, qs[|qs| - 1]);
    }
  }

  /** A run of digits on its own is a single piece. */
  lemma {:induction false} PiecesOfRun(r: seq<byte>)
    requires r != [] && AllDigits(r)
    ensures Pieces(r) == [Run(r)]
    decreases |r|
  {
    var init := r[..|r| - 1];
    assert r == init + [r[|r| - 1]];
    PiecesSnoc(init, r[|r| - 1]);
    if init != [] {
      PiecesOfRun(init);
    }
  }

  /** A step after a separator does not look past the separator. */
  lemma StepAfterSep(qs: seq<Piece>, b: byte, rs: seq<Piece>, c: byte)
    ensures Step(qs + [Sep(b)] + rs, c) == qs + [Sep(b)] + Step(rs, c)
  {
    var ps := qs + [Sep(b)] + rs;
    if IsDigit(c) && ps[|ps| - 1].Run? {
      assert rs != [] && rs[|rs| - 1] == ps[|ps| - 1];
      assert ps[..|ps| - 1] == qs + [Sep(b)] + rs[..|rs| - 1];
    }
  }

  /** A non-digit byte splits the decomposition in two. */
  lemma {:induction false} PiecesSplit(x: seq<byte>, b: byte, y: seq<byte>)
    requires !IsDigit(b)
    ensures Pieces(x + [b] + y) == Pieces(x) + [Sep(b)] + Pieces(y)
    decreases |y|
  {
    if y == [] {
      assert x + [b] + y == x + [b];
      PiecesSnoc(x, b);
    } else {
      var y', c := y[..|y| - 1], y[|y| - 1];
      assert x + [b] + y == (x + [b] + y') + [c];
      assert y == y' + [c];
      PiecesSplit(x, b, y');
      PiecesSnoc(x + [b] + y', c);
      PiecesSnoc(y', c);
      StepAfterSep(Pieces(x), b, Pieces(y'), c);
    }
  }

  /**
   * A non-digit byte is copied unchanged and ends the run before it: the encoding of
   * `x + [b] + y` is the encoding of `x`, then `b`, then the encoding of `y`.
   */
  lemma OrdinalSplit(x: seq<byte>, b: byte, y: seq<byte>)
    requires !IsDigit(b)
    ensures Ordinal(x + [b] + y) == Ordinal(x) + [b] + Ordinal(y)
  {
    PiecesSplit(x, b, y);
    EncodeAllAppend(Pieces(x) + [Sep(b)], Pieces(y));
    EncodeAllAppend(Pieces(x), [Sep(b)]);
    EncodeAllSnoc([], Sep(b));
    assert [] + [Sep(b)] == [Sep(b)];
  }

  lemma EncodeAllSingle(q: Piece)
    ensures EncodeAll([q]) == EncodePiece(q)
  {
    EncodeAllSnoc([], q);
    assert [] + [q] == [q];
  }

  /** A maximal run of digits becomes its length byte followed by its significant digits. */
  lemma OrdinalOfRun(r: seq<byte>)
    requires r != [] && AllDigits(r)
    ensures Ordinal(r) == [LengthByte(Significant(r))] + Significant(r)
  {
    PiecesOfRun(r);
    EncodeAllSingle(Run(r));
  }

  /** The length byte of a run counts its significant digits while there are at most 255 of them. */
  lemma RunLengthCounts(r: seq<byte>)
    requires r != [] && AllDigits(r) && |Significant(r)| <= MaxByte
    ensures Ordinal(r)[0] as int == |Significant(r)|
  {
    OrdinalOfRun(r);
    LengthByteCounts(Significant(r));
  }

  /** A leading zero of a run is dropped: "05" encodes as "5" does, "00" as "0" does. */
  lemma LeadingZeroCollapses(r: seq<byte>)
    requires r != [] && AllDigits(r)
    ensures Ordinal([Zero] + r) == Ordinal(r)
  {
    assert AllDigits([Zero] + r);
    OrdinalOfRun([Zero] + r);
    OrdinalOfRun(r);
    assert ([Zero] + r)[1..] == r;
  }

  predicate AllZeros(z: seq<byte>) {
    forall i :: 0 <= i < |z| ==> z[i] == Zero
  }

  lemma {:induction false} SignificantOfZeros(z: seq<byte>)
    requires z != [] && AllZeros(z)
    ensures Significant(z) == [Zero]
    decreases |z|
  {
    if |z| > 1 {
      SignificantOfZeros(z[1..]);
    } else {
      assert z == [Zero];
    }
  }

  /** A run of zeros, however long, encodes as the single digit 0. */
  lemma ZerosCollapse(z: seq<byte>)
    requires z != [] && AllZeros(z)
    ensures Ordinal(z) == [1, Zero]
  {
    SignificantOfZeros(z);
    OrdinalOfRun(z);
    assert LengthByte([Zero]) == 1;
  }

  /**
   * The unchecked wrap-around: 256 nines, a number far above 1, get the length byte 0 and so
   * order below the encoding of "1".
   */
  lemma LongRunOrdersBelowOne()
    ensures var nines := seq(256, _ => Nine);
      Ordinal(nines)[0] == 0 && LexLess(Ordinal(nines), Ordinal([Zero + 1]))
  {
    var nines := seq(256, _ => Nine);
    OrdinalOfRun(nines);
    OrdinalOfRun([Zero + 1]);
  }

  /** A non-digit byte is appended to the encoding and closes the run. */
  lemma OrdinalSnocSep(p: seq<byte>, b: byte)
    requires !IsDigit(b)
    ensures Ordinal(p + [b]) == Ordinal(p) + [b]
    ensures OpenRun(p + [b]) == -1
  {
    PiecesSnoc(p, b);
    EncodeAllSnoc(Pieces(p), Sep(b));
  }

  /** A digit after a non-digit (or at the start) opens a run with length byte 1. */
  lemma OrdinalSnocNewRun(p: seq<byte>, b: byte)
    requires IsDigit(b) && OpenRun(p) == -1
    ensures Ordinal(p + [b]) == (Ordinal(p) + [0] + [b])[|Ordinal(p)| := Inc(0)]
    ensures OpenRun(p + [b]) == |Ordinal(p)|
  {
    var ps := Pieces(p);
    assert ps == [] || ps[|ps| - 1].Sep?;
    PiecesSnoc(p, b);
    assert Pieces(p + [b]) == ps + [Run([b])];
    EncodeAllSnoc(ps, Run([b]));
    assert Significant([b]) == [b];
    LengthByteSnoc([], b);
    assert Ordinal(p + [b]) == Ordinal(p) + [1, b];
    UpdateLengthByte(Ordinal(p), 0, [], b, 1);
    assert Ordinal(p) + [0] == Ordinal(p) + ([0] + []);
  }

  lemma UpdateLengthByte(e: seq<byte>, x: byte, s: seq<byte>, b: byte, y: byte)
    ensures (e + ([x] + s) + [b])[|e| := y] == e + ([y] + (s + [b]))
  {
  }

  lemma UpdateLoneZero(e: seq<byte>, b: byte)
    ensures (e + ([1] + [Zero]))[|e| + 1 := b] == e + ([1] + [b])
  {
  }

  /** The encoding of an input that ends in a run, before and after one more digit. */
  lemma RunAtEnd(p: seq<byte>, init: seq<Piece>, d: seq<byte>, b: byte)
    requires Pieces(p) == init + [Run(d)] && IsDigit(b)
    ensures Ordinal(p) == EncodeAll(init) + ([LengthByte(Significant(d))] + Significant(d))
    ensures OpenRun(p) == |EncodeAll(init)|
    ensures Ordinal(p + [b]) == EncodeAll(init) + ([LengthByte(Significant(d + [b]))] + Significant(d + [b]))
    ensures OpenRun(p + [b]) == |EncodeAll(init)|
  {
    assert init == Pieces(p)[..|Pieces(p)| - 1];
    EncodeAllSnoc(init, Run(d));
    PiecesSnoc(p, b);
    assert Pieces(p + [b]) == init + [Run(d + [b])];
    EncodeAllSnoc(init, Run(d + [b]));
  }

  /** A digit after a run that is just "0" replaces that 0. */
  lemma OrdinalSnocLoneZero(p: seq<byte>, b: byte)
    requires IsDigit(b) && OpenRun(p) != -1
    requires var vo, j := Ordinal(p), OpenRun(p); 0 <= j < |vo| - 1 && vo[j] == 1 && vo[j + 1] == Zero
    ensures Ordinal(p + [b]) == Ordinal(p)[OpenRun(p) + 1 := b]
    ensures OpenRun(p + [b]) == OpenRun(p)
  {
    var ps := Pieces(p);
    var init, d := ps[..|ps| - 1], ps[|ps| - 1].digits;
    assert ps == init + [Run(d)];
    RunAtEnd(p, init, d, b);
    SignificantSnoc(d, b);
    var s := Significant(d);
    LengthByteSnoc([], Zero);
    assert s[0] == Zero;
    assert s == [Zero];
    UpdateLoneZero(EncodeAll(init), b);
  }

  /** Any other digit inside a run is appended and its length byte incremented, in byte arithmetic. */
  lemma OrdinalSnocGrow(p: seq<byte>, b: byte)
    requires IsDigit(b) && OpenRun(p) != -1
    requires var vo, j := Ordinal(p), OpenRun(p); 0 <= j < |vo| - 1 && !(vo[j] == 1 && vo[j + 1] == Zero)
    ensures var vo, j := Ordinal(p), OpenRun(p);
      Ordinal(p + [b]) == (vo + [b])[j := Inc(vo[j])]
    ensures OpenRun(p + [b]) == OpenRun(p)
  {
    var ps := Pieces(p);
    var init, d := ps[..|ps| - 1], ps[|ps| - 1].digits;
    assert ps == init + [Run(d)];
    RunAtEnd(p, init, d, b);
    SignificantSnoc(d, b);
    var s := Significant(d);
    LengthByteSnoc(s, b);
    LengthByteSnoc([], Zero);
    assert s != [Zero];
    UpdateLengthByte(EncodeAll(init), LengthByte(s), s, b, LengthByte(s + [b]));
  }

  /** Where the length byte of an open run sits. */
  lemma OpenRunInRange(p: seq<byte>)
    requires OpenRun(p) != -1
    ensures 0 <= OpenRun(p) < |Ordinal(p)| - 1
  {
    var ps := Pieces(p);
    var init, d := ps[..|ps| - 1], ps[|ps| - 1].digits;
    assert ps == init + [Run(d)];
    RunAtEnd(p, init, d, Zero);
  }

  /** The loop below reads the input one byte at a time. */
  lemma TakeSnoc(v: seq<byte>, i: int)
    requires 0 <= i < |v|
    ensures v[..i + 1] == v[..i] + [v[i]]
  {
  }

  /**
   * One pass of the loop body of main.go:32-52: given the encoding `vo` of the bytes read so far
   * and the position `j` of the open run's length byte, take in the next byte `b`.
   * The `continue` statements of the loop become early returns.
   */
  method EncodeByte(ghost p: seq<byte>, vo: seq<byte>, j: int, b: byte) returns (vo': seq<byte>, j': int)
    requires vo == Ordinal(p) && j == OpenRun(p)
    ensures vo' == Ordinal(p + [b]) && j' == OpenRun(p + [b])
  {
    if Zero > b || b > Nine {
      OrdinalSnocSep(p, b);
      return vo + [b], -1;
    }
    vo', j' := vo, j;
    if j' == -1 {
      vo' := vo' + [0];
      j' := |vo'| - 1;
    } else {
      OpenRunInRange(p);
    }
    if vo'[j'] == 1 && vo'[j' + 1] == Zero {
      OrdinalSnocLoneZero(p, b);
      vo' := vo'[j' + 1 := b];
      return;
    }
    if Inc(vo'[j']) as int > MaxByte {
      // panic("VersionOrdinal: invalid version") is unreachable: the byte sum wraps first
      assert false;
    }
    if j == -1 {
      OrdinalSnocNewRun(p, b);
    } else {
      OrdinalSnocGrow(p, b);
    }
    vo' := vo' + [b];
    vo' := vo'[j' := Inc(vo'[j'])];
  }

  /** The loop of main.go:27-54, growing `vo` and updating the length byte `vo[j]` in place. */
  method VersionOrdinal(version: seq<byte>) returns (vo: seq<byte>)
    ensures vo == Ordinal(version)
  {
    vo := [];
    var j := -1;
    for i := 0 to |version|
      invariant vo == Ordinal(version[..i])
      invariant j == OpenRun(version[..i])
    {
      TakeSnoc(version, i);
      vo, j := EncodeByte(version[..i], vo, j, version[i]);
    }
    assert version[..|version|] == version;
  }
}
