/** What the frame check sequence protects: two framed buffers of equal size are far apart. */
module Integrity {
  import opened Octets
  import opened Fcs
  import opened ErrorDetection
  import opened HdlcFrame
  import Mirror

  lemma {:induction false} DiffAppend(x: seq<bool>, y: seq<bool>, u: seq<bool>, v: seq<bool>)
    requires |x| == |y| && |u| == |v|
    ensures Diff(x + u, y + v) == Diff(x, y) + Diff(u, v)
    decreases x
  {
    if x == [] {
      assert x + u == u && y + v == v;
    } else {
      assert (x + u)[1..] == x[1..] + u && (y + v)[1..] == y[1..] + v;
      DiffAppend(x[1..], y[1..], u, v);
    }
  }

  lemma {:induction false} WeightAppend(e: seq<bool>, d: seq<bool>)
    ensures Weight(e + d) == Weight(e) + Weight(d)
    decreases e
  {
    if e == [] {
      assert e + d == d;
    } else {
      assert (e + d)[1..] == e[1..] + d;
      WeightAppend(e[1..], d);
    }
  }

  /** The octets the frame check covers, with the check itself. */
  function Covered(b: bytes): bytes
    requires 2 <= |b|
  {
    b[1..|b| - 1]
  }

  /** The validator accepts only buffers whose covered octets leave the residue. */
  lemma FramedResidue(b: bytes)
    requires Framed(b)
    ensures Feed(0xFFFF, Covered(b)) == RESIDUE
    ensures b == [FLAG] + Covered(b) + [FLAG]
    ensures |Covered(b)| <= Mirror.MAX_LENGTH
  {
    hide Feed, Join, Extension, PollFinal, FormatType3;
    Mirror.ClosingCheck(b, Covered(b));
  }

  lemma FlagsAgree(b: bytes, c: bytes)
    requires |b| == |c|
    ensures
      var x, y := [FLAG] + b + [FLAG], [FLAG] + c + [FLAG];
      var same := Diff(Bits([FLAG]), Bits([FLAG]));
      && Diff(Bits(x), Bits(y)) == same + Diff(Bits(b), Bits(c)) + same
      && Weight(same) == 0 && |same| == 8
      && Distance(Bits(x), Bits(y)) == Distance(Bits(b), Bits(c))
  {
    hide Bits, BitsOf;
    BitsAppend([FLAG] + b, [FLAG]);
    BitsAppend([FLAG], b);
    BitsAppend([FLAG] + c, [FLAG]);
    BitsAppend([FLAG], c);
    var k := Bits([FLAG]);
    DiffAppend(k + Bits(b), k + Bits(c), k, k);
    DiffAppend(k, k, Bits(b), Bits(c));
    DistanceZero([FLAG], [FLAG]);
    WeightAppend(Diff(k, k) + Diff(Bits(b), Bits(c)), Diff(k, k));
    WeightAppend(Diff(k, k), Diff(Bits(b), Bits(c)));
  }

  /**
   * Two framed buffers of equal size that differ at all differ in at least four bits.
   * So one, two or three flipped bits in an accepted buffer are always noticed.
   */
  lemma FramesFarApart(b: bytes, c: bytes)
    requires Framed(b) && Framed(c) && |b| == |c|
    ensures b == c || Distance(Bits(b), Bits(c)) >= 4
  {
    hide Framed, Feed, Bits, Distance;
    FramedResidue(b);
    FramedResidue(c);
    FlagsAgree(Covered(b), Covered(c));
    DistanceFour(0xFFFF, Covered(b), Covered(c));
  }

  /** A change of any odd number of bits is noticed. */
  lemma FramesEvenApart(b: bytes, c: bytes)
    requires Framed(b) && Framed(c) && |b| == |c|
    ensures Distance(Bits(b), Bits(c)) % 2 == 0
  {
    hide Framed, Feed, Bits, Distance;
    FramedResidue(b);
    FramedResidue(c);
    FlagsAgree(Covered(b), Covered(c));
    EvenDistance(0xFFFF, Covered(b), Covered(c));
  }

  /** A change confined to sixteen consecutive bits, on octet boundaries or not, is noticed. */
  lemma BurstNoticed(b: bytes, c: bytes, at: int)
    requires Framed(b) && Framed(c) && |b| == |c| && Burst(Diff(Bits(b), Bits(c)), at)
    ensures b == c
  {
    hide *;
    FramedResidue(b);
    FramedResidue(c);
    FlagsAgree(Covered(b), Covered(c));
    var k := Diff(Bits([FLAG]), Bits([FLAG]));
    BurstInside(k, Diff(Bits(Covered(b)), Bits(Covered(c))), k, at);
    NoBurst(0xFFFF, Covered(b), Covered(c), at - 8);
  }

  lemma BurstInside(p: seq<bool>, e: seq<bool>, q: seq<bool>, at: int)
    requires Burst(p + e + q, at)
    ensures Burst(e, at - |p|)
  {
    assert forall i :: 0 <= i < |e| ==> e[i] == (p + e + q)[|p| + i];
  }

  lemma MiddleBurst(p: seq<bool>, y: seq<bool>, w: seq<bool>, q: seq<bool>)
    requires |y| == |w| == 16
    ensures Burst(Diff(p + y + q, p + w + q), |p|)
  {
    hide Diff;
    DiffAppend(p + y, p + w, q, q);
    DiffAppend(p, p, y, w);
    var before, middle, after := Diff(p, p), Diff(y, w), Diff(q, q);
    assert forall i :: 0 <= i < |p| ==> !before[i];
    assert forall i :: 0 <= i < |q| ==> !after[i];
    var e := before + middle + after;
    assert forall i :: 0 <= i < |p| ==> e[i] == before[i];
    assert forall i :: |p| + 16 <= i < |e| ==> e[i] == after[i - |p| - 16];
  }

  lemma InThree(b: bytes, i: nat, j: nat)
    requires i <= j <= |b|
    ensures b == b[..i] + b[i..j] + b[j..]
  {}

  lemma BitsInThree(b: bytes, i: nat)
    requires i + 2 <= |b|
    ensures Bits(b) == Bits(b[..i]) + Bits(b[i..i + 2]) + Bits(b[i + 2..])
  {
    hide *;
    var p, m, q := b[..i], b[i..i + 2], b[i + 2..];
    InThree(b, i, i + 2);
    BitsAppend(p + m, q);
    BitsAppend(p, m);
  }

  /** A change to two adjacent octets of an accepted buffer makes the validator reject it. */
  lemma AdjacentOctetsRejected(b: bytes, c: bytes, i: nat)
    requires ValidFrame(b) && |b| == |c| && b != c && i + 2 <= |b|
    requires b[..i] == c[..i] && b[i + 2..] == c[i + 2..]
    ensures !ValidFrame(c)
  {
    hide Framed, Bits, HeaderCheckAsWritten, HasInformation;
    if ValidFrame(c) {
      BitsInThree(b, i);
      BitsInThree(c, i);
      MiddleBurst(Bits(b[..i]), Bits(b[i..i + 2]), Bits(c[i..i + 2]), Bits(b[i + 2..]));
      BurstNoticed(b, c, 8 * i);
    }
  }
}
