/**
 * What the check sequence detects, on bit streams in transmission order.
 *
 * Two streams of equal length drive the register apart by exactly the register run on their
 * difference.  The difference of two streams with equal check registers is therefore a multiple
 * of the generator, and such a multiple is neither a burst of sixteen bits nor of weight 1 to 3.
 */
module ErrorDetection {
  import opened Octets
  import opened Fcs
  import Order

  function Diff(x: seq<bool>, y: seq<bool>): (e: seq<bool>)
    requires |x| == |y|
    ensures |e| == |x|
    ensures forall i :: 0 <= i < |x| ==> e[i] == (x[i] != y[i])
  {
    if x == [] then [] else [x[0] != y[0]] + Diff(x[1..], y[1..])
  }

  function Weight(e: seq<bool>): nat {
    if e == [] then 0 else (if e[0] then 1 else 0) + Weight(e[1..])
  }

  /** The number of positions in which two streams differ. */
  function Distance(x: seq<bool>, y: seq<bool>): nat
    requires |x| == |y|
  {
    Weight(Diff(x, y))
  }

  /** `e` is clear outside the sixteen bits that start at `at`. */
  ghost predicate Burst(e: seq<bool>, at: int) {
    forall i :: 0 <= i < |e| && e[i] ==> at <= i < at + 16
  }

  // ---------- linearity ----------

  lemma UnitXor(a: bool, b: bool)
    ensures Xor(Unit(a), Unit(b)) == Unit(a != b)
  {}

  lemma ShiftXor(f: bv16, g: bv16, a: bool, b: bool)
    ensures Xor(Shift(f, a), Shift(g, b)) == Shift(Xor(f, g), a != b)
  {
    hide Turn, Xor, Unit;
    Order.TurnXor(Xor(f, Unit(a)), Xor(g, Unit(b)));
    Order.XorPairs(f, Unit(a), g, Unit(b));
    UnitXor(a, b);
  }

  /** The check register is linear over GF(2) in state and data together. */
  lemma {:induction false} RegisterLinear(f: bv16, g: bv16, x: seq<bool>, y: seq<bool>)
    requires |x| == |y|
    ensures Xor(Register(f, x), Register(g, y)) == Register(Xor(f, g), Diff(x, y))
    decreases x
  {
    hide Shift, Xor;
    if x != [] {
      ShiftXor(f, g, x[0], y[0]);
      RegisterLinear(Shift(f, x[0]), Shift(g, y[0]), x[1..], y[1..]);
      assert Diff(x, y)[1..] == Diff(x[1..], y[1..]);
    }
  }

  lemma XorCancels(f: bv16, g: bv16)
    ensures Xor(f, g) == 0 <==> f == g
  {
    assert f == (f ^ g) ^ g;
    if f == g {
      assert f ^ f == 0;
    }
  }

  lemma SameRegister(f: bv16, x: seq<bool>, y: seq<bool>)
    requires |x| == |y|
    ensures Register(f, x) == Register(f, y) <==> Register(0, Diff(x, y)) == 0
  {
    hide Register, Xor;
    RegisterLinear(f, f, x, y);
    XorCancels(f, f);
    XorCancels(Register(f, x), Register(f, y));
  }

  // ---------- staying away from zero ----------

  lemma ShiftZero(f: bv16, bit: bool)
    ensures Shift(f, bit) == 0 <==> f == (if bit then 1 else 0)
  {}

  lemma {:induction false} QuietZero(e: seq<bool>)
    requires Weight(e) == 0
    ensures forall f :: f != 0 ==> Register(f, e) != 0
    decreases e
  {
    hide Shift;
    if e != [] {
      QuietZero(e[1..]);
      forall f | f != 0
        ensures Register(f, e) != 0
      {
        ShiftZero(f, false);
      }
    }
  }

  // ---------- bursts ----------

  predicate Above(t: bv16, f: bv16) {
    t <= f
  }

  lemma ShiftAbove(t: bv16, f: bv16, bit: bool)
    requires Above(t, f)
    ensures Above(t >> 1, Shift(f, bit))
  {}

  lemma {:induction false} RegisterAbove(t: bv16, f: bv16, e: seq<bool>)
    requires Above(t, f)
    ensures Above(Rest(t, |e|), Register(f, e))
    decreases e
  {
    hide Shift, Above;
    if e != [] {
      ShiftAbove(t, f, e[0]);
      RegisterAbove(t >> 1, Shift(f, e[0]), e[1..]);
    }
  }

  lemma {:induction false} RestZero(t: bv16, m: nat, n: nat)
    requires m <= n && Rest(t, n) != 0
    ensures Rest(t, m) != 0
    decreases m
  {
    if m == 0 {
      RestOfZero(n);
    } else {
      RestZero(t >> 1, m - 1, n - 1);
    }
  }

  lemma {:induction false} RestOfZero(n: nat)
    ensures Rest(0, n) == 0
    decreases n
  {
    if n != 0 {
      assert 0 as bv16 >> 1 == 0;
      RestOfZero(n - 1);
    }
  }

  lemma FifteenHalvings()
    ensures Rest(0x8000, 15) == 1
  {
    assert Rest(0x8000, 15) == Rest(0x0080, 7);
  }

  /** Up to fifteen bits after a first error bit cannot bring the register back to zero. */
  lemma ShortTail(e: seq<bool>)
    requires |e| <= 15
    ensures Register(Shift(0, true), e) != 0
  {
    assert Above(0x8000, Shift(0, true));
    RegisterAbove(0x8000, Shift(0, true), e);
    FifteenHalvings();
    RestZero(0x8000, |e|, 15);
    hide Register, Rest, Shift;
  }

  lemma {:induction false} WeightZero(e: seq<bool>)
    ensures Weight(e) == 0 <==> forall i :: 0 <= i < |e| ==> !e[i]
  {
    if e != [] {
      WeightZero(e[1..]);
      assert forall i :: 0 <= i < |e[1..]| ==> e[1..][i] == e[i + 1];
      if forall i :: 0 <= i < |e[1..]| ==> !e[1..][i] {
        assert forall i :: 1 <= i < |e| ==> e[i] == e[1..][i - 1];
      }
    }
  }

  /** A nonzero error confined to sixteen consecutive bits changes the register. */
  lemma {:induction false} BurstChangesRegister(e: seq<bool>, at: int)
    requires Burst(e, at) && Weight(e) != 0
    ensures Register(0, e) != 0
    decreases e
  {
    hide Shift;
    if e[0] {
      var m := if |e| <= 16 then |e| else 16;
      var head, tail := e[1..m], e[m..];
      assert e[1..] == head + tail;
      ShortTail(head);
      RegisterAppend(Shift(0, true), head, tail);
      WeightZero(tail);
      QuietZero(tail);
    } else {
      ShiftZero(0, false);
      assert Burst(e[1..], at - 1);
      BurstChangesRegister(e[1..], at - 1);
    }
  }

  // ---------- parity ----------

  /** The parity of the low `n` bits. */
  function OddBits(f: bv16, n: nat): bool
    decreases n
  {
    if n == 0 then false else (f & 1 == 1) != OddBits(f >> 1, n - 1)
  }

  function Odd(f: bv16): bool {
    OddBits(f, 16)
  }

  lemma LowXor(a: bv16, b: bv16)
    ensures (Xor(a, b) & 1 == 1) == ((a & 1 == 1) != (b & 1 == 1))
  {}

  lemma HalfXor(a: bv16, b: bv16)
    ensures Xor(a, b) >> 1 == Xor(a >> 1, b >> 1)
  {
    calc {
      Xor(a, b) >> 1;
      (a ^ b) >> 1;
      (a >> 1) ^ (b >> 1);
      Xor(a >> 1, b >> 1);
    }
    hide *;
  }

  lemma {:induction false} OddXor(a: bv16, b: bv16, n: nat)
    ensures OddBits(Xor(a, b), n) == (OddBits(a, n) != OddBits(b, n))
    decreases n
  {
    hide Xor;
    if n != 0 {
      LowXor(a, b);
      HalfXor(a, b);
      OddXor(a >> 1, b >> 1, n - 1);
    }
  }

  lemma {:induction false} OddLast(f: bv16, n: nat)
    ensures OddBits(f, n + 1) == (OddBits(f, n) != (Rest(f, n) & 1 == 1))
    decreases n
  {
    if n != 0 {
      OddLast(f >> 1, n - 1);
    }
  }

  lemma OddHalf(f: bv16)
    ensures Odd(f >> 1) == (Odd(f) != (f & 1 == 1))
  {
    OddLast(f >> 1, 15);
    assert Rest(f >> 1, 15) == Rest((f >> 1) >> 8, 7) == 0;
  }

  lemma OddFeedback()
    ensures Odd(0x8408) && Odd(1) && !Odd(0)
  {
    assert OddBits(0x8408, 16) == ((true != false) != OddBits(0x0084, 8));
    assert !OddBits(0, 8);
  }

  lemma TurnSplits(f: bv16)
    ensures Turn(f) == Xor(f >> 1, if f & 1 == 1 then 0x8408 else 0)
  {}

  lemma OddShift(f: bv16, bit: bool)
    ensures Odd(Shift(f, bit)) == (Odd(f) != bit)
  {
    hide OddBits, Turn, Xor;
    var g := Xor(f, Unit(bit));
    OddFeedback();
    OddXor(f, Unit(bit), 16);
    TurnSplits(g);
    OddXor(g >> 1, if g & 1 == 1 then 0x8408 else 0, 16);
    OddHalf(g);
  }

  /** The generator has the factor x + 1: the register tracks the parity of the data. */
  lemma {:induction false} OddRegister(f: bv16, e: seq<bool>)
    ensures Odd(Register(f, e)) == (Odd(f) != (Weight(e) % 2 == 1))
    decreases e
  {
    hide Odd, Shift;
    if e != [] {
      OddShift(f, e[0]);
      OddRegister(Shift(f, e[0]), e[1..]);
    }
  }

  // ---------- two bits ----------

  lemma ShiftFalse(f: bv16)
    ensures Shift(f, false) == Turn(f)
  {
    XorZero(f);
    hide Turn, Xor;
  }

  /** One more error bit within the cycle of the register does not cancel the first. */
  lemma {:induction false} SecondBit(k: nat, e: seq<bool>)
    requires 0 < k && k + |e| <= Order.CYCLE && Weight(e) == 1
    ensures Register(Spin(1, k), e) != 0
    decreases e
  {
    hide Shift, Turn;
    var f := Spin(1, k);
    if e[0] {
      Order.LoneBit(k);
      ShiftZero(f, true);
      QuietZero(e[1..]);
    } else {
      ShiftFalse(f);
      Order.SpinAdd(1, k, 1);
      assert Spin(f, 1) == Turn(f);
      SecondBit(k + 1, e[1..]);
    }
  }

  lemma {:induction false} TwoBits(e: seq<bool>)
    requires |e| <= Order.CYCLE && Weight(e) == 2
    ensures Register(0, e) != 0
    decreases e
  {
    if e[0] {
      assert Shift(0, true) == Turn(1) == Spin(1, 1);
      hide Shift, Turn, Spin;
      SecondBit(1, e[1..]);
    } else {
      ShiftZero(0, false);
      hide Shift;
      TwoBits(e[1..]);
    }
  }

  /** No error of one, two or three bits leaves the register unchanged. */
  lemma FewBitsChangeRegister(e: seq<bool>)
    requires |e| <= Order.CYCLE && 1 <= Weight(e) <= 3
    ensures Register(0, e) != 0
  {
    if Weight(e) == 2 {
      TwoBits(e);
    } else {
      OddFeedback();
      OddRegister(0, e);
    }
    hide Register;
  }

  /** The generator x^16 + x^12 + x^5 + 1 as an error pattern. */
  function GeneratorPattern(): seq<bool> {
    BitsOf(0x11, 8) + (BitsOf(0x08, 8) + [true])
  }

  function CountBits(w: bv16, n: nat): nat
    decreases n
  {
    if n == 0 then 0 else (if w & 1 == 1 then 1 else 0) + CountBits(w >> 1, n - 1)
  }

  lemma {:induction false} WeightOfBits(w: bv16, n: nat, e: seq<bool>)
    ensures Weight(BitsOf(w, n) + e) == CountBits(w, n) + Weight(e)
    decreases n
  {
    if n == 0 {
      assert BitsOf(w, 0) + e == e;
    } else {
      assert (BitsOf(w, n) + e)[1..] == BitsOf(w >> 1, n - 1) + e;
      WeightOfBits(w >> 1, n - 1, e);
    }
  }

  /** Four bits is the bound: the generator itself has weight 4, spans 17 bits, and goes unnoticed. */
  lemma GeneratorUnnoticed()
    ensures |GeneratorPattern()| == 17 && Weight(GeneratorPattern()) == 4 && Register(0, GeneratorPattern()) == 0
  {
    hide *;
    GeneratorBits();
    GeneratorSteps();
    WeightOfBits(0x11, 8, BitsOf(0x08, 8) + [true]);
    WeightOfBits(0x08, 8, [true]);
    RegisterAppend(0, BitsOf(0x11, 8), BitsOf(0x08, 8) + [true]);
    RegisterAppend(OctetStep(0, 0x11), BitsOf(0x08, 8), [true]);
    FeedOctet(0, 0x11);
    FeedOctet(OctetStep(0, 0x11), 0x08);
    GeneratorLast();
  }

  lemma GeneratorBits()
    ensures CountBits(0x11, 8) == 2 && CountBits(0x08, 8) == 1 && Weight([true]) == 1
    ensures GeneratorPattern() == BitsOf(0x11, 8) + (BitsOf(0x08, 8) + [true])
  {
    assert Weight([true][1..]) == 0;
    hide BitsOf;
  }

  lemma GeneratorSteps()
    ensures OctetStep(OctetStep(0, 0x11), 0x08) == 1 && Shift(1, true) == 0
  {}

  lemma GeneratorLast()
    ensures Register(1, [true]) == Shift(1, true)
  {
    hide Shift;
    assert Register(Shift(1, true), []) == Shift(1, true);
  }

  // ---------- octet strings ----------

  lemma SameBit(w: bv16, v: bv16)
    requires (w & 1 == 1) == (v & 1 == 1) && w >> 1 == v >> 1
    ensures w == v
  {}

  lemma BitsOfParts(w: bv16, n: nat)
    requires n != 0
    ensures BitsOf(w, n)[0] == (w & 1 == 1) && BitsOf(w, n)[1..] == BitsOf(w >> 1, n - 1)
  {}

  lemma RestNone(w: bv16)
    ensures Rest(w, 0) == w
  {}

  lemma RestStep(w: bv16, n: nat)
    requires n != 0
    ensures Rest(w, n) == Rest(w >> 1, n - 1)
  {}

  lemma {:induction false} BitsOfInjective(w: bv16, v: bv16, n: nat)
    requires BitsOf(w, n) == BitsOf(v, n) && Rest(w, n) == Rest(v, n)
    ensures w == v
    decreases n
  {
    hide *;
    if n == 0 {
      RestNone(w);
      RestNone(v);
    } else {
      BitsOfParts(w, n);
      BitsOfParts(v, n);
      RestStep(w, n);
      RestStep(v, n);
      BitsOfInjective(w >> 1, v >> 1, n - 1);
      SameBit(w, v);
    }
  }

  lemma {:induction false} BitsInjective(a: bytes, b: bytes)
    requires |a| == |b| && Bits(a) == Bits(b)
    ensures a == b
  {
    if a != [] {
      hide BitsOf, Rest;
      assert Bits(a)[..8] == BitsOf(a[0] as bv16, 8) && Bits(a)[8..] == Bits(a[1..]);
      assert Bits(b)[..8] == BitsOf(b[0] as bv16, 8) && Bits(b)[8..] == Bits(b[1..]);
      RestEight(a[0]);
      RestEight(b[0]);
      BitsOfInjective(a[0] as bv16, b[0] as bv16, 8);
      BitsInjective(a[1..], b[1..]);
    }
  }

  lemma DistanceZero(a: bytes, b: bytes)
    requires |a| == |b|
    ensures Distance(Bits(a), Bits(b)) == 0 <==> a == b
  {
    var e := Diff(Bits(a), Bits(b));
    WeightZero(e);
    if Weight(e) == 0 {
      assert forall i :: 0 <= i < |e| ==> e[i] == (Bits(a)[i] != Bits(b)[i]);
      BitsInjective(a, b);
    }
  }

  /** Octet strings of equal length that leave the same register differ nowhere or in at least four bits. */
  lemma DistanceFour(f: bv16, a: bytes, b: bytes)
    requires |a| == |b| && 8 * |a| <= Order.CYCLE
    requires Feed(f, a) == Feed(f, b)
    ensures a == b || Distance(Bits(a), Bits(b)) >= 4
  {
    hide Bits;
    SameRegister(f, Bits(a), Bits(b));
    DistanceZero(a, b);
    if 1 <= Distance(Bits(a), Bits(b)) <= 3 {
      FewBitsChangeRegister(Diff(Bits(a), Bits(b)));
    }
  }

  /** Octet strings that leave the same register do not differ by a burst of sixteen bits. */
  lemma NoBurst(f: bv16, a: bytes, b: bytes, at: int)
    requires |a| == |b| && Burst(Diff(Bits(a), Bits(b)), at)
    requires Feed(f, a) == Feed(f, b)
    ensures a == b
  {
    hide Bits;
    SameRegister(f, Bits(a), Bits(b));
    DistanceZero(a, b);
    if a != b {
      BurstChangesRegister(Diff(Bits(a), Bits(b)), at);
    }
  }

  /** Octet strings that leave the same register do not differ in an odd number of bits. */
  lemma EvenDistance(f: bv16, a: bytes, b: bytes)
    requires |a| == |b| && Feed(f, a) == Feed(f, b)
    ensures Distance(Bits(a), Bits(b)) % 2 == 0
  {
    hide Bits, Register;
    SameRegister(f, Bits(a), Bits(b));
    OddFeedback();
    OddRegister(0, Diff(Bits(a), Bits(b)));
  }
}
