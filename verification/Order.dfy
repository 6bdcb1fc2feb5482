/**
 * The cycle length of the check register.
 *
 * Turning the register is multiplication by x modulo the generator, with 0x8000 standing for 1.
 * Powers of x are multiplied here to show that x has order exactly 32767 = 7 * 31 * 151, so no
 * single bit error can be cancelled by a second one fewer than 32767 bits later.
 */
module Order {
  import opened Fcs

  const ONE: bv16 := 0x8000
  const CYCLE: nat := 32767

  // ---------- exclusive or ----------

  lemma XorSwap(a: bv16, b: bv16)
    ensures Xor(a, b) == Xor(b, a)
  {}

  lemma XorAssoc(a: bv16, b: bv16, c: bv16)
    ensures Xor(a, Xor(b, c)) == Xor(Xor(a, b), c)
  {}

  lemma XorPairs(a: bv16, b: bv16, c: bv16, d: bv16)
    ensures Xor(Xor(a, b), Xor(c, d)) == Xor(Xor(a, c), Xor(b, d))
  {
    hide Xor;
    XorAssoc(a, b, Xor(c, d));
    XorAssoc(b, c, d);
    XorSwap(b, c);
    XorAssoc(c, b, d);
    XorAssoc(a, c, Xor(b, d));
  }

  lemma MaskedXor(a: bv16, b: bv16)
    ensures TurnMasked(Xor(a, b)) == Xor(TurnMasked(a), TurnMasked(b))
  {}

  /** Turning is linear ... */
  lemma TurnXor(a: bv16, b: bv16)
    ensures Turn(Xor(a, b)) == Xor(Turn(a), Turn(b))
  {
    hide *;
    TurnIsMasked(a);
    TurnIsMasked(b);
    TurnIsMasked(Xor(a, b));
    MaskedXor(a, b);
  }

  /** ... and a bijection. */
  lemma TurnInjective(a: bv16, b: bv16)
    requires Turn(a) == Turn(b)
    ensures a == b
  {}

  // ---------- the product of two residues ----------

  function Pick(p: bool, b: bv16): bv16 {
    if p then b else 0
  }

  function Top(a: bv16): bool {
    a & 0x8000 != 0
  }

  function Up(a: bv16): bv16 {
    a << 1
  }

  function Times(a: bv16, b: bv16, n: nat): bv16
    decreases n
  {
    if n == 0 then 0 else Xor(Pick(Top(a), b), Times(Up(a), Turn(b), n - 1))
  }

  function Product(a: bv16, b: bv16): bv16 {
    Times(a, b, 16)
  }

  lemma PickXor(p: bool, q: bool, b: bv16)
    ensures Pick(p != q, b) == Xor(Pick(p, b), Pick(q, b))
  {
    if p { } else { }
    if q { } else { }
  }

  lemma PickTurn(p: bool, b: bv16)
    ensures Pick(p, Turn(b)) == Turn(Pick(p, b))
  {}

  lemma TopXorBits(a: bv16, c: bv16)
    ensures Top(a ^ c) == (Top(a) != Top(c))
    ensures Up(a ^ c) == Up(a) ^ Up(c)
  {}

  lemma TopXor(a: bv16, c: bv16)
    ensures Top(Xor(a, c)) == (Top(a) != Top(c))
    ensures Up(Xor(a, c)) == Xor(Up(a), Up(c))
  {
    TopXorBits(a, c);
    hide Top, Up;
  }

  lemma {:induction false} TimesTurn(a: bv16, b: bv16, n: nat)
    ensures Times(a, Turn(b), n) == Turn(Times(a, b, n))
    decreases n
  {
    if n == 0 {
    } else {
      hide Turn, Xor, Pick;
      TimesTurn(Up(a), Turn(b), n - 1);
      PickTurn(Top(a), b);
      TurnXor(Pick(Top(a), b), Times(Up(a), Turn(b), n - 1));
    }
  }

  lemma {:induction false} TimesXor(a: bv16, c: bv16, b: bv16, n: nat)
    ensures Times(Xor(a, c), b, n) == Xor(Times(a, b, n), Times(c, b, n))
    decreases n
  {
    hide Turn, Xor, Pick, Top, Up;
    if n == 0 {
      XorZero(0);
    } else {
      TopXor(a, c);
      TimesXor(Up(a), Up(c), Turn(b), n - 1);
      PickXor(Top(a), Top(c), b);
      XorPairs(Pick(Top(a), b), Pick(Top(c), b), Times(Up(a), Turn(b), n - 1), Times(Up(c), Turn(b), n - 1));
    }
  }

  lemma {:induction false} TimesZero(b: bv16, n: nat)
    ensures Times(0, b, n) == 0
    decreases n
  {
    if n != 0 {
      hide Turn;
      TimesZero(Turn(b), n - 1);
    }
  }

  lemma TimesOne(b: bv16, n: nat)
    requires n != 0
    ensures Times(ONE, b, n) == b
  {
    hide Turn;
    TimesZero(Turn(b), n - 1);
  }

  lemma TimesSkip(a: bv16, b: bv16, n: nat)
    requires n != 0 && !Top(a)
    ensures Times(a, b, n) == Times(Up(a), Turn(b), n - 1)
  {
    hide Turn, Top, Up;
  }

  function Ups(a: bv16, n: nat): bv16
    decreases n
  {
    if n == 0 then a else Ups(Up(a), n - 1)
  }

  lemma {:induction false} TimesSplit(a: bv16, b: bv16, m: nat, n: nat)
    ensures Times(a, b, m + n) == Xor(Times(a, b, m), Times(Ups(a, m), Spin(b, m), n))
    decreases m
  {
    hide Turn, Xor, Pick, Top, Up;
    if m == 0 {
      XorSwap(0, Times(a, b, n));
      XorZero(Times(a, b, n));
    } else {
      TimesSplit(Up(a), Turn(b), m - 1, n);
      XorAssoc(Pick(Top(a), b), Times(Up(a), Turn(b), m - 1), Times(Ups(a, m), Spin(b, m), n));
    }
  }

  lemma UpsFifteen(a: bv16)
    ensures Ups(a, 15) == a << 15
  {
    assert Ups(a, 15) == Ups(a << 8, 7);
  }

  lemma HalfUp(a: bv16)
    requires a & 1 == 0
    ensures !Top(a >> 1) && Up(a >> 1) == a && Ups(a, 15) == 0
  {
    UpsFifteen(a);
    hide Ups;
  }

  lemma EvenTurn(a: bv16, b: bv16)
    requires a & 1 == 0
    ensures Product(a >> 1, b) == Product(a, Turn(b))
  {
    hide Turn, Xor, Pick, Top, Up, Ups, Times, Spin;
    HalfUp(a);
    TimesSkip(a >> 1, b, 16);
    TimesSplit(a, Turn(b), 15, 1);
    TimesZero(Spin(Turn(b), 15), 1);
    XorZero(Times(a, Turn(b), 15));
  }

  lemma FourSkips(a: bv16, b: bv16, n: nat)
    requires a & 0xF000 == 0
    ensures Times(a, b, n + 4) == Times(a << 4, Spin(b, 4), n)
  {
    assert Ups(a, 4) == a << 4;
    assert Times(a, b, 4) == 0 by {
      assert !Top(a) && !Top(a << 1) && !Top(a << 2) && !Top(a << 3);
      hide Turn;
    }
    TimesSplit(a, b, 4, n);
    XorSwap(0, Times(a << 4, Spin(b, 4), n));
    XorZero(Times(a << 4, Spin(b, 4), n));
    hide *;
  }

  lemma {:induction false} SpinAdd(f: bv16, m: nat, n: nat)
    ensures Spin(f, m + n) == Spin(Spin(f, m), n)
    decreases m
  {
    hide Turn;
    if m != 0 {
      SpinAdd(Turn(f), m - 1, n);
    }
  }

  lemma TimesX5(b: bv16)
    ensures Times(0x0400, b, 16) == Spin(b, 5)
  {
    FourSkips(0x0400, b, 12);
    TimesSkip(0x4000, Spin(b, 4), 12);
    assert Up(0x4000) == ONE;
    TimesOne(Turn(Spin(b, 4)), 11);
    SpinAdd(b, 4, 1);
    hide Turn, Times;
  }

  lemma TimesX12(b: bv16)
    ensures Times(0x0008, b, 16) == Spin(b, 12)
  {
    hide *;
    UpFours();
    FourSkips(0x0008, b, 12);
    FourSkips(0x0080, Spin(b, 4), 8);
    FourSkips(0x0800, Spin(Spin(b, 4), 4), 4);
    TimesOne(Spin(Spin(Spin(b, 4), 4), 4), 4);
    SpinAdd(b, 4, 4);
    SpinAdd(b, 8, 4);
  }

  lemma UpFours()
    ensures 0x0008 << 4 == 0x0080 as bv16 && 0x0080 << 4 == 0x0800 as bv16 && 0x0800 << 4 == ONE
    ensures 0x0001 << 4 == 0x0010 as bv16 && 0x0010 << 4 == 0x0100 as bv16 && 0x0100 << 4 == 0x1000 as bv16
  {
  }

  lemma TimesX15(b: bv16)
    ensures Times(0x0001, b, 16) == Spin(b, 15)
  {
    hide *;
    UpFours();
    UpOnes();
    FourSkips(0x0001, b, 12);
    FourSkips(0x0010, Spin(b, 4), 8);
    FourSkips(0x0100, Spin(Spin(b, 4), 4), 4);
    SpinAdd(b, 4, 4);
    SpinAdd(b, 8, 4);
    var c := Spin(b, 12);
    TimesSkip(0x1000, c, 4);
    TimesSkip(0x2000, Turn(c), 3);
    TimesSkip(0x4000, Turn(Turn(c)), 2);
    TimesOne(Turn(Turn(Turn(c))), 1);
    SpinAdd(b, 12, 3);
    SpinThree(c);
  }

  lemma UpOnes()
    ensures Up(0x1000) == 0x2000 && Up(0x2000) == 0x4000 && Up(0x4000) == ONE
    ensures !Top(0x1000) && !Top(0x2000) && !Top(0x4000)
  {}

  lemma SpinThree(c: bv16)
    ensures Spin(c, 3) == Turn(Turn(Turn(c)))
  {
    hide Turn;
  }

  function GeneratorTail(f: bv16): bv16 {
    Xor(Xor(f, TurnMasked(FourTurns(f))), FourTurns(FourTurns(FourTurns(f))))
  }

  lemma GeneratorLow(f: bv16)
    ensures LowHalf(GeneratorTail(f)) == LowHalf(FourTurns(FourTurns(FourTurns(FourTurns(f)))))
  {}

  lemma GeneratorHigh(f: bv16)
    ensures HighHalf(GeneratorTail(f)) == HighHalf(FourTurns(FourTurns(FourTurns(FourTurns(f)))))
  {}

  /** The register satisfies its generator: x^16 == 1 + x^5 + x^12. */
  lemma Generator(f: bv16)
    ensures Xor(Xor(f, Spin(f, 5)), Spin(f, 12)) == Spin(f, 16)
  {
    hide Turn, Xor, TurnMasked, FourTurns, LowHalf, HighHalf;
    SpinFour(f);
    SpinFour(Spin(f, 4));
    SpinFour(Spin(f, 8));
    SpinFour(Spin(f, 12));
    SpinAdd(f, 4, 1);
    SpinAdd(f, 4, 4);
    SpinAdd(f, 8, 4);
    SpinAdd(f, 12, 4);
    TurnIsMasked(Spin(f, 4));
    assert Spin(f, 5) == Turn(Spin(f, 4));
    GeneratorLow(f);
    GeneratorHigh(f);
    SameHalves(GeneratorTail(f), Spin(f, 16));
  }

  lemma FedIsLow(b: bv16)
    ensures Product(0x8408, b) == Product(0x0001, Turn(b))
  {
    assert Xor(0x8000, Xor(0x0400, 0x0008)) == 0x8408;
    hide Turn, Xor, Times;
    TimesXor(0x8000, Xor(0x0400, 0x0008), b, 16);
    TimesXor(0x0400, 0x0008, b, 16);
    TimesOne(b, 16);
    TimesX5(b);
    TimesX12(b);
    TimesX15(Turn(b));
    XorAssoc(b, Spin(b, 5), Spin(b, 12));
    Generator(b);
  }

  function Even(a: bv16): bv16 {
    a & 0xFFFE
  }

  function Half(a: bv16): bv16 {
    a >> 1
  }

  function Odd(a: bv16): bool {
    a & 1 == 1
  }

  lemma TurnEven(a: bv16)
    requires !Odd(a)
    ensures Turn(a) == Half(a)
  {}

  lemma TurnOdd(a: bv16)
    requires Odd(a)
    ensures a == Xor(Even(a), 0x0001)
    ensures Turn(a) == Xor(Half(Even(a)), 0x8408)
    ensures !Odd(Even(a))
  {}

  lemma EvenProduct(a: bv16, b: bv16)
    requires !Odd(a)
    ensures Product(Half(a), b) == Product(a, Turn(b))
  {
    assert a & 1 == 0;
    EvenTurn(a, b);
    hide Product, Turn;
  }

  lemma ProductTurn(a: bv16, b: bv16)
    ensures Product(Turn(a), b) == Turn(Product(a, b))
  {
    hide Turn, Xor, Times, Even, Half, Odd;
    TimesTurn(a, b, 16);
    if Odd(a) {
      TurnOdd(a);
      EvenProduct(Even(a), b);
      TimesXor(Even(a), 0x0001, Turn(b), 16);
      TimesXor(Half(Even(a)), 0x8408, b, 16);
      FedIsLow(b);
    } else {
      TurnEven(a);
      EvenProduct(a, b);
    }
  }

  /** The state reached from 1 after `k` turns multiplies like x^k. */
  lemma {:induction false} ProductSpin(k: nat, b: bv16)
    ensures Product(Spin(ONE, k), b) == Spin(b, k)
    decreases k
  {
    hide Turn, Times;
    if k == 0 {
      TimesOne(b, 16);
      assert Spin(ONE, 0) == ONE;
    } else {
      hide Product;
      ProductSpin(k - 1, b);
      SpinAdd(ONE, k - 1, 1);
      SpinAdd(b, k - 1, 1);
      assert Spin(Spin(b, k - 1), 1) == Turn(Spin(b, k - 1));
      assert Spin(Spin(ONE, k - 1), 1) == Turn(Spin(ONE, k - 1));
      ProductTurn(Spin(ONE, k - 1), b);
    }
  }

  // ---------- the order of x ----------

  /** Exponents add: x^j * x^k == x^(j + k). */
  lemma PowerProduct(j: nat, k: nat)
    ensures Spin(ONE, j + k) == Product(Spin(ONE, j), Spin(ONE, k))
  {
    hide Turn, Product;
    ProductSpin(j, Spin(ONE, k));
    SpinAdd(ONE, k, j);
  }

  /** Four terms of a product, without recursion, for evaluation on constants. */
  function FourTerms(a: bv16, b: bv16): bv16 {
    var b1 := TurnMasked(b);
    var b2 := TurnMasked(b1);
    var b3 := TurnMasked(b2);
    Xor(Pick(Top(a), b), Xor(Pick(Top(Up(a)), b1), Xor(Pick(Top(Up(Up(a))), b2), Pick(Top(Up(Up(Up(a)))), b3))))
  }

  function Evaluate(a: bv16, b: bv16): bv16 {
    var c := FourTurns(b);
    var d := FourTurns(c);
    Xor(FourTerms(a, b), Xor(FourTerms(UpFour(a), c),
    Xor(FourTerms(UpFour(UpFour(a)), d), FourTerms(UpFour(UpFour(UpFour(a))), FourTurns(d)))))
  }

  function UpFour(a: bv16): bv16 {
    a << 4
  }

  lemma FourTermsIsTimes(a: bv16, b: bv16)
    ensures Times(a, b, 4) == FourTerms(a, b)
  {
    hide Turn, TurnMasked, Xor, Pick, Top, Up;
    var b1 := Turn(b);
    TurnIsMasked(b);
    TurnIsMasked(b1);
    TurnIsMasked(Turn(b1));
    var top := Pick(Top(Up(Up(Up(a)))), Turn(Turn(b1)));
    XorZero(top);
    assert Times(Up(Up(Up(Up(a)))), Turn(Turn(Turn(b1))), 0) == 0;
    assert Times(Up(Up(Up(a))), Turn(Turn(b1)), 1) == top;
    assert Times(Up(Up(a)), Turn(b1), 2) == Xor(Pick(Top(Up(Up(a))), Turn(b1)), top);
  }

  lemma UpsFour(a: bv16)
    ensures Ups(a, 4) == UpFour(a)
  {}

  lemma EvaluateIsProduct(a: bv16, b: bv16)
    ensures Product(a, b) == Evaluate(a, b)
  {
    hide Turn, TurnMasked, Xor, Pick, Top, Up, UpFour, Ups, FourTerms, FourTurns, Times;
    var a4 := UpFour(a);
    var a8 := UpFour(a4);
    var b4 := Spin(b, 4);
    var b8 := Spin(b4, 4);
    UpsFour(a);
    UpsFour(a4);
    UpsFour(a8);
    TimesSplit(a, b, 4, 12);
    TimesSplit(a4, b4, 4, 8);
    TimesSplit(a8, b8, 4, 4);
    SpinFour(b);
    SpinFour(b4);
    SpinFour(b8);
    FourTermsIsTimes(a, b);
    FourTermsIsTimes(a4, b4);
    FourTermsIsTimes(a8, b8);
    FourTermsIsTimes(UpFour(a8), Spin(b8, 4));
  }

  lemma PowerSum(j: nat, k: nat)
    ensures Spin(ONE, j + k) == Evaluate(Spin(ONE, j), Spin(ONE, k))
  {
    hide Spin, Product, Evaluate;
    PowerProduct(j, k);
    EvaluateIsProduct(Spin(ONE, j), Spin(ONE, k));
  }

  /** x^(2^i) for the exponents needed below, by repeated squaring. */
  lemma Squares()
    ensures Spin(ONE, 1) == 0x4000
    ensures Spin(ONE, 8) == 0x0080
    ensures Spin(ONE, 16) == 0x8408
    ensures Spin(ONE, 32) == 0x0CEC
    ensures Spin(ONE, 64) == 0x861D
    ensures Spin(ONE, 128) == 0x3F75
    ensures Spin(ONE, 512) == 0x3FC8
    ensures Spin(ONE, 1024) == 0x236C
    ensures Spin(ONE, 4096) == 0x7955
    ensures Spin(ONE, 32768) == 0x4000
  {
    assert Spin(ONE, 1) == Turn(ONE) == 0x4000;
    hide Spin, Turn;
    PowerSum(1, 1);
    PowerSum(2, 2);
    PowerSum(4, 4);
    PowerSum(8, 8);
    PowerSum(16, 16);
    PowerSum(32, 32);
    PowerSum(64, 64);
    PowerSum(128, 128);
    PowerSum(256, 256);
    PowerSum(512, 512);
    PowerSum(1024, 1024);
    PowerSum(2048, 2048);
    PowerSum(4096, 4096);
    PowerSum(8192, 8192);
    PowerSum(16384, 16384);
  }

  /** x^(CYCLE / p) for the prime factors p of CYCLE, and x^CYCLE. */
  lemma Powers()
    ensures Spin(ONE, 217) == 0xC712 && Spin(ONE, 1057) == 0xF54F && Spin(ONE, 4681) == 0x4234
    ensures Spin(ONE, CYCLE) == ONE
  {
    Squares();
    SpinAdd(ONE, CYCLE, 1);
    assert Spin(ONE, 32768) == Turn(Spin(ONE, CYCLE));
    assert Spin(ONE, 1) == Turn(ONE);
    TurnInjective(Spin(ONE, CYCLE), ONE);
    hide Spin, Turn;
    PowerSum(128, 64);
    PowerSum(192, 16);
    PowerSum(208, 8);
    PowerSum(216, 1);
    PowerSum(1024, 32);
    PowerSum(1056, 1);
    PowerSum(4096, 512);
    PowerSum(4608, 64);
    PowerSum(4672, 8);
    PowerSum(4680, 1);
  }

  ghost predicate Cycles(k: nat) {
    Spin(ONE, k) == ONE
  }

  lemma {:induction false} CyclesMultiple(k: nat, q: nat)
    requires Cycles(k)
    ensures Cycles(k * q)
    decreases q
  {
    if q == 0 {
    } else {
      hide Spin;
      CyclesMultiple(k, q - 1);
      SpinAdd(ONE, k * (q - 1), k);
    }
  }

  lemma CyclesDivisor(d: nat, n: nat)
    requires 0 < d && Cycles(d) && n % d == 0
    ensures Cycles(n)
  {
    CyclesMultiple(d, n / d);
    assert d * (n / d) == n;
  }

  lemma CyclesRemainder(j: nat, k: nat)
    requires 0 < k && Cycles(j) && Cycles(k)
    ensures Cycles(j % k)
  {
    hide Spin;
    CyclesMultiple(k, j / k);
    SpinAdd(ONE, k * (j / k), j % k);
  }

  /** The smallest cycle not above `k` divides CYCLE. */
  lemma {:induction false} SmallestCycle(k: nat) returns (d: nat)
    requires 0 < k && Cycles(k)
    ensures 0 < d <= k && Cycles(d) && CYCLE % d == 0
    decreases k
  {
    Powers();
    CyclesRemainder(CYCLE, k);
    if CYCLE % k == 0 {
      d := k;
    } else {
      d := SmallestCycle(CYCLE % k);
    }
  }

  predicate KnownDivisor(q: nat)
    requires q != 0
  {
    CYCLE % q == 0 ==> q == 1 || q == 7 || q == 31 || q == 151
  }

  predicate KnownDivisors(n: nat)
    requires n != 0
  {
    && KnownDivisor(n) && KnownDivisor(n + 1) && KnownDivisor(n + 2) && KnownDivisor(n + 3)
    && KnownDivisor(n + 4) && KnownDivisor(n + 5) && KnownDivisor(n + 6) && KnownDivisor(n + 7)
  }

  lemma TrialBlock(n: nat)
    requires n < 23
    ensures KnownDivisors(8 * n + 1)
  {
    match n
    case 0 => assert KnownDivisors(1); case 1 => assert KnownDivisors(9); case 2 => assert KnownDivisors(17);
    case 3 => assert KnownDivisors(25); case 4 => assert KnownDivisors(33); case 5 => assert KnownDivisors(41);
    case 6 => assert KnownDivisors(49); case 7 => assert KnownDivisors(57); case 8 => assert KnownDivisors(65);
    case 9 => assert KnownDivisors(73); case 10 => assert KnownDivisors(81); case 11 => assert KnownDivisors(89);
    case 12 => assert KnownDivisors(97); case 13 => assert KnownDivisors(105); case 14 => assert KnownDivisors(113);
    case 15 => assert KnownDivisors(121); case 16 => assert KnownDivisors(129); case 17 => assert KnownDivisors(137);
    case 18 => assert KnownDivisors(145); case 19 => assert KnownDivisors(153); case 20 => assert KnownDivisors(161);
    case 21 => assert KnownDivisors(169); case 22 => assert KnownDivisors(177);
  }

  /** 7, 31 and 151 are the only divisors of CYCLE from 2 up to its square root. */
  lemma SmallDivisors(q: nat)
    requires 0 < q <= 184
    ensures KnownDivisor(q)
  {
    var n := (q - 1) / 8;
    TrialBlock(n);
    assert q == 8 * n + 1 || q == 8 * n + 2 || q == 8 * n + 3 || q == 8 * n + 4
        || q == 8 * n + 5 || q == 8 * n + 6 || q == 8 * n + 7 || q == 8 * n + 8;
    hide KnownDivisor;
  }

  lemma AtLeast(q: int, x: int)
    requires 0 <= q
    ensures 1 <= x ==> q <= q * x
    ensures x <= -1 ==> q * x <= -q
  {
    if 1 <= x {
      assert q * x == q + q * (x - 1);
    } else if x <= -1 {
      assert q * x == q * (x + 1) - q;
    }
  }

  lemma NoRemainder(q: nat, d: int, e: int, r: nat)
    requires r < q && q * d == q * e + r
    ensures r == 0
  {
    assert q * (d - e) == r;
    AtLeast(q, d - e);
  }

  lemma LargeProduct(d: nat, q: nat)
    requires 185 <= d && 185 <= q
    ensures CYCLE < d * q
  {
    assert (d - 185) * (q - 185) >= 0;
  }

  lemma Cofactor(d: nat, q: nat)
    requires 185 <= d && 0 < q && d * q == CYCLE
    ensures CYCLE % q == 0 && q <= 184
  {
    NoRemainder(q, d, CYCLE / q, CYCLE % q);
    if 185 <= q {
      LargeProduct(d, q);
    }
  }

  /** Every proper divisor of CYCLE divides CYCLE / p for a prime factor p. */
  lemma ProperDivisor(d: nat)
    requires 0 < d < CYCLE && CYCLE % d == 0
    ensures 4681 % d == 0 || 1057 % d == 0 || 217 % d == 0
  {
    if d <= 184 {
      SmallDivisors(d);
    } else {
      var q := CYCLE / d;
      assert d * q == CYCLE;
      assert q != 0 && q != 1;
      Cofactor(d, q);
      SmallDivisors(q);
      assert q == 7 || q == 31 || q == 151;
      assert d == 4681 || d == 1057 || d == 217;
    }
  }

  /** No power of x strictly between x^0 and x^CYCLE is 1. */
  lemma NoShorterCycle(k: nat)
    requires 0 < k < CYCLE
    ensures !Cycles(k)
  {
    if Cycles(k) {
      hide Cycles;
      var d := SmallestCycle(k);
      ProperDivisor(d);
      NotCycles();
      if 4681 % d == 0 {
        CyclesDivisor(d, 4681);
      } else if 1057 % d == 0 {
        CyclesDivisor(d, 1057);
      } else {
        CyclesDivisor(d, 217);
      }
    }
  }

  lemma NotCycles()
    ensures !Cycles(217) && !Cycles(1057) && !Cycles(4681)
  {
    Powers();
    hide Spin;
  }

  /** A bit shifted in is first cancelled by an equal bit `CYCLE` turns later. */
  lemma LoneBit(k: nat)
    requires 0 < k < CYCLE
    ensures Spin(1, k) != 1
  {
    hide Turn;
    if Spin(1, k) == 1 {
      LowestPower();
      SpinAdd(ONE, 15, k);
      SpinAdd(ONE, k, 15);
      SpinInjective(Spin(ONE, k), ONE, 15);
      NoShorterCycle(k);
    }
  }

  lemma LowestPower()
    ensures Spin(ONE, 15) == 1
  {
    assert Turn(0x8000) == 0x4000 && Turn(0x4000) == 0x2000 && Turn(0x2000) == 0x1000 && Turn(0x1000) == 0x0800;
    assert Turn(0x0800) == 0x0400 && Turn(0x0400) == 0x0200 && Turn(0x0200) == 0x0100 && Turn(0x0100) == 0x0080;
    assert Turn(0x0080) == 0x0040 && Turn(0x0040) == 0x0020 && Turn(0x0020) == 0x0010 && Turn(0x0010) == 0x0008;
    assert Turn(0x0008) == 0x0004 && Turn(0x0004) == 0x0002 && Turn(0x0002) == 0x0001;
    hide Turn;
    assert Spin(0x0010, 4) == 1;
    assert Spin(0x0100, 4) == 0x0010;
    assert Spin(0x1000, 4) == 0x0100;
    assert Spin(ONE, 3) == 0x1000;
    SpinAdd(ONE, 3, 4);
    SpinAdd(ONE, 7, 4);
    SpinAdd(ONE, 11, 4);
  }

  lemma {:induction false} SpinInjective(a: bv16, b: bv16, n: nat)
    requires Spin(a, n) == Spin(b, n)
    ensures a == b
    decreases n
  {
    hide Turn;
    if n != 0 {
      SpinInjective(Turn(a), Turn(b), n - 1);
      TurnInjective(a, b);
    }
  }
}
