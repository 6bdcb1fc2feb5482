/**
 * The 16-bit frame check sequence.
 *
 * The reference is a serial shift register fed one bit at a time, least significant bit of each
 * octet first (Appendix C.2 of RFC 1662).  The table-driven loop of the code is proved against it.
 */
module Fcs {
  import opened Octets

  /** The register after any data followed by its own check sequence. */
  const RESIDUE: bv16 := 0xF0B8

  // ---------- reference: the serial register ----------

  /** One shift of the register, with feedback through the polynomial 0x8408. */
  function Turn(f: bv16): bv16 {
    (f >> 1) ^ (if f & 1 == 1 then 0x8408 else 0)
  }

  /** Exclusive or by name, so that proofs can treat it as a symbol. */
  function Xor(a: bv16, b: bv16): bv16 {
    a ^ b
  }

  function Unit(bit: bool): bv16 {
    if bit then 1 else 0
  }

  function Shift(f: bv16, bit: bool): bv16 {
    Turn(Xor(f, Unit(bit)))
  }

  function Register(f: bv16, bits: seq<bool>): bv16
    decreases bits
  {
    if bits == [] then f else Register(Shift(f, bits[0]), bits[1..])
  }

  /** The low `n` bits of `w`, least significant first. */
  function BitsOf(w: bv16, n: nat): (r: seq<bool>)
    ensures |r| == n
    decreases n
  {
    if n == 0 then [] else [w & 1 == 1] + BitsOf(w >> 1, n - 1)
  }

  /** The bits of an octet string in the order they are transmitted. */
  function Bits(s: bytes): (r: seq<bool>)
    ensures |r| == 8 * |s|
  {
    if s == [] then [] else BitsOf(s[0] as bv16, 8) + Bits(s[1..])
  }

  function Feed(f: bv16, s: bytes): bv16 {
    Register(f, Bits(s))
  }

  function CheckSequence(s: bytes): bv16 {
    !Feed(0xFFFF, s)
  }

  /** An octet string followed by its check sequence, low octet first. */
  function Sealed(s: bytes): bytes {
    s + [Lo(CheckSequence(s)), Hi(CheckSequence(s))]
  }

  // ---------- the table-driven form ----------

  function Pick(c: byte, v0: bv16, v1: bv16, v2: bv16, v3: bv16, v4: bv16, v5: bv16, v6: bv16, v7: bv16): bv16 {
    if c == 0 then v0 else if c == 1 then v1 else if c == 2 then v2 else if c == 3 then v3
    else if c == 4 then v4 else if c == 5 then v5 else if c == 6 then v6 else v7
  }

  /** The static table: line `i >> 3`, column `i & 7`. */
  function Table(i: byte): bv16 {
    var c := i & 7;
    match i >> 3
    case 0x00 => Pick(c, 0x0000, 0x1189, 0x2312, 0x329B, 0x4624, 0x57AD, 0x6536, 0x74BF)
    case 0x01 => Pick(c, 0x8C48, 0x9DC1, 0xAF5A, 0xBED3, 0xCA6C, 0xDBE5, 0xE97E, 0xF8F7)
    case 0x02 => Pick(c, 0x1081, 0x0108, 0x3393, 0x221A, 0x56A5, 0x472C, 0x75B7, 0x643E)
    case 0x03 => Pick(c, 0x9CC9, 0x8D40, 0xBFDB, 0xAE52, 0xDAED, 0xCB64, 0xF9FF, 0xE876)
    case 0x04 => Pick(c, 0x2102, 0x308B, 0x0210, 0x1399, 0x6726, 0x76AF, 0x4434, 0x55BD)
    case 0x05 => Pick(c, 0xAD4A, 0xBCC3, 0x8E58, 0x9FD1, 0xEB6E, 0xFAE7, 0xC87C, 0xD9F5)
    case 0x06 => Pick(c, 0x3183, 0x200A, 0x1291, 0x0318, 0x77A7, 0x662E, 0x54B5, 0x453C)
    case 0x07 => Pick(c, 0xBDCB, 0xAC42, 0x9ED9, 0x8F50, 0xFBEF, 0xEA66, 0xD8FD, 0xC974)
    case 0x08 => Pick(c, 0x4204, 0x538D, 0x6116, 0x709F, 0x0420, 0x15A9, 0x2732, 0x36BB)
    case 0x09 => Pick(c, 0xCE4C, 0xDFC5, 0xED5E, 0xFCD7, 0x8868, 0x99E1, 0xAB7A, 0xBAF3)
    case 0x0A => Pick(c, 0x5285, 0x430C, 0x7197, 0x601E, 0x14A1, 0x0528, 0x37B3, 0x263A)
    case 0x0B => Pick(c, 0xDECD, 0xCF44, 0xFDDF, 0xEC56, 0x98E9, 0x8960, 0xBBFB, 0xAA72)
    case 0x0C => Pick(c, 0x6306, 0x728F, 0x4014, 0x519D, 0x2522, 0x34AB, 0x0630, 0x17B9)
    case 0x0D => Pick(c, 0xEF4E, 0xFEC7, 0xCC5C, 0xDDD5, 0xA96A, 0xB8E3, 0x8A78, 0x9BF1)
    case 0x0E => Pick(c, 0x7387, 0x620E, 0x5095, 0x411C, 0x35A3, 0x242A, 0x16B1, 0x0738)
    case 0x0F => Pick(c, 0xFFCF, 0xEE46, 0xDCDD, 0xCD54, 0xB9EB, 0xA862, 0x9AF9, 0x8B70)
    case 0x10 => Pick(c, 0x8408, 0x9581, 0xA71A, 0xB693, 0xC22C, 0xD3A5, 0xE13E, 0xF0B7)
    case 0x11 => Pick(c, 0x0840, 0x19C9, 0x2B52, 0x3ADB, 0x4E64, 0x5FED, 0x6D76, 0x7CFF)
    case 0x12 => Pick(c, 0x9489, 0x8500, 0xB79B, 0xA612, 0xD2AD, 0xC324, 0xF1BF, 0xE036)
    case 0x13 => Pick(c, 0x18C1, 0x0948, 0x3BD3, 0x2A5A, 0x5EE5, 0x4F6C, 0x7DF7, 0x6C7E)
    case 0x14 => Pick(c, 0xA50A, 0xB483, 0x8618, 0x9791, 0xE32E, 0xF2A7, 0xC03C, 0xD1B5)
    case 0x15 => Pick(c, 0x2942, 0x38CB, 0x0A50, 0x1BD9, 0x6F66, 0x7EEF, 0x4C74, 0x5DFD)
    case 0x16 => Pick(c, 0xB58B, 0xA402, 0x9699, 0x8710, 0xF3AF, 0xE226, 0xD0BD, 0xC134)
    case 0x17 => Pick(c, 0x39C3, 0x284A, 0x1AD1, 0x0B58, 0x7FE7, 0x6E6E, 0x5CF5, 0x4D7C)
    case 0x18 => Pick(c, 0xC60C, 0xD785, 0xE51E, 0xF497, 0x8028, 0x91A1, 0xA33A, 0xB2B3)
    case 0x19 => Pick(c, 0x4A44, 0x5BCD, 0x6956, 0x78DF, 0x0C60, 0x1DE9, 0x2F72, 0x3EFB)
    case 0x1A => Pick(c, 0xD68D, 0xC704, 0xF59F, 0xE416, 0x90A9, 0x8120, 0xB3BB, 0xA232)
    case 0x1B => Pick(c, 0x5AC5, 0x4B4C, 0x79D7, 0x685E, 0x1CE1, 0x0D68, 0x3FF3, 0x2E7A)
    case 0x1C => Pick(c, 0xE70E, 0xF687, 0xC41C, 0xD595, 0xA12A, 0xB0A3, 0x8238, 0x93B1)
    case 0x1D => Pick(c, 0x6B46, 0x7ACF, 0x4854, 0x59DD, 0x2D62, 0x3CEB, 0x0E70, 0x1FF9)
    case 0x1E => Pick(c, 0xF78F, 0xE606, 0xD49D, 0xC514, 0xB1AB, 0xA022, 0x92B9, 0x8330)
    case 0x1F => Pick(c, 0x7BC7, 0x6A4E, 0x58D5, 0x495C, 0x3DE3, 0x2C6A, 0x1EF1, 0x0F78)
    case _ => 0
  }

  method CheckSequenceCalc(data: bytes, size: nat) returns (fcs: bv16)
    requires size < 0x1_0000 && size <= |data|
    ensures fcs == CheckSequence(data[..size])
  {
    hide Table, Feed;
    var left: nat := size;
    fcs := 0xFFFF;
    FeedNothing(fcs);
    while left != 0
      invariant 0 <= left <= size
      invariant fcs == Feed(0xFFFF, data[..size - left])
      decreases left
    {
      var b := data[size - left];
      FeedLast(0xFFFF, data[..size - left], b);
      TableStep(fcs, b);
      assert data[..size - left] + [b] == data[..size - left + 1];
      fcs := (fcs >> 8) ^ Table(((fcs ^ b as bv16) & 0xFF) as bv8);
      left := left - 1;
    }
    fcs := !fcs;
  }

  // ---------- eight shifts at once ----------

  /** The contribution of one octet, in closed form. */
  function Fold(i: byte): bv16 {
    var x := (i ^ (i << 4)) as bv16;
    (x << 8) ^ (x << 3) ^ (x >> 4)
  }

  function EightTurns(x: bv16): bv16 {
    (x >> 8) ^ Fold((x & 0xFF) as bv8)
  }

  function OctetStep(f: bv16, b: byte): bv16 {
    EightTurns(Xor(f, b as bv16))
  }

  lemma TableIsFold(i: byte)
    ensures Table(i) == Fold(i)
  {
    if i < 0x80 {
      LowTableIsFold(i);
    } else {
      HighTableIsFold(i);
    }
    hide *;
  }

  lemma LowTableIsFold(i: byte)
    requires i < 0x80
    ensures Table(i) == Fold(i)
  {}

  lemma HighTableIsFold(i: byte)
    requires i >= 0x80
    ensures Table(i) == Fold(i)
  {}

  lemma FoldStep(f: bv16, b: byte)
    ensures (f >> 8) ^ Fold(((f ^ b as bv16) & 0xFF) as bv8) == OctetStep(f, b)
  {
    var x := f ^ b as bv16;
    calc {
      OctetStep(f, b);
      { hide *; }
      EightTurns(x);
      (x >> 8) ^ Fold((x & 0xFF) as bv8);
    }
    assert x >> 8 == f >> 8;
    hide *;
  }

  lemma TableStep(f: bv16, b: byte)
    ensures (f >> 8) ^ Table(((f ^ b as bv16) & 0xFF) as bv8) == OctetStep(f, b)
  {
    hide *;
    FoldStep(f, b);
    TableIsFold(((f ^ b as bv16) & 0xFF) as bv8);
  }

  function Spin(f: bv16, n: nat): bv16
    decreases n
  {
    if n == 0 then f else Spin(Turn(f), n - 1)
  }

  function Rest(w: bv16, n: nat): bv16
    decreases n
  {
    if n == 0 then w else Rest(w >> 1, n - 1)
  }

  predicate Low(f: bv16) {
    f & 1 == 1
  }

  function Half(f: bv16): bv16 {
    f >> 1
  }

  function Feedback(bit: bool): bv16 {
    if bit then 0x8408 else 0
  }

  lemma TurnParts(f: bv16)
    ensures Turn(f) == Xor(Half(f), Feedback(Low(f)))
  {
    calc {
      Xor(Half(f), Feedback(Low(f)));
      Half(f) ^ Feedback(Low(f));
      (f >> 1) ^ Feedback(f & 1 == 1);
      (f >> 1) ^ (if f & 1 == 1 then 0x8408 else 0);
      Turn(f);
    }
    hide *;
  }

  lemma HalfXor(a: bv16, b: bv16)
    ensures Half(Xor(a, b)) == Xor(Half(a), Half(b))
  {}

  lemma LowXor(a: bv16, b: bv16)
    ensures Low(Xor(a, b)) == (Low(a) != Low(b))
  {}

  lemma UnitParts(bit: bool)
    ensures Half(Unit(bit)) == 0 && Low(Unit(bit)) == bit
  {}

  lemma XorSwapLast(a: bv16, b: bv16, c: bv16)
    ensures Xor(Xor(a, b), c) == Xor(Xor(a, c), b)
  {
    assert (a ^ b) ^ c == (a ^ c) ^ b;
  }

  lemma FeedNamed(f: bv16, w: bv16)
    ensures Xor(Shift(f, Low(w)), Half(w)) == Turn(Xor(f, w))
  {
    hide Xor, Unit, Turn, Low, Half, Feedback;
    var u := Unit(Low(w));
    TurnParts(Xor(f, u));
    TurnParts(Xor(f, w));
    HalfXor(f, u);
    HalfXor(f, w);
    UnitParts(Low(w));
    LowXor(f, u);
    LowXor(f, w);
    XorZero(Half(f));
    XorSwapLast(Half(f), Feedback(Low(Xor(f, w))), Half(w));
  }

  lemma FeedOne(f: bv16, w: bv16)
    ensures Xor(Shift(f, w & 1 == 1), w >> 1) == Turn(Xor(f, w))
  {
    assert (w & 1 == 1) == Low(w) && w >> 1 == Half(w);
    FeedNamed(f, w);
    hide *;
  }

  /** Feeding the bits of a word late equals loading the word early and turning. */
  lemma {:induction false} FeedWord(f: bv16, w: bv16, n: nat)
    ensures Xor(Register(f, BitsOf(w, n)), Rest(w, n)) == Spin(Xor(f, w), n)
    decreases n
  {
    hide Shift, Turn, Xor;
    if n != 0 {
      FeedOne(f, w);
      FeedWord(Shift(f, w & 1 == 1), w >> 1, n - 1);
      assert BitsOf(w, n)[1..] == BitsOf(w >> 1, n - 1);
    }
  }

  /** `Turn` without its case split. */
  function TurnMasked(f: bv16): bv16 {
    var m := f & 1;
    (f >> 1) ^ (m << 15) ^ (m << 10) ^ (m << 3)
  }

  lemma TurnIsMasked(f: bv16)
    ensures Turn(f) == TurnMasked(f)
  {
    if f & 1 == 1 {
      OddIsMasked(f);
    } else {
      EvenIsMasked(f);
    }
    hide *;
  }

  lemma OddIsMasked(f: bv16)
    requires f & 1 == 1
    ensures Turn(f) == TurnMasked(f)
  {}

  lemma EvenIsMasked(f: bv16)
    requires f & 1 != 1
    ensures Turn(f) == TurnMasked(f)
  {}

  function FourTurns(f: bv16): bv16 {
    var m := f & 0x0F;
    (f >> 4) ^ (m << 12) ^ (m << 7) ^ m
  }

  lemma MaskedFour(f: bv16)
    ensures TurnMasked(TurnMasked(TurnMasked(TurnMasked(f)))) == FourTurns(f)
  {}

  lemma SpinFour(f: bv16)
    ensures Spin(f, 4) == FourTurns(f)
  {
    TurnIsMasked(f);
    TurnIsMasked(TurnMasked(f));
    TurnIsMasked(TurnMasked(TurnMasked(f)));
    TurnIsMasked(TurnMasked(TurnMasked(TurnMasked(f))));
    assert Spin(f, 4) == Turn(Turn(Turn(Turn(f)))) by { hide Turn; }
    MaskedFour(f);
    hide *;
  }

  function LowHalf(f: bv16): bv16 {
    f & 0xFF
  }

  function HighHalf(f: bv16): bv16 {
    f >> 8
  }

  lemma SameHalves(a: bv16, b: bv16)
    requires LowHalf(a) == LowHalf(b) && HighHalf(a) == HighHalf(b)
    ensures a == b
  {}

  lemma LowEight(f: bv16)
    ensures LowHalf(FourTurns(FourTurns(f))) == LowHalf(EightTurns(f))
  {}

  lemma HighEight(f: bv16)
    ensures HighHalf(FourTurns(FourTurns(f))) == HighHalf(EightTurns(f))
  {}

  lemma SpinEight(f: bv16)
    ensures Spin(f, 8) == EightTurns(f)
  {
    hide *;
    SpinFour(f);
    SpinFour(FourTurns(f));
    SpinTwice(f);
    LowEight(f);
    HighEight(f);
    SameHalves(FourTurns(FourTurns(f)), EightTurns(f));
  }

  lemma SpinTwice(f: bv16)
    ensures Spin(f, 8) == Spin(Spin(f, 4), 4)
  {
    hide Turn;
  }

  lemma RestEight(b: byte)
    ensures Rest(b as bv16, 8) == 0
  {}

  lemma XorZero(f: bv16)
    ensures Xor(f, 0) == f
  {}

  lemma FeedOctet(f: bv16, b: byte)
    ensures Register(f, BitsOf(b as bv16, 8)) == OctetStep(f, b)
  {
    hide Register, BitsOf, Rest, Spin, Turn, EightTurns, Xor, Fold;
    FeedWord(f, b as bv16, 8);
    SpinEight(Xor(f, b as bv16));
    RestEight(b);
    XorZero(Register(f, BitsOf(b as bv16, 8)));
  }

  // ---------- composition ----------

  lemma {:induction false} RegisterAppend(f: bv16, a: seq<bool>, b: seq<bool>)
    ensures Register(f, a + b) == Register(Register(f, a), b)
    decreases a
  {
    hide Shift;
    if a == [] {
      assert a + b == b;
    } else {
      assert (a + b)[1..] == a[1..] + b;
      RegisterAppend(Shift(f, a[0]), a[1..], b);
    }
  }

  lemma {:induction false} BitsAppend(a: bytes, b: bytes)
    ensures Bits(a + b) == Bits(a) + Bits(b)
  {
    hide BitsOf;
    if a == [] {
      assert a + b == b;
    } else {
      assert (a + b)[1..] == a[1..] + b;
      BitsAppend(a[1..], b);
      assert BitsOf(a[0] as bv16, 8) + (Bits(a[1..]) + Bits(b)) == Bits(a) + Bits(b);
    }
  }

  /** The check register composes over concatenation. */
  lemma FeedAppend(f: bv16, a: bytes, b: bytes)
    ensures Feed(f, a + b) == Feed(Feed(f, a), b)
  {
    hide Register, Bits;
    BitsAppend(a, b);
    RegisterAppend(f, Bits(a), Bits(b));
  }

  lemma FeedNothing(f: bv16)
    ensures Feed(f, []) == f
  {}

  lemma FeedSingle(f: bv16, b: byte)
    ensures Feed(f, [b]) == OctetStep(f, b)
  {
    hide Register, BitsOf, OctetStep;
    assert Bits([b]) == BitsOf(b as bv16, 8);
    FeedOctet(f, b);
  }

  lemma FeedLast(f: bv16, s: bytes, b: byte)
    ensures Feed(f, s + [b]) == OctetStep(Feed(f, s), b)
  {
    hide Feed, OctetStep;
    FeedAppend(f, s, [b]);
    FeedSingle(Feed(f, s), b);
  }

  /** The register, an octet at a time. */
  function Steps(f: bv16, s: bytes): bv16
    decreases s
  {
    if s == [] then f else Steps(OctetStep(f, s[0]), s[1..])
  }

  lemma {:induction false} FeedIsSteps(f: bv16, s: bytes)
    ensures Feed(f, s) == Steps(f, s)
    decreases s
  {
    hide Feed, OctetStep;
    if s == [] {
      FeedNothing(f);
    } else {
      assert [s[0]] + s[1..] == s;
      FeedAppend(f, [s[0]], s[1..]);
      FeedSingle(f, s[0]);
      FeedIsSteps(OctetStep(f, s[0]), s[1..]);
    }
  }

  /** One turn of the loop. */
  function TableTurn(f: bv16, b: byte): bv16 {
    (f >> 8) ^ Table(((f ^ b as bv16) & 0xFF) as bv8)
  }

  lemma TableTurnIsStep(f: bv16, b: byte)
    ensures TableTurn(f, b) == OctetStep(f, b)
  {
    hide Table, OctetStep;
    TableStep(f, b);
  }

  /** The register as the table drives it. */
  function TableRegister(f: bv16, s: bytes): bv16
    decreases s
  {
    if s == [] then f else TableRegister(TableTurn(f, s[0]), s[1..])
  }

  /** The fast form refines the simple one: the table drives the register as the serial shifts do. */
  lemma {:induction false} TableIsSerial(f: bv16, s: bytes)
    ensures TableRegister(f, s) == Feed(f, s)
    decreases s
  {
    hide Feed, OctetStep, TableTurn;
    if s == [] {
      FeedNothing(f);
    } else {
      assert [s[0]] + s[1..] == s;
      FeedAppend(f, [s[0]], s[1..]);
      FeedSingle(f, s[0]);
      TableTurnIsStep(f, s[0]);
      TableIsSerial(OctetStep(f, s[0]), s[1..]);
    }
  }

  // ---------- the residue ----------

  lemma ResidueStep(f: bv16, lo: byte, hi: byte)
    ensures OctetStep(OctetStep(f, lo), hi) == RESIDUE <==> lo == Lo(!f) && hi == Hi(!f)
  {}

  /** Two octets after `s` are its check sequence iff the register over all of it is the residue. */
  lemma ResidueIffSealed(s: bytes, lo: byte, hi: byte)
    ensures Feed(0xFFFF, s + [lo, hi]) == RESIDUE <==> s + [lo, hi] == Sealed(s)
  {
    hide *;
    var lo1, hi1 := Lo(CheckSequence(s)), Hi(CheckSequence(s));
    assert s + [lo, hi] == (s + [lo]) + [hi];
    FeedLast(0xFFFF, s, lo);
    FeedLast(0xFFFF, s + [lo], hi);
    ResidueOf(s, lo, hi);
    SealedIs(s);
    SameEnd(s, [lo, hi], [lo1, hi1]);
    assert [lo, hi][0] == lo && [lo, hi][1] == hi && [lo1, hi1][0] == lo1 && [lo1, hi1][1] == hi1;
  }

  lemma ResidueOf(s: bytes, lo: byte, hi: byte)
    ensures OctetStep(OctetStep(Feed(0xFFFF, s), lo), hi) == RESIDUE
      <==> lo == Lo(CheckSequence(s)) && hi == Hi(CheckSequence(s))
  {
    hide Feed, OctetStep, Lo, Hi;
    ResidueStep(Feed(0xFFFF, s), lo, hi);
  }

  lemma SealedIs(s: bytes)
    ensures Sealed(s) == s + [Lo(CheckSequence(s)), Hi(CheckSequence(s))]
  {
    hide CheckSequence, Lo, Hi;
  }

  lemma SameEnd(s: bytes, t: bytes, u: bytes)
    ensures s + t == s + u <==> t == u
  {
    assert (s + t)[|s|..] == t && (s + u)[|s|..] == u;
  }

  /** After any octet string followed by its own check sequence the register holds the residue. */
  lemma SealedResidue(s: bytes)
    ensures Feed(0xFFFF, Sealed(s)) == RESIDUE
  {
    hide Feed;
    ResidueIffSealed(s, Lo(CheckSequence(s)), Hi(CheckSequence(s)));
  }

  /** Behind anything and its own check, the check sequence knows only what follows. */
  lemma CheckBehindHeader(s: bytes, info: bytes)
    ensures CheckSequence(Sealed(s) + info) == !Feed(RESIDUE, info)
  {
    hide Feed, Sealed;
    FeedAppend(0xFFFF, Sealed(s), info);
    SealedResidue(s);
  }
}
