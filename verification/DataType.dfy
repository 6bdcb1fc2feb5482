/** The self-delimiting length code, and strings packed with it. */
module DataType {
  import opened Octets
  import opened Results

  /** A `std::vector<uint8_t>` passed by reference. */
  class ByteVector {
    var octets: bytes

    constructor ()
      ensures octets == []
    {
      octets := [];
    }

    method PushBack(b: byte)
      modifies this
      ensures octets == old(octets) + [b]
    {
      octets := octets + [b];
    }

    method Append(s: bytes)
      modifies this
      ensures octets == old(octets) + s
    {
      octets := octets + s;
    }
  }

  const MAX_SIZE: nat := 0xFFFF_FFFF

  // ---------- the code ----------

  function Power(k: nat): nat {
    if k == 0 then 1 else 256 * Power(k - 1)
  }

  /** The low `k` octets of `n`, most significant first. */
  function BigEndianOctets(n: nat, k: nat): (s: bytes)
    ensures |s| == k
    decreases k
  {
    if k == 0 then [] else BigEndianOctets(n / 256, k - 1) + [Oct(n)]
  }

  /** How many octets a size needs. */
  function Width(n: nat): nat {
    if n <= 0xFF then 1 else if n <= 0xFFFF then 2 else if n <= 0xFF_FFFF then 3 else 4
  }

  /** Sizes up to 0x80 stand for themselves; larger ones follow an octet that counts their octets. */
  function SizeOctets(n: nat): bytes {
    if n <= 0x80 then [Oct(n)] else [Oct(0x80 + Width(n))] + BigEndianOctets(n, Width(n))
  }

  method WriteSize(buffer: ByteVector, size: nat) returns (r: Result<()>)
    modifies buffer
    ensures size > MAX_SIZE ==> r == Err(RuntimeError) && buffer.octets == old(buffer.octets)
    ensures size <= MAX_SIZE ==> r == Ok(()) && buffer.octets == old(buffer.octets) + SizeOctets(size)
  {
    if size > MAX_SIZE { return Err(RuntimeError); }
    hide Oct, SizeOctets;
    ghost var before := buffer.octets;
    OctetsBySize(size);
    if size <= 0x80 {
      buffer.PushBack(Oct(size));
    } else if size <= 0xFF {
      buffer.PushBack(0x81);
      buffer.PushBack(Oct(size));
      Pushed(before, [0x81, Oct(size)]);
    } else if size <= 0xFFFF {
      buffer.PushBack(0x82);
      buffer.PushBack(Oct(size / 0x100));
      buffer.PushBack(Oct(size));
      Pushed(before, [0x82, Oct(size / 0x100), Oct(size)]);
    } else if size <= 0xFF_FFFF {
      buffer.PushBack(0x83);
      buffer.PushBack(Oct(size / 0x1_0000));
      buffer.PushBack(Oct(size / 0x100));
      buffer.PushBack(Oct(size));
      Pushed(before, [0x83, Oct(size / 0x1_0000), Oct(size / 0x100), Oct(size)]);
    } else {
      buffer.PushBack(0x84);
      buffer.PushBack(Oct(size / 0x100_0000));
      buffer.PushBack(Oct(size / 0x1_0000));
      buffer.PushBack(Oct(size / 0x100));
      buffer.PushBack(Oct(size));
      Pushed(before, [0x84, Oct(size / 0x100_0000), Oct(size / 0x1_0000), Oct(size / 0x100), Oct(size)]);
    }
    return Ok(());
  }

  /** Octets pushed one by one are appended. */
  lemma Pushed(before: bytes, s: bytes)
    requires 2 <= |s| <= 5
    ensures |s| == 2 ==> before + [s[0]] + [s[1]] == before + s
    ensures |s| == 3 ==> before + [s[0]] + [s[1]] + [s[2]] == before + s
    ensures |s| == 4 ==> before + [s[0]] + [s[1]] + [s[2]] + [s[3]] == before + s
    ensures |s| == 5 ==> before + [s[0]] + [s[1]] + [s[2]] + [s[3]] + [s[4]] == before + s
  {}

  lemma OctetsBySize(n: nat)
    ensures SizeOctets(n) ==
      if n <= 0x80 then [Oct(n)]
      else if n <= 0xFF then [0x81, Oct(n)]
      else if n <= 0xFFFF then [0x82, Oct(n / 0x100), Oct(n)]
      else if n <= 0xFF_FFFF then [0x83, Oct(n / 0x1_0000), Oct(n / 0x100), Oct(n)]
      else [0x84, Oct(n / 0x100_0000), Oct(n / 0x1_0000), Oct(n / 0x100), Oct(n)]
  {
    hide Oct, BigEndianOctets;
    LeadingOctets();
    FourOctets(n);
    ThreeOctets(n);
    TwoOctets(n);
    OneOctet(n);
  }

  lemma LeadingOctets()
    ensures Oct(0x81) == 0x81 && Oct(0x82) == 0x82 && Oct(0x83) == 0x83 && Oct(0x84) == 0x84
  {
    OctVal(0x81);
    OctVal(0x82);
    OctVal(0x83);
    OctVal(0x84);
    assert Val(0x81) == 0x81 && Val(0x82) == 0x82 && Val(0x83) == 0x83 && Val(0x84) == 0x84;
    hide Oct;
  }

  lemma OneOctet(n: nat)
    ensures BigEndianOctets(n, 1) == [Oct(n)]
  {
    hide Oct;
    assert BigEndianOctets(n / 256, 0) == [];
  }

  lemma TwoOctets(n: nat)
    ensures BigEndianOctets(n, 2) == [Oct(n / 0x100), Oct(n)]
  {
    hide Oct;
    OneOctet(n / 256);
  }

  lemma ThreeOctets(n: nat)
    ensures BigEndianOctets(n, 3) == [Oct(n / 0x1_0000), Oct(n / 0x100), Oct(n)]
  {
    assert n / 256 / 256 == n / 0x1_0000;
    hide Oct;
    TwoOctets(n / 256);
  }

  lemma FourOctets(n: nat)
    ensures BigEndianOctets(n, 4) == [Oct(n / 0x100_0000), Oct(n / 0x1_0000), Oct(n / 0x100), Oct(n)]
  {
    assert n / 256 / 256 == n / 0x1_0000 && n / 256 / 0x1_0000 == n / 0x100_0000;
    hide Oct;
    ThreeOctets(n / 256);
  }

  // ---------- reading it back ----------

  function Value(s: bytes): nat {
    if s == [] then 0 else Value(s[..|s| - 1]) * 256 + Val(s[|s| - 1])
  }

  /** The number of octets that follow the first, 0 for sizes that stand for themselves. */
  function Follow(first: nat): nat {
    if first <= 0x80 then 0 else first - 0x80
  }

  /** A size in front of anything: the size and what comes after it. */
  function ReadSize(s: bytes): Option<(nat, bytes)> {
    if s == [] then None
    else
      var first := Val(s[0]);
      var k := Follow(first);
      if k > 4 || |s| < 1 + k then None
      else Some((if k == 0 then first else Value(s[1..1 + k]), s[1 + k..]))
  }

  lemma {:induction false} ValueOfOctets(n: nat, k: nat)
    requires n < Power(k)
    ensures Value(BigEndianOctets(n, k)) == n
    decreases k
  {
    hide Oct, Val;
    if k != 0 {
      ValueOfOctets(n / 256, k - 1);
      ValOct(n);
      var s := BigEndianOctets(n, k);
      assert s[..|s| - 1] == BigEndianOctets(n / 256, k - 1);
    }
  }

  lemma WidthFits(n: nat)
    requires n <= MAX_SIZE
    ensures 1 <= Width(n) <= 4 && n < Power(Width(n))
    ensures Val(Oct(0x80 + Width(n))) == 0x80 + Width(n)
  {
    hide Val, Oct, Power;
    Powers();
    ValOct(0x80 + Width(n));
  }

  lemma Powers()
    ensures Power(1) == 256 && Power(2) == 0x1_0000 && Power(3) == 0x100_0000 && Power(4) == 0x1_0000_0000
  {}

  lemma Behind(first: byte, s: bytes, rest: bytes)
    ensures var t := [first] + s + rest; t[0] == first && t[1..1 + |s|] == s && t[1 + |s|..] == rest
  {}

  /** Every size is read back exactly, whatever follows it. */
  lemma SizeRoundTrip(n: nat, rest: bytes)
    requires n <= MAX_SIZE
    ensures ReadSize(SizeOctets(n) + rest) == Some((n, rest))
  {
    hide Oct, Val;
    var s := SizeOctets(n) + rest;
    ValOct(n);
    if n <= 0x80 {
      assert s[1..] == rest;
    } else {
      WidthFits(n);
      var k := Width(n);
      hide Value, BigEndianOctets, Width, Power;
      ValueOfOctets(n, k);
      Behind(Oct(0x80 + k), BigEndianOctets(n, k), rest);
    }
  }

  /** No encoding is a prefix of another. */
  lemma SizePrefixFree(n: nat, m: nat)
    requires n <= MAX_SIZE && m <= MAX_SIZE && SizeOctets(n) <= SizeOctets(m)
    ensures n == m
  {
    hide SizeOctets, ReadSize;
    var rest := SizeOctets(m)[|SizeOctets(n)|..];
    assert SizeOctets(m) == SizeOctets(n) + rest == SizeOctets(m) + [];
    SizeRoundTrip(n, rest);
    SizeRoundTrip(m, []);
  }

  lemma {:induction false} ValueBound(s: bytes)
    ensures Value(s) < Power(|s|)
  {
    hide Val;
    if s != [] {
      ValueBound(s[..|s| - 1]);
    }
  }

  /** No octet string that reads as `n` is shorter than the one written for `n`. */
  lemma SizeShortest(s: bytes, n: nat, rest: bytes)
    requires ReadSize(s) == Some((n, rest))
    ensures n <= MAX_SIZE && |SizeOctets(n)| <= |s| - |rest|
  {
    var k := Follow(Val(s[0]));
    Powers();
    hide Val, Oct;
    if k != 0 {
      ValueBound(s[1..1 + k]);
      hide Power, Value;
    }
  }

  // ---------- order ----------

  predicate Precedes(s: bytes, t: bytes) {
    && t != []
    && (s == [] || Val(s[0]) < Val(t[0]) || (s[0] == t[0] && Precedes(s[1..], t[1..])))
  }

  lemma {:induction false} PrecedesAppend(s: bytes, t: bytes, u: bytes, v: bytes)
    requires |s| == |t| && Precedes(s, t)
    ensures Precedes(s + u, t + v)
    decreases s
  {
    hide Val;
    assert (s + u)[0] == s[0] && (t + v)[0] == t[0];
    if !(Val(s[0]) < Val(t[0])) {
      assert (s + u)[1..] == s[1..] + u && (t + v)[1..] == t[1..] + v;
      PrecedesAppend(s[1..], t[1..], u, v);
    }
  }

  lemma {:induction false} PrecedesBehind(p: bytes, u: bytes, v: bytes)
    requires Precedes(u, v)
    ensures Precedes(p + u, p + v)
    decreases p
  {
    hide Val;
    if p == [] {
      assert p + u == u && p + v == v;
    } else {
      assert (p + u)[1..] == p[1..] + u && (p + v)[1..] == p[1..] + v;
      PrecedesBehind(p[1..], u, v);
    }
  }

  lemma {:induction false} OctetsPrecede(n: nat, m: nat, k: nat)
    requires n < m < Power(k)
    ensures Precedes(BigEndianOctets(n, k), BigEndianOctets(m, k))
    decreases k
  {
    hide Val, Oct;
    ValOct(n);
    ValOct(m);
    var p, q := n / 256, m / 256;
    if p < q {
      OctetsPrecede(p, q, k - 1);
      PrecedesAppend(BigEndianOctets(p, k - 1), BigEndianOctets(q, k - 1), [Oct(n)], [Oct(m)]);
    } else {
      assert Precedes([Oct(n)], [Oct(m)]);
      PrecedesBehind(BigEndianOctets(p, k - 1), [Oct(n)], [Oct(m)]);
    }
  }

  lemma {:induction false} PrecedesOneWay(s: bytes, t: bytes)
    requires Precedes(s, t)
    ensures !Precedes(t, s) && s != t
    decreases s
  {
    hide Val;
    if s != [] && !(Val(s[0]) < Val(t[0])) {
      PrecedesOneWay(s[1..], t[1..]);
    }
  }

  lemma SmallerPrecedes(n: nat, m: nat)
    requires n < m <= MAX_SIZE
    ensures Precedes(SizeOctets(n), SizeOctets(m))
  {
    hide Val, Oct, Power, BigEndianOctets, Precedes;
    WidthFits(n);
    WidthFits(m);
    if n <= 0x80 {
      ValOct(n);
      ValOct(m);
      FirstDecides(SizeOctets(n), SizeOctets(m));
    } else if Width(n) == Width(m) {
      OctetsPrecede(n, m, Width(n));
      PrecedesBehind([Oct(0x80 + Width(n))], BigEndianOctets(n, Width(n)), BigEndianOctets(m, Width(m)));
    } else {
      FirstDecides(SizeOctets(n), SizeOctets(m));
    }
  }

  lemma FirstDecides(s: bytes, t: bytes)
    requires s != [] && t != [] && Val(s[0]) < Val(t[0])
    ensures Precedes(s, t)
  {}

  /** The code preserves order: sizes compare as their encodings do, octet by octet. */
  lemma SizeOrder(n: nat, m: nat)
    requires n <= MAX_SIZE && m <= MAX_SIZE
    ensures n < m <==> Precedes(SizeOctets(n), SizeOctets(m))
  {
    hide SizeOctets, Precedes;
    if n < m {
      SmallerPrecedes(n, m);
    } else if m < n {
      SmallerPrecedes(m, n);
      PrecedesOneWay(SizeOctets(m), SizeOctets(n));
    } else if Precedes(SizeOctets(n), SizeOctets(m)) {
      PrecedesOneWay(SizeOctets(n), SizeOctets(m));
    }
  }

  // ---------- packed strings ----------

  const OCTET_STRING: byte := 9
  const STRING: byte := 10

  datatype Packed = Packed(tag: byte, value: bytes)

  predicate Packable(p: Packed) {
    p.tag in {0x09, 0x0A} && |p.value| <= MAX_SIZE
  }

  function Pack(p: Packed): bytes {
    [p.tag] + SizeOctets(|p.value|) + p.value
  }

  /** `from_string` and `from_bytes`: the two string types are packed, any other tag gives nothing. */
  method FromBytes(data: bytes, tag: byte) returns (r: Result<bytes>)
    ensures tag !in {0x09, 0x0A} ==> r == Ok([])
    ensures tag in {0x09, 0x0A} && |data| > 0xFFFF_FFFF ==> r == Err(RuntimeError)
    ensures tag in {0x09, 0x0A} && |data| <= 0xFFFF_FFFF ==>
      r == Ok([tag] + SizeOctets(|data|) + data) && UnpackAll(r.value) == Some([Packed(tag, data)])
  {
    hide SizeOctets, UnpackAll;
    if tag != OCTET_STRING && tag != STRING { return Ok([]); }
    var buffer := new ByteVector();
    buffer.PushBack(tag);
    var written := WriteSize(buffer, |data|);
    if written.Err? { return Err(RuntimeError); }
    buffer.Append(data);
    assert buffer.octets == Pack(Packed(tag, data));
    Unpacked(Packed(tag, data));
    return Ok(buffer.octets);
  }

  function PackAll(ps: seq<Packed>): bytes {
    if ps == [] then [] else Pack(ps[0]) + PackAll(ps[1..])
  }

  function UnpackAll(s: bytes): Option<seq<Packed>>
    decreases |s|
  {
    if s == [] then Some([])
    else
      match ReadSize(s[1..])
      case None => None
      case Some((n, rest)) =>
        if s[0] !in {0x09, 0x0A} || |rest| < n then None
        else
          match UnpackAll(rest[n..])
          case None => None
          case Some(ps) => Some([Packed(s[0], rest[..n])] + ps)
  }

  lemma UnpackOne(p: Packed, tail: bytes)
    requires Packable(p)
    ensures UnpackAll(Pack(p) + tail)
         == match UnpackAll(tail) case None => None case Some(ps) => Some([p] + ps)
  {
    hide ReadSize, SizeOctets;
    var s := Pack(p) + tail;
    var rest := p.value + tail;
    SizeRoundTrip(|p.value|, rest);
    assert s[1..] == SizeOctets(|p.value|) + rest;
    assert rest[|p.value|..] == tail && rest[..|p.value|] == p.value;
    assert s != [] && s[0] == p.tag;
    hide Pack;
  }

  lemma Unpacked(p: Packed)
    requires Packable(p)
    ensures UnpackAll(Pack(p)) == Some([p])
  {
    UnpackOne(p, []);
    hide Pack, Packable;
    assert Pack(p) + [] == Pack(p) && [p] + [] == [p];
    assert UnpackAll([]) == Some([]);
  }

  /** Any stream of packed strings decodes to exactly the strings packed. */
  lemma {:induction false} StreamRoundTrip(ps: seq<Packed>)
    requires forall p <- ps :: Packable(p)
    ensures UnpackAll(PackAll(ps)) == Some(ps)
  {
    if ps != [] {
      hide Pack, UnpackAll;
      StreamRoundTrip(ps[1..]);
      UnpackOne(ps[0], PackAll(ps[1..]));
      assert [ps[0]] + ps[1..] == ps;
    }
  }
}
