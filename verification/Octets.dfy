/** Octets, octet strings, and the conversions between octets and numbers that the code performs. */
module Octets {
  type byte = bv8
  type bytes = seq<byte>

  /** `static_cast<uint8_t>(n)` */
  function Oct(n: nat): byte {
    (n % 256) as bv8
  }

  function Val(b: byte): (n: nat)
    ensures n < 256
  {
    b as int
  }

  /** `static_cast<uint8_t>(w)` and `static_cast<uint8_t>(w >> 8)` */
  function Lo(w: bv16): byte {
    (w & 0xFF) as bv8
  }

  function Hi(w: bv16): byte {
    (w >> 8) as bv8
  }

  function Join(hi: byte, lo: byte): bv16 {
    (hi as bv16 << 8) | lo as bv16
  }

  lemma OctVal(b: byte)
    ensures Oct(Val(b)) == b
  {
    CastBack(b);
    assert Val(b) % 256 == Val(b);
  }

  lemma CastBack(b: byte)
    ensures Val(b) as bv8 == b
  {}

  lemma ValOct(n: nat)
    ensures Val(Oct(n)) == n % 256
  {
    var k := n % 256;
    assert Oct(n) == k as bv8;
    CastForth(k);
  }

  lemma CastForth(k: nat)
    requires k < 256
    ensures Val(k as bv8) == k
  {}

  lemma JoinSplit(w: bv16)
    ensures Join(Hi(w), Lo(w)) == w
  {}

  lemma JoinInjective(h: byte, l: byte, w: bv16)
    ensures Join(h, l) == w <==> h == Hi(w) && l == Lo(w)
  {
    SplitJoin(h, l);
    JoinSplit(w);
    hide *;
  }

  lemma SplitJoin(h: byte, l: byte)
    ensures Hi(Join(h, l)) == h && Lo(Join(h, l)) == l
  {}
}
