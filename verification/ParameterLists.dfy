/**
 * Parameter lists of any content: ids with values of any number of octets, the walk that is meant to
 * read them, and when the walk of the code, which does not skip values of four or more octets, keeps
 * in step with it.
 */
module ParameterLists {
  import opened Octets
  import opened HdlcFrame
  import opened Hdlc
  import Mirror

  datatype Parameter = Parameter(id: byte, value: bytes)

  /** The length of a value has one octet. */
  predicate Encodable(ps: seq<Parameter>) {
    forall p <- ps :: |p.value| <= 255
  }

  /** No value has four or more octets. */
  predicate AllShort(ps: seq<Parameter>) {
    forall p <- ps :: |p.value| < 4
  }

  function ParameterOctets(p: Parameter): bytes {
    [p.id, Oct(|p.value|)] + p.value
  }

  function ParameterList(ps: seq<Parameter>): bytes {
    if ps == [] then [] else ParameterOctets(ps[0]) + ParameterList(ps[1..])
  }

  function ItemsOf(ps: seq<Parameter>): (items: seq<Item>)
    ensures |items| == |ps|
  {
    if ps == [] then [] else [Item(ps[0].id, BigEndian(ps[0].value))] + ItemsOf(ps[1..])
  }

  lemma FirstOf(ps: seq<Parameter>)
    requires ps != []
    ensures Encodable(ps) ==> |ps[0].value| <= 255 && Encodable(ps[1..])
    ensures AllShort(ps) <==> |ps[0].value| < 4 && AllShort(ps[1..])
    ensures ItemsOf(ps) == [Item(ps[0].id, BigEndian(ps[0].value))] + ItemsOf(ps[1..])
  {
    hide BigEndian;
    assert ps == [ps[0]] + ps[1..];
  }

  // ---------- the walk meant ----------

  /** How many value octets an item has: its length, or what is left of the list. */
  function MeantOctets(len: byte, remaining: nat): (n: nat)
    ensures n <= remaining
  {
    if Val(len) <= remaining then Val(len) else remaining
  }

  /** The items of a list from an offset, values of any length taken from the list itself. */
  function MeantItems(list: bytes, offset: nat): seq<Item>
    decreases |list| - offset
  {
    if offset + 1 < |list| then
      var n := MeantOctets(list[offset + 1], |list| - offset - 2);
      [Item(list[offset], BigEndian(list[offset + 2..offset + 2 + n]))] + MeantItems(list, offset + 2 + n)
    else []
  }

  /** Where the items lie that the walk meant and the walk of the code read. */
  function MeantStops(list: bytes, offset: nat): seq<nat>
    decreases |list| - offset
  {
    if offset + 1 < |list| then
      [offset] + MeantStops(list, offset + 2 + MeantOctets(list[offset + 1], |list| - offset - 2))
    else []
  }

  function Stops(list: bytes, offset: nat): seq<nat>
    decreases |list| - offset
  {
    if offset + 1 < |list| then
      [offset] + Stops(list, offset + 2 + ValueOctets(list[offset + 1], |list| - offset - 2))
    else []
  }

  // ---------- the rest of a list ----------

  lemma Layout(s: bytes, id: byte, len: byte, value: bytes, tail: bytes)
    requires s == [id, len] + value + tail
    ensures var n := |value|;
      2 + n <= |s| && s[0] == id && s[1] == len && s[2..2 + n] == value && s[2 + n..] == tail
  {}

  lemma SliceOf(list: bytes, offset: nat, i: nat, j: nat)
    requires offset + i <= offset + j <= |list|
    ensures list[offset..][i..j] == list[offset + i..offset + j] && list[offset..][j..] == list[offset + j..]
  {}

  /** What stands at an offset from which the list says `ps`. */
  lemma FirstAt(list: bytes, offset: nat, ps: seq<Parameter>)
    requires offset <= |list| && list[offset..] == ParameterList(ps) && ps != [] && |ps[0].value| <= 255
    ensures
      var p, n := ps[0], |ps[0].value|;
      && offset + 2 + n <= |list|
      && list[offset] == p.id && Val(list[offset + 1]) == n && list[offset + 2..offset + 2 + n] == p.value
      && list[offset + 2 + n..] == ParameterList(ps[1..])
  {
    hide *;
    var p, n := ps[0], |ps[0].value|;
    ValOct(n);
    ListParts(ps);
    Layout(list[offset..], p.id, Oct(n), p.value, ParameterList(ps[1..]));
    SliceOf(list, offset, 2, 2 + n);
    assert list[offset..][0] == list[offset] && list[offset..][1] == list[offset + 1];
  }

  lemma ListParts(ps: seq<Parameter>)
    requires ps != []
    ensures ParameterList(ps) == [ps[0].id, Oct(|ps[0].value|)] + ps[0].value + ParameterList(ps[1..])
  {
    hide Oct;
  }

  lemma MeantStep(list: bytes, offset: nat, n: nat)
    requires offset + 2 + n <= |list| && Val(list[offset + 1]) == n
    ensures MeantItems(list, offset)
         == [Item(list[offset], BigEndian(list[offset + 2..offset + 2 + n]))] + MeantItems(list, offset + 2 + n)
  {
    hide BigEndian, Val;
  }

  lemma MeantStopsStep(list: bytes, offset: nat, n: nat)
    requires offset + 2 + n <= |list| && Val(list[offset + 1]) == n
    ensures MeantStops(list, offset) == [offset] + MeantStops(list, offset + 2 + n)
  {
    hide Val;
  }

  lemma StopsStep(list: bytes, offset: nat, k: nat)
    requires offset + 1 < |list| && k == ValueOctets(list[offset + 1], |list| - offset - 2)
    ensures Stops(list, offset) == [offset] + Stops(list, offset + 2 + k)
  {
    hide ValueOctets;
  }

  lemma CodeStep(list: bytes, raw: bytes, offset: nat, n: nat)
    requires |list| <= |raw| && offset + 1 < |list|
    requires n == ValueOctets(list[offset + 1], |list| - offset - 2)
    ensures Items(list, raw, offset)
         == [Item(list[offset], BigEndian(raw[offset + 2..offset + 2 + n]))] + Items(list, raw, offset + 2 + n)
  {
    hide BigEndian, ValueOctets;
  }

  lemma {:induction false} MeantFrom(list: bytes, offset: nat, ps: seq<Parameter>)
    requires offset <= |list| && list[offset..] == ParameterList(ps) && Encodable(ps)
    ensures MeantItems(list, offset) == ItemsOf(ps)
    decreases ps
  {
    hide *;
    if ps == [] {
      EndAt(list, offset, ps);
    } else {
      FirstOf(ps);
      FirstAt(list, offset, ps);
      MeantStep(list, offset, |ps[0].value|);
      MeantFrom(list, offset + 2 + |ps[0].value|, ps[1..]);
    }
  }

  /** The walk meant reads back every list exactly. */
  lemma MeantRoundTrip(ps: seq<Parameter>)
    requires Encodable(ps)
    ensures MeantItems(ParameterList(ps), 0) == ItemsOf(ps)
  {
    assert ParameterList(ps)[0..] == ParameterList(ps);
    MeantFrom(ParameterList(ps), 0, ps);
  }

  lemma SkippedOctets(len: byte, remaining: nat)
    ensures Val(len) < 4 && Val(len) <= remaining ==> ValueOctets(len, remaining) == Val(len)
    ensures 4 <= Val(len) ==> ValueOctets(len, remaining) == 0
  {}

  lemma {:induction false} ShortFrom(list: bytes, offset: nat, ps: seq<Parameter>)
    requires offset <= |list| && list[offset..] == ParameterList(ps) && Encodable(ps) && AllShort(ps)
    ensures Items(list, list, offset) == ItemsOf(ps)
    decreases ps
  {
    hide *;
    if ps == [] {
      EndAt(list, offset, ps);
    } else {
      FirstOf(ps);
      FirstAt(list, offset, ps);
      SkippedOctets(list[offset + 1], |list| - offset - 2);
      CodeStep(list, list, offset, |ps[0].value|);
      ShortFrom(list, offset + 2 + |ps[0].value|, ps[1..]);
    }
  }

  lemma {:induction false} StopsFrom(list: bytes, offset: nat, ps: seq<Parameter>)
    requires offset <= |list| && list[offset..] == ParameterList(ps) && Encodable(ps)
    ensures Stops(list, offset) == MeantStops(list, offset) <==> AllShort(ps)
    decreases ps
  {
    hide *;
    if ps == [] {
      EndAt(list, offset, ps);
    } else {
      FirstOf(ps);
      FirstAt(list, offset, ps);
      var n := |ps[0].value|;
      SkippedOctets(list[offset + 1], |list| - offset - 2);
      MeantStopsStep(list, offset, n);
      if n < 4 {
        StopsStep(list, offset, n);
        StopsFrom(list, offset + 2 + n, ps[1..]);
        SameBehind([offset], Stops(list, offset + 2 + n), MeantStops(list, offset + 2 + n));
      } else {
        StopsStep(list, offset, 0);
        StopsApart(list, offset + 2, offset + 2 + n);
        SameBehind([offset], Stops(list, offset + 2), MeantStops(list, offset + 2 + n));
      }
    }
  }

  lemma EndAt(list: bytes, offset: nat, ps: seq<Parameter>)
    requires offset <= |list| && list[offset..] == ParameterList(ps) && ps == []
    ensures Items(list, list, offset) == MeantItems(list, offset) == ItemsOf(ps)
    ensures Stops(list, offset) == MeantStops(list, offset) && AllShort(ps)
  {
    hide BigEndian, Val, ValueOctets, MeantOctets;
    assert |list| == offset;
  }

  lemma SameBehind(a: seq<nat>, b: seq<nat>, c: seq<nat>)
    ensures a + b == a + c <==> b == c
  {
    assert (a + b)[|a|..] == b && (a + c)[|a|..] == c;
  }

  lemma StopsApart(list: bytes, i: nat, j: nat)
    requires i + 1 < |list| && i != j
    ensures Stops(list, i) != MeantStops(list, j)
  {
    assert Stops(list, i)[0] == i;
    assert MeantStops(list, j) != [] ==> MeantStops(list, j)[0] == j;
  }

  /**
   * The code reads the items of a list where they lie iff no value has four or more octets; then it
   * reads exactly the items of the list.
   */
  lemma InStepIff(ps: seq<Parameter>)
    requires Encodable(ps)
    ensures var list := ParameterList(ps);
      && (Stops(list, 0) == MeantStops(list, 0) <==> AllShort(ps))
      && (AllShort(ps) ==> Items(list, list, 0) == ItemsOf(ps) == MeantItems(list, 0))
  {
    hide Stops, MeantStops, Items, MeantItems;
    assert ParameterList(ps)[0..] == ParameterList(ps);
    StopsFrom(ParameterList(ps), 0, ps);
    MeantRoundTrip(ps);
    if AllShort(ps) {
      ShortFrom(ParameterList(ps), 0, ps);
    }
  }

  /** Behind a last value of four or more octets the code finds items that are not there. */
  lemma {:induction false} LastLong(list: bytes, offset: nat, ps: seq<Parameter>)
    requires offset <= |list| && list[offset..] == ParameterList(ps) && Encodable(ps)
    requires ps != [] && AllShort(ps[..|ps| - 1]) && 4 <= |ps[|ps| - 1].value|
    ensures |Items(list, list, offset)| > |ps|
    decreases ps
  {
    hide *;
    FirstOf(ps);
    FirstAt(list, offset, ps);
    var n, last := |ps[0].value|, |ps| - 1;
    SkippedOctets(list[offset + 1], |list| - offset - 2);
    if last == 0 {
      CodeStep(list, list, offset, 0);
      MoreItems(list, offset + 2);
    } else {
      assert ps[..last] != [] && ps[..last][1..] == ps[1..][..last - 1] && ps[1..][last - 1] == ps[last];
      FirstOf(ps[..last]);
      CodeStep(list, list, offset, n);
      LastLong(list, offset + 2 + n, ps[1..]);
    }
  }

  lemma MoreItems(list: bytes, offset: nat)
    requires offset + 1 < |list|
    ensures Items(list, list, offset) != []
  {}

  lemma {:induction false} FirstLong(ps: seq<Parameter>) returns (k: nat)
    requires !AllShort(ps)
    ensures k < |ps| && AllShort(ps[..k]) && 4 <= |ps[k].value|
    decreases ps
  {
    FirstOf(ps);
    if 4 <= |ps[0].value| {
      k := 0;
    } else {
      var j := FirstLong(ps[1..]);
      k := j + 1;
      assert ps[..k][1..] == ps[1..][..j];
      FirstOf(ps[..k]);
    }
  }

  predicate ReadsAll(ps: seq<Parameter>) {
    Items(ParameterList(ps), ParameterList(ps), 0) == ItemsOf(ps)
  }

  /** The code reads exactly the items of a list and of all its beginnings iff no value has four or more octets. */
  lemma PrefixesIff(ps: seq<Parameter>)
    requires Encodable(ps)
    ensures (forall k :: 0 <= k <= |ps| ==> ReadsAll(ps[..k])) <==> AllShort(ps)
  {
    if AllShort(ps) {
      forall k | 0 <= k <= |ps|
        ensures ReadsAll(ps[..k])
      {
        InStepIff(ps[..k]);
      }
    } else {
      var k := FirstLong(ps);
      var qs := ps[..k + 1];
      assert qs[..k] == ps[..k];
      assert ParameterList(qs)[0..] == ParameterList(qs);
      LastLong(ParameterList(qs), 0, qs);
      assert !ReadsAll(qs);
    }
    hide AllShort, ReadsAll;
  }

  lemma ZeroValues(s: bytes)
    requires |s| <= 3 && forall i :: 0 <= i < |s| ==> s[i] == 0
    ensures BigEndian(s) == 0
  {
    GrowZero();
    hide Grow;
    assert |s| == 2 ==> s[..1][..0] == [];
    assert |s| == 3 ==> s[..2][..1][..0] == [];
  }

  lemma GrowZero()
    ensures Grow(0, 0) == 0
  {}

  /** The low thirty-two bits of a value of six octets. */
  lemma OverflowedValue()
    ensures BigEndian([2, 3, 0, 0, 0, 0]) == 0
  {
    assert Grow(Grow(0, 2), 3) == 0x203 && Grow(0x203, 0) == 0x2_0300 && Grow(0x2_0300, 0) == 0x203_0000
        && Grow(0x203_0000, 0) == 0x300_0000 && Grow(0x300_0000, 0) == 0;
    hide Grow, BigEndian;
    var s2: bytes, s3: bytes, s4: bytes, s5: bytes := [2, 3], [2, 3, 0], [2, 3, 0, 0], [2, 3, 0, 0, 0];
    Mirror.BigEndianTwo(s2);
    BigEndianAppend(s2, 0);
    BigEndianAppend(s3, 0);
    BigEndianAppend(s4, 0);
    BigEndianAppend(s5, 0);
    assert s2 + [0] == s3 && s3 + [0] == s4 && s4 + [0] == s5 && s5 + [0] == [2, 3, 0, 0, 0, 0];
  }

  const OUT_OF_STEP: seq<Parameter> := [Parameter(5, [2, 3, 0, 0, 0, 0]), Parameter(2, []), Parameter(0, [])]

  lemma OutOfStepOctets()
    ensures ParameterList(OUT_OF_STEP) == [5, 6, 2, 3, 0, 0, 0, 0, 2, 0, 0, 0]
    ensures ItemsOf(OUT_OF_STEP) == [Item(5, 0), Item(2, 0), Item(0, 0)]
    ensures Encodable(OUT_OF_STEP) && !AllShort(OUT_OF_STEP)
  {
    OverflowedValue();
    ZeroValues([]);
    OctVal(6);
    OctVal(0);
    assert Val(6) == 6 && Val(0) == 0;
    hide BigEndian, Oct, Val;
    var ps := OUT_OF_STEP;
    assert ps[1..] == [Parameter(2, []), Parameter(0, [])];
    assert ps[1..][1..] == [Parameter(0, [])] && ps[1..][1..][1..] == [];
    assert ParameterList(ps[1..][1..]) == [0, 0] && ItemsOf(ps[1..][1..]) == [Item(0, 0)];
    assert ParameterList(ps[1..]) == [2, 0, 0, 0] && ItemsOf(ps[1..]) == [Item(2, 0), Item(0, 0)];
    assert ps[0] in ps;
  }

  /** Out of step, the code may still come to the same items: its walk over this list falls in with it again. */
  lemma OutOfStepAlike()
    ensures var list := ParameterList(OUT_OF_STEP);
      && Items(list, list, 0) == ItemsOf(OUT_OF_STEP)
      && Stops(list, 0) != MeantStops(list, 0)
  {
    hide *;
    OutOfStepOctets();
    var list := ParameterList(OUT_OF_STEP);
    InStepIff(OUT_OF_STEP);
    assert ValueOctets(6, 10) == 0 && ValueOctets(3, 8) == 3 && ValueOctets(2, 3) == 2 by { SomeOctets(); }
    CodeStep(list, list, 0, 0);
    CodeStep(list, list, 2, 3);
    CodeStep(list, list, 7, 2);
    CodeEnd(list, 11);
    ZeroValues(list[2..2]);
    ZeroValues(list[4..7]);
    ZeroValues(list[9..11]);
    assert [Item(5, 0)] + ([Item(2, 0)] + ([Item(0, 0)] + [])) == [Item(5, 0), Item(2, 0), Item(0, 0)];
  }

  lemma SomeOctets()
    ensures ValueOctets(6, 10) == 0 && ValueOctets(3, 8) == 3 && ValueOctets(2, 3) == 2
  {}

  lemma CodeEnd(list: bytes, offset: nat)
    requires |list| <= offset + 1
    ensures Items(list, list, offset) == []
  {}
}
