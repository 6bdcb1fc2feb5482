/**
 * Where the walk of the code falls in with a list: it starts on the group header, so it takes the
 * first id of the list for a length, and what it finds from there on depends on the first parameter.
 */
module InStep {
  import opened Octets
  import opened Results
  import opened HdlcFrame
  import opened Hdlc
  import opened ParameterLists
  import opened Negotiation

  // ---------- parameters that are read where they lie ----------

  /** The items of parameters, with the values fetched from another string at the same offsets. */
  function RawItems(ps: seq<Parameter>, raw: bytes, offset: nat): seq<Item>
    requires offset + |ParameterList(ps)| <= |raw|
    decreases ps
  {
    if ps == [] then []
    else
      ListParts(ps);
      var n := |ps[0].value|;
      [Item(ps[0].id, BigEndian(raw[offset + 2..offset + 2 + n]))] + RawItems(ps[1..], raw, offset + 2 + n)
  }

  lemma RawFirst(ps: seq<Parameter>, raw: bytes, offset: nat)
    requires ps != [] && offset + |ParameterList(ps)| <= |raw|
    ensures
      var n := |ps[0].value|;
      && |ParameterList(ps)| == 2 + n + |ParameterList(ps[1..])|
      && RawItems(ps, raw, offset)
         == [Item(ps[0].id, BigEndian(raw[offset + 2..offset + 2 + n]))] + RawItems(ps[1..], raw, offset + 2 + n)
  {
    ListParts(ps);
    hide BigEndian, ParameterList;
  }

  /** Short parameters, whatever follows them. */
  lemma {:induction false} RawFrom(list: bytes, raw: bytes, offset: nat, ps: seq<Parameter>, tail: seq<Parameter>)
    requires |list| <= |raw| && offset <= |list| && list[offset..] == ParameterList(ps + tail)
    requires Encodable(ps) && AllShort(ps)
    ensures
      var end := offset + |ParameterList(ps)|;
      && end <= |list| && list[end..] == ParameterList(tail)
      && Items(list, raw, offset) == RawItems(ps, raw, offset) + Items(list, raw, end)
    decreases ps
  {
    hide *;
    if ps == [] {
      RawNone(list, raw, offset, tail);
    } else {
      var n := |ps[0].value|;
      assert (ps + tail)[0] == ps[0] && (ps + tail)[1..] == ps[1..] + tail;
      FirstOf(ps);
      FirstAt(list, offset, ps + tail);
      SkippedOctets(list[offset + 1], |list| - offset - 2);
      CodeStep(list, raw, offset, n);
      RawFrom(list, raw, offset + 2 + n, ps[1..], tail);
      ListParts(ps);
      RawFirst(ps, raw, offset);
    }
  }

  lemma RawNone(list: bytes, raw: bytes, offset: nat, tail: seq<Parameter>)
    requires |list| <= |raw| && offset <= |list| && list[offset..] == ParameterList([] + tail)
    ensures |ParameterList([])| == 0 && list[offset..] == ParameterList(tail)
    ensures Items(list, raw, offset) == RawItems([], raw, offset) + Items(list, raw, offset)
  {
    hide Items;
    assert [] + tail == tail;
  }

  // ---------- the first parameter, out of step ----------

  /** How many octets the walk skips for a length, where there are as many. */
  function Skip(len: byte): nat {
    if len in {1, 2, 3} then Val(len) else 0
  }

  /** The walk from the start of `s` comes to its end. */
  predicate Falls(s: bytes) {
    s == [] || (2 <= |s| && 2 + Skip(s[1]) <= |s| && Falls(s[2 + Skip(s[1])..]))
  }

  /** The items it finds on the way. */
  function StrayItems(s: bytes, raw: bytes, offset: nat): seq<Item>
    requires Falls(s) && offset + |s| <= |raw|
    decreases |s|
  {
    if s == [] then []
    else
      var k := Skip(s[1]);
      [Item(s[0], BigEndian(raw[offset + 2..offset + 2 + k]))] + StrayItems(s[2 + k..], raw, offset + 2 + k)
  }

  lemma SkipOctets(len: byte, remaining: nat)
    ensures Skip(len) <= 3
    ensures ValueOctets(len, remaining) == if Skip(len) <= remaining then Skip(len) else remaining
  {}

  lemma {:induction false} StrayFrom(list: bytes, raw: bytes, offset: nat, s: bytes)
    requires offset + |s| <= |list| <= |raw| && list[offset..offset + |s|] == s && Falls(s)
    ensures Items(list, raw, offset) == StrayItems(s, raw, offset) + Items(list, raw, offset + |s|)
    decreases |s|
  {
    hide *;
    if s == [] {
      NoStrays(raw, offset);
      assert [] + Items(list, raw, offset) == Items(list, raw, offset);
    } else {
      StrayParts(s, raw, offset);
      var k := Skip(s[1]);
      PartOf(list, offset, s, 2 + k);
      SkipOctets(s[1], |list| - offset - 2);
      CodeStep(list, raw, offset, k);
      StrayFrom(list, raw, offset + 2 + k, s[2 + k..]);
      JoinThree([Item(s[0], BigEndian(raw[offset + 2..offset + 2 + k]))],
                StrayItems(s[2 + k..], raw, offset + 2 + k), Items(list, raw, offset + |s|));
    }
  }

  /** The rest of a stretch of a list, and its first two octets. */
  lemma PartOf(list: bytes, offset: nat, s: bytes, j: nat)
    requires offset + |s| <= |list| && list[offset..offset + |s|] == s && 2 <= j <= |s|
    ensures list[offset] == s[0] && list[offset + 1] == s[1]
    ensures list[offset + j..offset + |s|] == s[j..] && offset + j + |s[j..]| == offset + |s|
  {
    assert s[0] == list[offset..offset + |s|][0] && s[1] == list[offset..offset + |s|][1];
    forall i | 0 <= i < |s| - j
      ensures list[offset + j..offset + |s|][i] == s[j..][i]
    {
      assert s[j + i] == list[offset..offset + |s|][j + i];
    }
  }

  lemma JoinThree(a: seq<Item>, b: seq<Item>, c: seq<Item>)
    ensures a + (b + c) == (a + b) + c
  {}

  lemma NoStrays(raw: bytes, offset: nat)
    requires offset <= |raw|
    ensures Falls([]) && StrayItems([], raw, offset) == []
  {}

  lemma StrayParts(s: bytes, raw: bytes, offset: nat)
    requires s != [] && Falls(s) && offset + |s| <= |raw|
    ensures 2 <= |s| && 2 + Skip(s[1]) <= |s| && Falls(s[2 + Skip(s[1])..])
    ensures
      var k := Skip(s[1]);
      StrayItems(s, raw, offset)
      == [Item(s[0], BigEndian(raw[offset + 2..offset + 2 + k]))] + StrayItems(s[2 + k..], raw, offset + 2 + k)
  {
    hide BigEndian, Skip;
  }

  /** What stands behind the first id of a list, up to the end of its first parameter. */
  function BehindId(p: Parameter): bytes {
    [Oct(|p.value|)] + p.value
  }

  /** The walk, having taken the first id for a length, comes to the end of the first parameter. */
  predicate FallsIn(p: Parameter) {
    Skip(p.id) <= |BehindId(p)| && Falls(BehindId(p)[Skip(p.id)..])
  }

  lemma {:induction false} FallsFew(s: bytes)
    requires 1 <= |s| <= 3
    ensures Falls(s) <==> 2 <= |s| && Skip(s[1]) == |s| - 2
  {
    hide Skip;
    if 2 <= |s| && Skip(s[1]) <= |s| - 2 {
      var rest := s[2 + Skip(s[1])..];
      assert |rest| == 1 ==> !Falls(rest);
    }
  }

  /**
   * With an id other than 1, 2 and 3: a value of one octet must not be a length that the code skips by,
   * and a value of two octets must open with 1.
   */
  lemma FallsInShort(p: Parameter)
    requires p.id !in {1, 2, 3}
    ensures |p.value| == 1 ==> (FallsIn(p) <==> p.value[0] !in {1, 2, 3})
    ensures |p.value| == 2 ==> (FallsIn(p) <==> p.value[0] == 1)
  {
    SkipValues();
    hide Skip, Falls, Oct;
    var s := BehindId(p);
    assert s[0..] == s;
    if 1 <= |p.value| <= 2 {
      FallsFew(s);
      assert s[1] == p.value[0];
    }
  }

  lemma SkipValues()
    ensures forall b: byte :: b !in {1, 2, 3} <==> Skip(b) == 0
    ensures forall b: byte :: b == 1 <==> Skip(b) == 1
  {}

  /** So does any value that is as long as its first octet makes the code skip; only its length is taken for an id. */
  lemma FallsInBySkip(p: Parameter, raw: bytes)
    requires p.id !in {1, 2, 3} && p.value != [] && |p.value| == 1 + Skip(p.value[0])
    ensures Skip(p.id) == 0 && FallsIn(p)
    ensures 5 + |p.value| <= |raw| ==>
      StrayItems(BehindId(p), raw, 4) == [Item(Oct(|p.value|), BigEndian(raw[6..5 + |p.value|]))]
  {
    hide BigEndian, Oct, Skip;
    SkipValues();
    var s := BehindId(p);
    assert s[0..] == s && s[1] == p.value[0] && s[2 + Skip(s[1])..] == [];
    assert Falls([]);
    if 5 + |p.value| <= |raw| {
      assert StrayItems([], raw, 5 + |p.value|) == [];
    }
  }

  // ---------- the whole walk ----------

  /** The items of a list that begins with `ps`, from the parameters and the octets of the frame alone. */
  function ReadItems(ps: seq<Parameter>, size: nat, raw: bytes): seq<Item>
    requires ps != [] && FallsIn(ps[0]) && 3 + |ParameterList(ps)| <= |raw|
  {
    ListParts(ps);
    var k := Skip(ps[0].id);
    [Item(0x80, 0), Item(Oct(size), BigEndian(raw[4..4 + k]))]
    + StrayItems(BehindId(ps[0])[k..], raw, 4 + k)
    + RawItems(ps[1..], raw, 5 + |ps[0].value|)
  }

  /** What stands where in an announced list. */
  lemma Announced(ps: seq<Parameter>)
    requires ps != []
    ensures
      var list, n := Announce(ps), |ps[0].value|;
      && 5 + n <= |list|
      && list[0] == 0x80 && list[1] == 0x81 && list[2] == Oct(|ParameterList(ps)|) && list[3] == ps[0].id
      && list[4..5 + n] == BehindId(ps[0])
      && list[5 + n..] == ParameterList(ps[1..])
  {
    hide Oct, ParameterList;
    ListParts(ps);
    var n, p := |ps[0].value|, ps[0];
    assert Announce(ps) == [0x80, 0x81, Oct(|ParameterList(ps)|), p.id] + BehindId(p) + ParameterList(ps[1..]);
  }

  lemma TwoThen(a: Item, b: Item, rest: seq<Item>)
    ensures [a] + ([b] + rest) == [a, b] + rest
  {}

  lemma HeaderItems(list: bytes, raw: bytes, k: nat)
    requires 4 + k <= |list| <= |raw| && list[0] == 0x80 && list[1] == 0x81 && k == Skip(list[3])
    ensures Items(list, raw, 0) == [Item(0x80, 0), Item(list[2], BigEndian(raw[4..4 + k]))] + Items(list, raw, 4 + k)
  {
    hide *;
    NoSkip(0x81, |list| - 2);
    SkipOctets(list[3], |list| - 4);
    EmptyValue(raw, 2);
    CodeStep(list, raw, 0, 0);
    CodeStep(list, raw, 2, k);
    TwoThen(Item(0x80, 0), Item(list[2], BigEndian(raw[4..4 + k])), Items(list, raw, 4 + k));
  }

  /**
   * If the walk falls in behind the first parameter and the parameters after it are short, it reads them
   * where they lie, with values from the frame, and goes on at what follows.
   */
  lemma WalkFallsIn(ps: seq<Parameter>, tail: seq<Parameter>, raw: bytes)
    requires ps != [] && Encodable(ps) && FallsIn(ps[0]) && AllShort(ps[1..])
    requires |Announce(ps + tail)| <= |raw|
    ensures
      var list, end := Announce(ps + tail), 3 + |ParameterList(ps)|;
      && end <= |list| && list[end..] == ParameterList(tail)
      && Items(list, raw, 0) == ReadItems(ps, |ParameterList(ps + tail)|, raw) + Items(list, raw, end)
  {
    hide *;
    FallsInParts(ps[0]);
    var list, n, k := Announce(ps + tail), |ps[0].value|, Skip(ps[0].id);
    var s := BehindId(ps[0])[k..];
    assert (ps + tail)[0] == ps[0] && (ps + tail)[1..] == ps[1..] + tail;
    Announced(ps + tail);
    ListParts(ps);
    FirstOf(ps);
    assert list[4 + k..5 + n] == list[4..5 + n][k..];
    HeaderItems(list, raw, k);
    StrayFrom(list, raw, 4 + k, s);
    RawFrom(list, raw, 5 + n, ps[1..], tail);
    ReadItemsAre(ps, |ParameterList(ps + tail)|, raw);
  }

  lemma FallsInParts(p: Parameter)
    ensures |BehindId(p)| == 1 + |p.value|
    ensures FallsIn(p) <==> Skip(p.id) <= 1 + |p.value| && Falls(BehindId(p)[Skip(p.id)..])
  {
    hide Oct, Skip, Falls;
  }

  lemma ReadItemsAre(ps: seq<Parameter>, size: nat, raw: bytes)
    requires ps != [] && FallsIn(ps[0]) && 3 + |ParameterList(ps)| <= |raw|
    ensures
      var k, n := Skip(ps[0].id), |ps[0].value|;
      && k <= 1 + n && Falls(BehindId(ps[0])[k..]) && 5 + n + |ParameterList(ps[1..])| <= |raw|
      && ReadItems(ps, size, raw)
         == [Item(0x80, 0), Item(Oct(size), BigEndian(raw[4..4 + k]))]
          + StrayItems(BehindId(ps[0])[k..], raw, 4 + k)
          + RawItems(ps[1..], raw, 5 + n)
  {
    ListParts(ps);
    FallsInParts(ps[0]);
    hide BigEndian, Oct, Skip, Falls, StrayItems, RawItems, ParameterList;
  }

  // ---------- exactly which lists the walk falls in with ----------

  lemma {:induction false} StopsRise(list: bytes, offset: nat)
    ensures forall i :: 0 <= i < |Stops(list, offset)| ==> offset <= Stops(list, offset)[i]
    ensures forall i :: 0 < i < |Stops(list, offset)| ==> offset < Stops(list, offset)[i]
    decreases |list| - offset
  {
    hide ValueOctets;
    if offset + 1 < |list| {
      StopsRise(list, offset + 2 + ValueOctets(list[offset + 1], |list| - offset - 2));
    }
  }

  /** Out of step, the walk comes to the end of `s` iff it falls there. */
  lemma {:induction false} StopsFall(list: bytes, offset: nat, s: bytes) returns (inner: seq<nat>)
    requires offset + |s| + 1 < |list| && list[offset..offset + |s|] == s
    ensures offset + |s| in Stops(list, offset) <==> Falls(s)
    ensures Falls(s) ==>
      Stops(list, offset) == inner + Stops(list, offset + |s|) && forall i <- inner :: i < offset + |s|
    decreases |s|
  {
    hide ValueOctets, Skip, Stops;
    inner := [];
    if s == [] {
      StopsStarts(list, offset);
      assert [] + Stops(list, offset) == Stops(list, offset);
    } else {
      var n := ValueOctets(list[offset + 1], |list| - offset - 2);
      var k := if 2 <= |s| then Skip(s[1]) else 0;
      if 2 <= |s| {
        PartOf(list, offset, s, 2);
      }
      StopsStep(list, offset, n);
      SkipOctets(list[offset + 1], |list| - offset - 2);
      if 2 + k <= |s| {
        PartOf(list, offset, s, 2 + k);
        var rest := StopsFall(list, offset + 2 + k, s[2 + k..]);
        inner := [offset] + rest;
        assert [offset] + (rest + Stops(list, offset + |s|)) == inner + Stops(list, offset + |s|);
      } else {
        StopsRise(list, offset + 2 + n);
      }
    }
  }

  lemma StopsStarts(list: bytes, offset: nat)
    requires offset + 1 < |list|
    ensures Stops(list, offset) != [] && Stops(list, offset)[0] == offset
    ensures MeantStops(list, offset) != [] && MeantStops(list, offset)[0] == offset
  {
    hide ValueOctets, MeantOctets;
  }

  ghost predicate Suffix(a: seq<nat>, b: seq<nat>) {
    |a| <= |b| && b[|b| - |a|..] == a
  }

  lemma HeaderStops(list: bytes, k: nat)
    requires 4 + k <= |list| && list[1] == 0x81 && k == Skip(list[3])
    ensures Stops(list, 0) == [0, 2] + Stops(list, 4 + k)
  {
    NoSkip(0x81, |list| - 2);
    SkipOctets(list[3], |list| - 4);
    hide *;
    StopsStep(list, 0, 0);
    StopsStep(list, 2, k);
    assert [0] + ([2] + Stops(list, 4 + k)) == [0, 2] + Stops(list, 4 + k);
  }

  /** The stops of the walk over a list of at least two parameters: it comes to the second one iff it falls in. */
  lemma StopsOfList(ps: seq<Parameter>) returns (inner: seq<nat>)
    requires 2 <= |ps|
    ensures
      var list, end := Announce(ps), 5 + |ps[0].value|;
      && end + 1 < |list|
      && (end in Stops(list, 0) <==> FallsIn(ps[0]))
      && (FallsIn(ps[0]) ==> Stops(list, 0) == inner + Stops(list, end) && forall i <- inner :: i < end)
  {
    hide *;
    var list, n, k := Announce(ps), |ps[0].value|, Skip(ps[0].id);
    Announced(ps);
    ListParts(ps[1..]);
    FallsInParts(ps[0]);
    SkipOctets(ps[0].id, 0);
    HeaderStops(list, k);
    if k <= 1 + n {
      assert list[4 + k..5 + n] == list[4..5 + n][k..];
      var rest := StopsFall(list, 4 + k, BehindId(ps[0])[k..]);
      inner := [0, 2] + rest;
      assert [0, 2] + (rest + Stops(list, 5 + n)) == inner + Stops(list, 5 + n);
    } else {
      StopsRise(list, 4 + k);
      inner := [];
    }
  }

  lemma SuffixAt(inner: seq<nat>, a: seq<nat>, b: seq<nat>, end: nat)
    requires b != [] && b[0] == end && a != [] && a[0] == end
    requires (forall i <- inner :: i < end) && forall i :: 0 < i < |b| ==> end < b[i]
    ensures Suffix(a, inner + b) <==> a == b
  {
    var c := inner + b;
    if Suffix(a, c) {
      var i := |c| - |a|;
      assert c[i..][0] == end;
      assert forall j :: 0 <= j < |inner| ==> inner[j] in inner && c[j] == inner[j];
      assert forall j :: |inner| < j < |c| ==> c[j] == b[j - |inner|] && end < c[j];
      assert i == |inner|;
      assert c[i..] == b;
    }
    if a == b {
      assert c[|c| - |a|..] == b;
    }
  }

  /**
   * From the second parameter on the code reads the items where they lie iff the walk falls in behind the
   * first parameter and no later value has four or more octets.
   */
  lemma InStepFromSecondIff(ps: seq<Parameter>)
    requires 2 <= |ps| && Encodable(ps)
    ensures
      var list, second := Announce(ps), 5 + |ps[0].value|;
      Suffix(MeantStops(list, second), Stops(list, 0)) <==> FallsIn(ps[0]) && AllShort(ps[1..])
  {
    hide *;
    var list, end := Announce(ps), 5 + |ps[0].value|;
    var inner := StopsOfList(ps);
    Announced(ps);
    FirstOf(ps);
    StopsStarts(list, end);
    StopsRise(list, end);
    StopsFrom(list, end, ps[1..]);
    if FallsIn(ps[0]) {
      SuffixAt(inner, MeantStops(list, end), Stops(list, end), end);
    } else {
      SuffixHolds(MeantStops(list, end), Stops(list, 0));
    }
  }

  lemma SuffixHolds(a: seq<nat>, b: seq<nat>)
    requires a != []
    ensures Suffix(a, b) ==> a[0] in b
  {}

  // ---------- what is heard of a list the walk falls in with ----------

  /** Later items decide before earlier ones. */
  function Over(a: Hearing, b: Hearing): Hearing {
    Hearing(if b.tx == None then a.tx else b.tx, if b.rx == None then a.rx else b.rx)
  }

  lemma {:induction false} HearBoth(a: seq<Item>, b: seq<Item>)
    ensures Hear(a + b) == Over(Hear(a), Hear(b))
    decreases b
  {
    if b == [] {
      assert a + b == a;
    } else {
      var n := |b| - 1;
      HearBoth(a, b[..n]);
      LastOf(a + b[..n], b[n]);
      LastOf(b[..n], b[n]);
      assert a + b == (a + b[..n]) + [b[n]] && b == b[..n] + [b[n]];
      hide LastValue;
    }
  }

  /** The window parameters, four octets each. */
  function Windows(t: byte, u: byte): seq<Parameter> {
    [Parameter(7, [0, 0, 0, t]), Parameter(8, [0, 0, 0, u])]
  }

  lemma WindowOctets(t: byte, u: byte)
    ensures ParameterList(Windows(t, u)) == [7, 4, 0, 0, 0, t, 8, 4, 0, 0, 0, u]
    ensures Encodable(Windows(t, u))
  {
    OctVal(4);
    assert Val(4) == 4;
    hide Oct, Val;
    var ps := Windows(t, u);
    assert ps[1..][1..] == [];
    assert ParameterList(ps[1..]) == [8, 4, 0, 0, 0, u];
  }

  lemma WindowSkips(t: byte)
    ensures forall k: nat :: ValueOctets(4, k) == 0 && ValueOctets(0, k) == 0
    ensures forall k: nat :: 3 <= k ==> ValueOctets(t, k) == Skip(t)
    ensures ValueOctets(t, 0) == 0 && Skip(t) <= 3
  {}

  /** At the end of a list the window parameters go unheard, though the walk falls out of step in them. */
  lemma WindowsUnheard(list: bytes, raw: bytes, offset: nat, t: byte, u: byte)
    requires offset <= |list| <= |raw| && list[offset..] == ParameterList(Windows(t, u))
    ensures HearFrom(list, raw, offset) == NOTHING
  {
    hide *;
    WindowOctets(t, u);
    var s: bytes := [7, 4, 0, 0, 0, t, 8, 4, 0, 0, 0, u];
    assert |list| == offset + 12;
    assert forall i :: 0 <= i < 12 ==> list[offset + i] == list[offset..][i] == s[i];
    WindowSkips(t);
    WindowSkips(u);
    HearPast(list, raw, offset, 0);
    HearPast(list, raw, offset + 2, 0);
    HearPast(list, raw, offset + 4, Skip(t));
    if Skip(t) == 0 {
      HearPast(list, raw, offset + 6, 0);
      HearPast(list, raw, offset + 8, 0);
      HearPast(list, raw, offset + 10, 0);
      HearEnd(list, raw, offset + 12);
    } else if Skip(t) == 1 {
      HearPast(list, raw, offset + 7, 0);
      HearPast(list, raw, offset + 9, 0);
      HearEnd(list, raw, offset + 11);
    } else if Skip(t) == 2 {
      HearPast(list, raw, offset + 8, 0);
      HearPast(list, raw, offset + 10, 0);
      HearEnd(list, raw, offset + 12);
    } else {
      HearPast(list, raw, offset + 9, 0);
      HearEnd(list, raw, offset + 11);
    }
  }

  /** A list may end with the window parameters. */
  function Tail(windows: Option<(byte, byte)>): seq<Parameter> {
    match windows
    case None => []
    case Some((t, u)) => Windows(t, u)
  }

  lemma TailUnheard(list: bytes, raw: bytes, offset: nat, windows: Option<(byte, byte)>)
    requires offset <= |list| <= |raw| && list[offset..] == ParameterList(Tail(windows))
    ensures HearFrom(list, raw, offset) == NOTHING
  {
    hide HearFrom, Windows;
    match windows
    case None => HearEnd(list, raw, offset);
    case Some((t, u)) => WindowsUnheard(list, raw, offset, t, u);
  }

  lemma TailSays(windows: Option<(byte, byte)>)
    ensures Encodable(Tail(windows)) && Hear(ItemsOf(Tail(windows))) == NOTHING
  {
    match windows
    case None =>
    case Some((t, u)) =>
      WindowOctets(t, u);
      WindowItems(t, u);
      UnnamedUnheard(ItemsOf(Windows(t, u)));
      hide *;
  }

  lemma WindowItems(t: byte, u: byte)
    ensures Unnamed(ItemsOf(Windows(t, u)))
  {
    hide BigEndian;
    assert Windows(t, u)[1..][1..] == [];
  }

  /** No item has one of the two ids. */
  predicate Unnamed(items: seq<Item>) {
    forall i :: 0 <= i < |items| ==> items[i].id !in {5, 6}
  }

  lemma UnnamedUnheard(items: seq<Item>)
    requires Unnamed(items)
    ensures Hear(items) == NOTHING
  {
    LastValueIsLast(items, 5);
    LastValueIsLast(items, 6);
    hide LastValue;
  }

  lemma {:induction false} ItemsOfBoth(ps: seq<Parameter>, qs: seq<Parameter>)
    ensures ItemsOf(ps + qs) == ItemsOf(ps) + ItemsOf(qs)
    decreases ps
  {
    hide BigEndian;
    if ps == [] {
      assert ps + qs == qs;
    } else {
      assert (ps + qs)[0] == ps[0] && (ps + qs)[1..] == ps[1..] + qs;
      ItemsOfBoth(ps[1..], qs);
    }
  }

  lemma EncodableBoth(ps: seq<Parameter>, qs: seq<Parameter>)
    requires Encodable(ps) && Encodable(qs)
    ensures Encodable(ps + qs)
  {}

  /**
   * For a list the walk falls in with, window parameters at its end or not: what the code hears follows
   * from the parameters and the octets of the frame, and the limits come out as intended iff that caps
   * the proposals as the list does.
   */
  lemma FallenInIntended(params: HdlcParameters, ps: seq<Parameter>, windows: Option<(byte, byte)>, raw: bytes)
    requires ps != [] && Encodable(ps) && FallsIn(ps[0]) && AllShort(ps[1..])
    requires |Announce(ps + Tail(windows))| <= |raw|
    ensures 3 + |ParameterList(ps)| <= |raw|
    ensures
      var list := ps + Tail(windows);
      var heard, said := Hear(ReadItems(ps, |ParameterList(list)|, raw)), Hear(ItemsOf(ps));
      var limits := Negotiated(params, Items(Announce(list), raw, 0));
      && limits == Limits(Limit(params.maxTx, heard.tx), Limit(params.maxRx, heard.rx))
      && (limits == IntendedLimits(params, Announce(list))
          <==> SameLimit(params.maxTx, Cap(heard.tx), Cap(said.tx))
               && SameLimit(params.maxRx, Cap(heard.rx), Cap(said.rx)))
  {
    hide *;
    var tail := Tail(windows);
    var list := Announce(ps + tail);
    WalkFallsIn(ps, tail, raw);
    var end := 3 + |ParameterList(ps)|;
    TailUnheard(list, raw, end, windows);
    TailSays(windows);
    EncodableBoth(ps, tail);
    AnnouncedIntended(params, ps + tail, raw);
    ItemsOfBoth(ps, tail);
    HearBoth(ReadItems(ps, |ParameterList(ps + tail)|, raw), Items(list, raw, end));
    HearBoth(ItemsOf(ps), ItemsOf(tail));
    HeardFromIs(list, raw, end);
    OverNothing(Hear(ReadItems(ps, |ParameterList(ps + tail)|, raw)));
    OverNothing(Hear(ItemsOf(ps)));
    NegotiatedIs(params, Items(list, raw, 0));
  }

  lemma HeardFromIs(list: bytes, raw: bytes, offset: nat)
    requires |list| <= |raw|
    ensures HearFrom(list, raw, offset) == Hear(Items(list, raw, offset))
  {
    hide Hear, Items;
  }

  lemma OverNothing(h: Hearing)
    ensures Over(h, NOTHING) == h && Over(NOTHING, h) == h
  {}

  lemma NegotiatedIs(params: HdlcParameters, items: seq<Item>)
    ensures Negotiated(params, items)
         == Limits(Limit(params.maxTx, Hear(items).tx), Limit(params.maxRx, Hear(items).rx))
  {
    hide LastValue, Limit;
  }

  // ---------- the usual offer ----------

  /** Both limits, the transmit limit first, and other short parameters behind them. */
  function Usual(a: bytes, b: bytes, others: seq<Parameter>): seq<Parameter> {
    [Parameter(5, a), Parameter(6, b)] + others
  }

  predicate Others(ps: seq<Parameter>) {
    AllShort(ps) && forall p <- ps :: p.id !in {5, 6}
  }

  /** What is heard: no transmit limit, and a receive limit from the octets of the frame at its offset. */
  function UsualHeard(a: bytes, b: bytes, size: nat, raw: bytes): Hearing
    requires 7 + |a| + |b| <= |raw|
  {
    Hearing(if Oct(size) == 5 then Some(0) else None, Some(BigEndian(raw[7 + |a|..7 + |a| + |b|])))
  }

  lemma UsualParts(a: bytes, b: bytes, others: seq<Parameter>)
    requires a != [] && |a| == 1 + Skip(a[0]) && |b| < 4 && Others(others)
    ensures
      var ps := Usual(a, b, others);
      && 2 <= |ps| && Encodable(ps) && FallsIn(ps[0]) && AllShort(ps[1..])
      && ps[0] == Parameter(5, a) && ps[1..] == [Parameter(6, b)] + others
      && |ParameterList(ps)| == 4 + |a| + |b| + |ParameterList(others)|
  {
    var ps := Usual(a, b, others);
    SkipOctets(a[0], 0);
    FallsInBySkip(Parameter(5, a), []);
    ListParts(ps);
    ListParts(ps[1..]);
    assert ps[1..] == [Parameter(6, b)] + others && ps[1..][1..] == others;
    hide FallsIn, Skip, ParameterList, Oct;
  }

  lemma {:induction false} OthersUnnamed(ps: seq<Parameter>, raw: bytes, offset: nat)
    requires Others(ps) && offset + |ParameterList(ps)| <= |raw|
    ensures Unnamed(RawItems(ps, raw, offset)) && Unnamed(ItemsOf(ps))
    decreases ps
  {
    hide BigEndian, ParameterList;
    if ps != [] {
      RawFirst(ps, raw, offset);
      assert ps[0] in ps;
      OthersUnnamed(ps[1..], raw, offset + 2 + |ps[0].value|);
    }
  }

  lemma UsualRead(a: bytes, b: bytes, others: seq<Parameter>, size: nat, raw: bytes)
    requires a != [] && |a| == 1 + Skip(a[0]) && |b| < 4 && Others(others)
    requires 3 + |ParameterList(Usual(a, b, others))| <= |raw|
    ensures FallsIn(Usual(a, b, others)[0]) && 7 + |a| + |b| <= |raw|
    ensures Hear(ReadItems(Usual(a, b, others), size, raw)) == UsualHeard(a, b, size, raw)
    ensures Hear(ItemsOf(Usual(a, b, others))) == Hearing(Some(BigEndian(a)), Some(BigEndian(b)))
  {
    hide *;
    var ps := Usual(a, b, others);
    UsualParts(a, b, others);
    FallsInBySkip(ps[0], raw);
    ReadItemsAre(ps, size, raw);
    RawFirst(ps[1..], raw, 5 + |a|);
    assert ps[1..][1..] == others && ps[1..][0] == Parameter(6, b);
    OthersUnnamed(others, raw, 7 + |a| + |b|);
    FirstOf(ps);
    FirstOf(ps[1..]);
    var rest, said := RawItems(others, raw, 7 + |a| + |b|), ItemsOf(others);
    UnnamedUnheard(rest);
    UnnamedUnheard(said);
    EmptyValue(raw, 4);
    SmallLength(a);
    assert BehindId(ps[0])[0..] == BehindId(ps[0]);
    UsualItems(Oct(size), Item(Oct(|a|), BigEndian(raw[6..5 + |a|])), BigEndian(raw[7 + |a|..7 + |a| + |b|]), rest);
    SaidItems(BigEndian(a), BigEndian(b), said);
    UsualHeardIs(a, b, size, raw);
  }

  lemma SmallLength(a: bytes)
    requires a != [] && |a| == 1 + Skip(a[0])
    ensures Oct(|a|) !in {5, 6}
  {
    SkipOctets(a[0], 0);
    ValOct(|a|);
    assert Val(5) == 5 && Val(6) == 6;
    hide Oct, Skip;
  }

  lemma UsualHeardIs(a: bytes, b: bytes, size: nat, raw: bytes)
    requires 7 + |a| + |b| <= |raw|
    ensures UsualHeard(a, b, size, raw)
         == Hearing(if Oct(size) == 5 then Some(0) else None, Some(BigEndian(raw[7 + |a|..7 + |a| + |b|])))
  {}

  lemma UsualItems(size: byte, stray: Item, value: bv32, rest: seq<Item>)
    requires stray.id !in {5, 6} && Hear(rest) == NOTHING
    ensures Hear([Item(0x80, 0), Item(size, 0)] + [stray] + ([Item(6, value)] + rest))
         == Hearing(if size == 5 then Some(0) else None, Some(value))
  {
    hide Hear;
    HearFirst(Item(6, value), rest);
    HearFirst(stray, [Item(6, value)] + rest);
    HearFirst(Item(size, 0), [stray] + ([Item(6, value)] + rest));
    HearFirst(Item(0x80, 0), [Item(size, 0)] + ([stray] + ([Item(6, value)] + rest)));
    assert [Item(0x80, 0), Item(size, 0)] + [stray] + ([Item(6, value)] + rest)
        == [Item(0x80, 0)] + ([Item(size, 0)] + ([stray] + ([Item(6, value)] + rest)));
  }

  lemma SaidItems(tx: bv32, rx: bv32, rest: seq<Item>)
    requires Hear(rest) == NOTHING
    ensures Hear([Item(5, tx)] + ([Item(6, rx)] + rest)) == Hearing(Some(tx), Some(rx))
  {
    hide Hear;
    HearFirst(Item(6, rx), rest);
    HearFirst(Item(5, tx), [Item(6, rx)] + rest);
  }

  /**
   * Both limits on offer, the first as long as its first octet makes the code skip, with other short
   * parameters and the window parameters behind them or not: the transmit limit is not taken over, and
   * the receive limit is read from the frame at the offset it has in the list.  That is as intended iff
   * the offered transmit limit does not lower the proposal, and the octets read for the receive limit
   * cap it as the offered ones do.
   */
  lemma UsualOfferIntended(params: HdlcParameters, a: bytes, b: bytes, others: seq<Parameter>,
                           windows: Option<(byte, byte)>, raw: bytes)
    requires a != [] && |a| == 1 + Skip(a[0]) && |b| < 4 && Others(others)
    requires |Announce(Usual(a, b, others) + Tail(windows))| <= |raw|
    ensures 7 + |a| + |b| <= |raw|
    ensures
      var list := Usual(a, b, others) + Tail(windows);
      var limits := Negotiated(params, Items(Announce(list), raw, 0));
      var tx: bv16 := if Oct(|ParameterList(list)|) == 5 then 0 else 0xFFFF;
      var rx := Low16(BigEndian(raw[7 + |a|..7 + |a| + |b|]));
      && limits == Limits(Min(params.maxTx, tx), Min(params.maxRx, rx))
      && (limits == IntendedLimits(params, Announce(list))
          <==> SameLimit(params.maxTx, tx, Low16(BigEndian(a))) && SameLimit(params.maxRx, rx, Low16(BigEndian(b))))
  {
    hide *;
    var ps := Usual(a, b, others);
    UsualParts(a, b, others);
    FallenInIntended(params, ps, windows, raw);
    var size := |ParameterList(ps + Tail(windows))|;
    UsualRead(a, b, others, size, raw);
    UsualHeardIs(a, b, size, raw);
    var heard := UsualHeard(a, b, size, raw);
    LimitIsCapped(params.maxTx, heard.tx);
    LimitIsCapped(params.maxRx, heard.rx);
    CapOf(0);
    CapOf(BigEndian(a));
    CapOf(BigEndian(b));
    CapOf(BigEndian(raw[7 + |a|..7 + |a| + |b|]));
  }

  lemma CapOf(v: bv32)
    ensures Cap(Some(v)) == Low16(v) && Cap(None) == 0xFFFF && Low16(0) == 0
  {}
}
