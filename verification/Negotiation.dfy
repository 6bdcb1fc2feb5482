/** What the negotiation of information field lengths comes to. */
module Negotiation {
  import opened Octets
  import opened Results
  import opened Fcs
  import opened HdlcFrame
  import opened Hdlc
  import opened ParameterLists
  import Mirror
  import Server

  // ---------- the outcome in terms of items ----------

  /** `k` is the last position at which `id` occurs. */
  ghost predicate LastAt(items: seq<Item>, id: byte, k: int) {
    && 0 <= k < |items| && items[k].id == id
    && forall i :: k < i < |items| ==> items[i].id != id
  }

  lemma {:induction false} LastValueIsLast(items: seq<Item>, id: byte)
    ensures LastValue(items, id) == None <==> forall i :: 0 <= i < |items| ==> items[i].id != id
    ensures forall k :: LastAt(items, id, k) ==> LastValue(items, id) == Some(items[k].value)
  {
    if items != [] {
      var n := |items| - 1;
      LastValueIsLast(items[..n], id);
      assert items == items[..n] + [items[n]];
      forall k | LastAt(items, id, k)
        ensures LastValue(items, id) == Some(items[k].value)
      {
        if k < n {
          assert LastAt(items[..n], id, k);
        }
      }
    }
  }

  /**
   * A limit is the proposed one if its id never occurs; else it is the minimum of the proposal and
   * the low sixteen bits of the last value with that id.
   */
  lemma LimitIsFold(proposed: bv16, items: seq<Item>, id: byte)
    ensures (forall i :: 0 <= i < |items| ==> items[i].id != id) ==> Limit(proposed, LastValue(items, id)) == proposed
    ensures forall k :: LastAt(items, id, k) ==>
      Limit(proposed, LastValue(items, id)) == Min(proposed, Low16(items[k].value))
  {
    hide Min, Low16;
    LastValueIsLast(items, id);
  }

  lemma NegotiatedWithin(params: HdlcParameters, items: seq<Item>)
    ensures Negotiated(params, items).tx <= params.maxTx && Negotiated(params, items).rx <= params.maxRx
  {
    LimitWithin(params.maxTx, LastValue(items, 5));
    LimitWithin(params.maxRx, LastValue(items, 6));
    hide LastValue, Limit;
  }

  lemma LimitWithin(proposed: bv16, value: Option<bv32>)
    ensures AtMost(Limit(proposed, value), proposed)
  {
    hide Min, Low16, AtMost;
    match value
    case None => MinCases(proposed, proposed);
    case Some(v) => MinWithin(proposed, Low16(v));
  }

  lemma MinWithin(a: bv16, b: bv16)
    ensures AtMost(Min(a, b), a)
  {
    if a <= b {
      assert Min(a, b) == a;
    } else {
      assert Min(a, b) == b;
      assert b < a;
    }
  }

  /** An item consumes two to five octets, so the walk ends; no octet of the list is read twice. */
  lemma {:induction false} ItemsConsume(list: bytes, raw: bytes, offset: nat)
    requires |list| <= |raw| && offset <= |list|
    ensures var n := |Items(list, raw, offset)|;
      2 * n <= |list| - offset && |list| - offset <= 5 * n + 1
    decreases |list| - offset
  {
    hide BigEndian;
    if offset + 1 < |list| {
      ItemsConsume(list, raw, offset + 2 + ValueOctets(list[offset + 1], |list| - offset - 2));
    }
  }

  // ---------- parameter lists read back ----------

  function Widened(limit: bv16): bv32 {
    limit as bv32
  }

  function ParameterItems(id: byte, limit: bv16): seq<Item> {
    if limit == 128 then [] else [Item(id, Widened(limit))]
  }

  lemma OneOctet(limit: bv16)
    requires limit < 128
    ensures BigEndian([Lo(limit)]) == Widened(limit)
  {
    assert [Lo(limit)][..0] == [];
    assert BigEndian([Lo(limit)]) == Grow(0, Lo(limit));
  }

  lemma TwoOctets(limit: bv16)
    ensures BigEndian([Hi(limit), Lo(limit)]) == Widened(limit)
  {
    Mirror.BigEndianTwo([Hi(limit), Lo(limit)]);
  }

  /** The limits a parameter list stands for, 128 where it is silent. */
  function ReadBack(list: bytes): Limits {
    var items := Items(list, list, 0);
    Limits(LimitOr128(LastValue(items, 5)), LimitOr128(LastValue(items, 6)))
  }

  function LimitOr128(value: Option<bv32>): bv16 {
    match value
    case None => 128
    case Some(v) => Low16(v)
  }

  /** The limits on offer as octets: one below the default 128, two above. */
  function LimitOctets(limit: bv16): bytes {
    if limit < 128 then [Lo(limit)] else [Hi(limit), Lo(limit)]
  }

  lemma SmallOctets()
    ensures Oct(0) == 0 && Oct(1) == 1 && Oct(2) == 2 && Oct(3) == 3 && Oct(4) == 4
    ensures Oct(6) == 6 && Oct(7) == 7 && Oct(8) == 8
  {
    OctVal(0);
    OctVal(1);
    OctVal(2);
    OctVal(3);
    OctVal(4);
    OctVal(6);
    OctVal(7);
    OctVal(8);
    assert Val(0) == 0 && Val(1) == 1 && Val(2) == 2 && Val(3) == 3 && Val(4) == 4
        && Val(6) == 6 && Val(7) == 7 && Val(8) == 8;
    hide Oct;
  }

  /** Two limits as parameters: one octet below the default 128, two above, silence for 128. */
  function OfferParameters(tx: bv16, rx: bv16): seq<Parameter> {
    (if tx == 128 then [] else [Parameter(5, LimitOctets(tx))])
    + (if rx == 128 then [] else [Parameter(6, LimitOctets(rx))])
  }

  lemma OfferList(tx: bv16, rx: bv16)
    ensures ParameterList(OfferParameters(tx, rx)) == ParameterItem(5, tx) + ParameterItem(6, rx)
    ensures Encodable(OfferParameters(tx, rx))
  {
    hide Lo, Hi, Oct;
    SmallOctets();
    LimitItem(5, tx);
    LimitItem(6, rx);
    var ps := OfferParameters(tx, rx);
    assert ps != [] ==> ps[1..] == [] || ps[1..] == [Parameter(6, LimitOctets(rx))];
    hide ParameterOctets, ParameterItem, LimitOctets;
    NoParameters(Parameter(6, LimitOctets(rx)));
    NoParameters(Parameter(5, LimitOctets(tx)));
    assert [] + ParameterItem(6, rx) == ParameterItem(6, rx) && ParameterItem(5, tx) + [] == ParameterItem(5, tx);
  }

  lemma LimitItem(id: byte, limit: bv16)
    ensures |LimitOctets(limit)| <= 2
    ensures ParameterItem(id, limit) == if limit == 128 then [] else ParameterOctets(Parameter(id, LimitOctets(limit)))
  {
    hide Lo, Hi, Oct;
    SmallOctets();
  }

  lemma NoParameters(p: Parameter)
    ensures ParameterList([p]) == ParameterOctets(p)
  {
    assert [p][1..] == [];
    assert ParameterOctets(p) + [] == ParameterOctets(p);
  }

  lemma LimitValue(limit: bv16)
    ensures BigEndian(LimitOctets(limit)) == Widened(limit)
  {
    hide BigEndian, Lo, Hi;
    if limit < 128 {
      OneOctet(limit);
    } else {
      TwoOctets(limit);
    }
  }

  lemma OfferItems(tx: bv16, rx: bv16)
    ensures ItemsOf(OfferParameters(tx, rx)) == ParameterItems(5, tx) + ParameterItems(6, rx)
    ensures AllShort(OfferParameters(tx, rx))
  {
    hide BigEndian, LimitOctets, Widened;
    LimitItem(5, tx);
    LimitItem(6, rx);
    LimitValue(tx);
    LimitValue(rx);
    var ps := OfferParameters(tx, rx);
    assert ps != [] ==> ps[1..] == [] || ps[1..] == [Parameter(6, LimitOctets(rx))];
    assert [Parameter(6, LimitOctets(rx))][1..] == [];
  }

  lemma LastOfOffer(tx: bv16, rx: bv16)
    ensures var items := ParameterItems(5, tx) + ParameterItems(6, rx);
      && LastValue(items, 5) == (if tx == 128 then None else Some(Widened(tx)))
      && LastValue(items, 6) == (if rx == 128 then None else Some(Widened(rx)))
  {
    var a := ParameterItems(5, tx);
    LastOf([], Item(5, Widened(tx)));
    LastOf(a, Item(6, Widened(rx)));
    assert [] + [Item(5, Widened(tx))] == [Item(5, Widened(tx))];
    assert a + [] == a;
    hide Widened;
  }

  lemma Low16Widened(limit: bv16)
    ensures Low16(Widened(limit)) == limit
  {}

  /** The parameter list of SNRM encodes parameters 5 and 6, a limit in one octet below 128 and in two above. */
  lemma SnrmListed(params: HdlcParameters)
    ensures SnrmParameters(params) == ParameterList(OfferParameters(params.maxTx, params.maxRx))
  {
    OfferList(params.maxTx, params.maxRx);
    hide OfferParameters, ParameterItem, ParameterList, Encodable;
  }

  /** The parameter list of SNRM says the proposed pair, for every pair. */
  lemma SnrmRoundTrip(params: HdlcParameters)
    ensures ReadBack(SnrmParameters(params)) == Limits(params.maxTx, params.maxRx)
  {
    hide Items, ParameterItem, ParameterItems, LastValue, Low16, Widened, OfferParameters, ItemsOf, AllShort,
         Encodable, ParameterList, MeantItems, Stops, MeantStops;
    OfferList(params.maxTx, params.maxRx);
    InStepIff(OfferParameters(params.maxTx, params.maxRx));
    OfferItems(params.maxTx, params.maxRx);
    LastOfOffer(params.maxTx, params.maxRx);
    Low16Widened(params.maxTx);
    Low16Widened(params.maxRx);
  }

  /** Different pairs are proposed by different lists. */
  lemma SnrmInjective(p: HdlcParameters, q: HdlcParameters)
    requires SnrmParameters(p) == SnrmParameters(q)
    ensures p.maxTx == q.maxTx && p.maxRx == q.maxRx
  {
    SnrmRoundTrip(p);
    SnrmRoundTrip(q);
    hide SnrmParameters, ReadBack;
  }

  /** The server that reads the SNRM frame of the client learns the proposed pair. */
  lemma SnrmReachesServer(params: HdlcParameters)
    ensures var r := Server.Read(Serialize(ClientFrame(COMMAND_SNRM, params, SnrmParameters(params))));
      r.Ok? && r.value.cmd == 0x83 && ReadBack(r.value.payload) == Limits(params.maxTx, params.maxRx)
  {
    SnrmRoundTrip(params);
    var f := ClientFrame(COMMAND_SNRM, params, SnrmParameters(params));
    assert |SnrmParameters(params)| <= 8;
    hide SnrmParameters, ReadBack, Serialize, Server.Read;
    Server.RequestRoundTrip(f);
  }

  // ---------- the walk against its intention ----------

  /** A server's list: the group header the code looks for, then any parameters. */
  function Announce(ps: seq<Parameter>): bytes {
    [0x80, 0x81, Oct(|ParameterList(ps)|)] + ParameterList(ps)
  }

  /** The intended walk: past the group header, with values of any length from the list itself. */
  function IntendedLimits(params: HdlcParameters, payload: bytes): Limits
    requires 3 <= |payload|
  {
    Negotiated(params, MeantItems(payload[3..], 0))
  }

  /**
   * For every list the intended limits follow from the last value of each id: the minimum with the
   * proposal, or the proposal where the id does not occur.
   */
  lemma IntendedIsMinimum(params: HdlcParameters, ps: seq<Parameter>)
    requires Encodable(ps)
    ensures
      var heard := Hear(ItemsOf(ps));
      IntendedLimits(params, Announce(ps)) == Limits(Limit(params.maxTx, heard.tx), Limit(params.maxRx, heard.rx))
  {
    hide MeantItems, ParameterList, LastValue, Limit, Oct, ItemsOf, Encodable;
    assert Announce(ps)[3..] == ParameterList(ps);
    MeantRoundTrip(ps);
  }

  // ---------- what the walk hears of an offer ----------

  /** The last values of the two ids. */
  datatype Hearing = Hearing(tx: Option<bv32>, rx: Option<bv32>)

  function Hear(items: seq<Item>): Hearing {
    Hearing(LastValue(items, 5), LastValue(items, 6))
  }

  /** An item in front of others matters only where they say nothing. */
  function Before(item: Item, h: Hearing): Hearing {
    Hearing(if h.tx == None && item.id == 5 then Some(item.value) else h.tx,
            if h.rx == None && item.id == 6 then Some(item.value) else h.rx)
  }

  lemma {:induction false} HearFirst(item: Item, rest: seq<Item>)
    ensures Hear([item] + rest) == Before(item, Hear(rest))
    decreases |rest|
  {
    if rest == [] {
      LastOf([], item);
      assert [item] + rest == [] + [item];
    } else {
      var n := |rest| - 1;
      HearFirst(item, rest[..n]);
      LastOf([item] + rest[..n], rest[n]);
      LastOf(rest[..n], rest[n]);
      assert [item] + rest == ([item] + rest[..n]) + [rest[n]];
      assert rest == rest[..n] + [rest[n]];
      hide LastValue;
    }
  }

  /** What the walk hears from an offset on. */
  function HearFrom(list: bytes, raw: bytes, offset: nat): Hearing
    requires |list| <= |raw|
  {
    Hear(Items(list, raw, offset))
  }

  const NOTHING: Hearing := Hearing(None, None)

  lemma HearStep(list: bytes, raw: bytes, offset: nat, n: nat)
    requires |list| <= |raw| && offset + 1 < |list|
    requires n == ValueOctets(list[offset + 1], |list| - offset - 2)
    ensures HearFrom(list, raw, offset)
         == Before(Item(list[offset], BigEndian(raw[offset + 2..offset + 2 + n])), HearFrom(list, raw, offset + 2 + n))
  {
    hide Before, Hear, BigEndian, ValueOctets;
    HearFirst(Item(list[offset], BigEndian(raw[offset + 2..offset + 2 + n])), Items(list, raw, offset + 2 + n));
  }

  /** An item with another id goes unheard. */
  lemma HearPast(list: bytes, raw: bytes, offset: nat, n: nat)
    requires |list| <= |raw| && offset + 1 < |list| && list[offset] !in {5, 6}
    requires n == ValueOctets(list[offset + 1], |list| - offset - 2)
    ensures HearFrom(list, raw, offset) == HearFrom(list, raw, offset + 2 + n)
  {
    hide Hear, BigEndian, ValueOctets, Items, HearFrom;
    HearStep(list, raw, offset, n);
  }

  lemma HearEnd(list: bytes, raw: bytes, offset: nat)
    requires |list| <= |raw| && |list| <= offset + 1
    ensures HearFrom(list, raw, offset) == NOTHING
  {}

  lemma Lengths(k: nat)
    ensures ValueOctets(0x81, k) == 0 && ValueOctets(5, k) == 0 && ValueOctets(6, k) == 0
    ensures 1 <= k ==> ValueOctets(1, k) == 1
    ensures 2 <= k ==> ValueOctets(2, k) == 2
    ensures forall len: byte :: 3 <= k ==> ValueOctets(len, k) == if len in {1, 2, 3} then Val(len) else 0
    ensures forall len: byte :: ValueOctets(len, 0) == 0 && ValueOctets(len, 1) <= 1
  {}

  /** A transmit limit of 64 in four octets: the walk of the code hears 0. */
  lemma LongValueMisread()
    ensures
      var ps := [Parameter(5, [0, 0, 0, 64])];
      var list := ParameterList(ps);
      && list == [5, 4, 0, 0, 0, 64]
      && HearFrom(list, list, 0) == Hearing(Some(0), None)
      && Hear(ItemsOf(ps)) == Hearing(Some(64), None)
  {
    hide *;
    LongValueList();
    LongValueHeard([5, 4, 0, 0, 0, 64]);
    HearFirst(Item(5, 64), []);
    assert [Item(5, 64)] + [] == [Item(5, 64)];
    HeardAlone(64);
  }

  lemma LongValueList()
    ensures
      var ps := [Parameter(5, [0, 0, 0, 64])];
      ParameterList(ps) == [5, 4, 0, 0, 0, 64] && ItemsOf(ps) == [Item(5, 64)]
  {
    var value: bytes := [0, 0, 0, 64];
    Mirror.BigEndianFour(value);
    assert Grow(Grow(Grow(Grow(0, 0), 0), 0), 64) == 64;
    OctVal(4);
    assert Val(4) == 4;
    hide BigEndian, Oct, Val, Grow;
    assert [Parameter(5, value)][1..] == [];
    assert ParameterList([Parameter(5, value)]) == [5, 4] + value;
  }

  lemma LongValueHeard(list: bytes)
    requires list == [5, 4, 0, 0, 0, 64]
    ensures HearFrom(list, list, 0) == Hearing(Some(0), None)
  {
    hide BigEndian, HearFrom, ValueOctets;
    NoLengths();
    EmptyValue(list, 2);
    HearStep(list, list, 0, 0);
    HearPast(list, list, 2, 0);
    HearPast(list, list, 4, 0);
    HearEnd(list, list, 6);
  }

  lemma HeardAlone(value: bv32)
    ensures Before(Item(5, value), Hear([])) == Hearing(Some(value), None)
  {}

  lemma NoLengths()
    ensures ValueOctets(4, 4) == 0 && ValueOctets(0, 2) == 0 && ValueOctets(64, 0) == 0
  {}

  lemma NoSkip(len: byte, k: nat)
    ensures len !in {1, 2, 3} ==> ValueOctets(len, k) == 0
  {}

  /**
   * Past the group header, the walk takes the group length for an id, and the first id of the list for
   * its length, fetching a value by it; unless that id is 1, 2 or 3, nothing is skipped and the first
   * length comes to be an id.
   */
  lemma HearHeader(list: bytes, raw: bytes)
    requires 3 <= |list| <= |raw| && list[0] == 0x80 && list[1] == 0x81
    ensures HearFrom(list, raw, 0) == HearFrom(list, raw, 2)
    ensures 4 <= |list| ==>
      var n := ValueOctets(list[3], |list| - 4);
      HearFrom(list, raw, 2) == Before(Item(list[2], BigEndian(raw[4..4 + n])), HearFrom(list, raw, 4 + n))
    ensures 4 <= |list| && list[3] !in {1, 2, 3} ==>
      HearFrom(list, raw, 2) == Before(Item(list[2], 0), HearFrom(list, raw, 4))
  {
    hide HearFrom, BigEndian, ValueOctets, Before;
    NoSkip(0x81, |list| - 2);
    HearPast(list, raw, 0, 0);
    if 4 <= |list| {
      HearStep(list, raw, 2, ValueOctets(list[3], |list| - 4));
    }
    if 4 <= |list| && list[3] !in {1, 2, 3} {
      NoSkip(list[3], |list| - 4);
      EmptyValue(raw, 4);
      HearStep(list, raw, 2, 0);
    }
  }

  /** An offer of at most one parameter goes unheard. */
  lemma HearSingle(list: bytes, raw: bytes)
    requires |list| <= |raw| && 3 <= |list| <= 7 && list[0] == 0x80 && list[1] == 0x81
    requires |list| != 3 ==> 6 <= |list| && list[2] !in {5, 6} && list[3] in {5, 6} && list[4] in {1, 2}
    ensures HearFrom(list, raw, 0) == NOTHING
  {
    hide HearFrom, BigEndian, ValueOctets;
    HearHeader(list, raw);
    if |list| == 3 {
      HearEnd(list, raw, 2);
    } else {
      var k := ValueOctets(list[5], |list| - 6);
      HearPast(list, raw, 4, k);
      HearEnd(list, raw, 6 + k);
    }
  }

  /** The octets of an offer of two parameters. */
  predicate TwoParameters(list: bytes, t: bytes, r: bytes) {
    && 1 <= |t| <= 2 && 1 <= |r| <= 2 && |list| == 7 + |t| + |r|
    && list[0] == 0x80 && list[1] == 0x81 && list[2] == Oct(4 + |t| + |r|)
    && list[3] == 5 && list[4] == Oct(|t|) && list[5..5 + |t|] == t
    && list[5 + |t|] == 6 && list[6 + |t|] == Oct(|r|) && list[7 + |t|..] == r
  }

  /** An octet of a limit that the walk takes for an id without a value. */
  function Stray(t: bytes, r: bytes): Option<byte>
    requires 1 <= |t| <= 2 && 1 <= |r| <= 2
  {
    if |t| == 2 && t[0] !in {1, 2, 3} then Some(t[1])
    else if |r| == 2 && t[0] == (if |t| == 1 then 2 else 3) then Some(r[0])
    else None
  }

  /** Where the frame is read for the receive limit, if the walk comes to its id in step. */
  function ReadAt(t: bytes): Option<nat>
    requires 1 <= |t| <= 2
  {
    if |t| == 1 && t[0] !in {1, 2, 3} then Some(8)
    else if |t| == 2 && t[0] == 1 then Some(9)
    else None
  }

  /** What the walk hears of two parameters: at most a stray id, or the receive limit read from the wrong octets. */
  function HeardTwo(t: bytes, r: bytes, raw: bytes): Hearing
    requires 1 <= |t| <= 2 && 1 <= |r| <= 2 && 7 + |t| + |r| <= |raw|
  {
    Hearing(if Stray(t, r) == Some(5) then Some(0) else None,
            match ReadAt(t)
            case Some(at) => Some(BigEndian(raw[at..at + |r|]))
            case None => if Stray(t, r) == Some(6) || (|t| == 1 && |r| == 1) then Some(0) else None)
  }

  /** Behind the header: the transmit limit. */
  lemma HearTwo(list: bytes, raw: bytes, t: bytes, r: bytes)
    requires TwoParameters(list, t, r) && |list| <= |raw|
    ensures HearFrom(list, raw, 0) == HeardTwo(t, r, raw)
  {
    hide HearFrom, BigEndian, ValueOctets, Oct, Val;
    SmallOctets();
    HearHeader(list, raw);
    assert list[5] == list[5..5 + |t|][0] == t[0];
    Lengths(|list| - 6);
    var k := ValueOctets(list[5], |list| - 6);
    HearPast(list, raw, 4, k);
    if |t| == 1 {
      AfterShort(list, raw, t, r, k);
    } else {
      AfterLong(list, raw, t, r, k);
    }
  }

  /** A limit read in step: the id 6 at `at`, and nothing behind its value. */
  lemma InStep(list: bytes, raw: bytes, at: nat, n: nat)
    requires |list| == at + 2 + n <= |raw| && 1 <= n <= 2 && list[at] == 6 && list[at + 1] == Oct(n)
    ensures HearFrom(list, raw, at) == Hearing(None, Some(BigEndian(raw[at + 2..at + 2 + n])))
  {
    hide HearFrom, BigEndian, ValueOctets, Oct;
    SmallOctets();
    Lengths(n);
    HearStep(list, raw, at, n);
    HearEnd(list, raw, at + 2 + n);
  }

  /** A length taken for an id: at most one octet of a limit is left behind it. */
  lemma Overrun(list: bytes, raw: bytes, at: nat, n: nat)
    requires |list| == at + 1 + n <= |raw| && 1 <= n <= 2 && list[at] == Oct(n)
    ensures HearFrom(list, raw, at) == NOTHING
  {
    hide HearFrom, BigEndian, ValueOctets, Oct;
    SmallOctets();
    Lengths(n);
    var k := ValueOctets(list[at + 1], |list| - at - 2);
    HearPast(list, raw, at, k);
    HearEnd(list, raw, at + 2 + k);
  }

  /** The octets of a limit itself taken for an id and a length. */
  lemma LimitAsItem(list: bytes, raw: bytes, at: nat, n: nat)
    requires |list| == at + n <= |raw| && 1 <= n <= 2
    ensures HearFrom(list, raw, at) == if n == 2 then Before(Item(list[at], 0), NOTHING) else NOTHING
  {
    hide HearFrom, BigEndian, ValueOctets, Before;
    if n == 2 {
      Lengths(0);
      EmptyValue(raw, at + 2);
      HearStep(list, raw, at, 0);
      HearEnd(list, raw, at + 2);
    } else {
      HearEnd(list, raw, at);
    }
  }

  lemma AfterShort(list: bytes, raw: bytes, t: bytes, r: bytes, k: nat)
    requires TwoParameters(list, t, r) && |list| <= |raw| && |t| == 1
    requires k == if t[0] in {1, 2, 3} then Val(t[0]) else 0
    ensures Before(Item(list[2], 0), HearFrom(list, raw, 6 + k)) == HeardTwo(t, r, raw)
  {
    hide HearFrom, BigEndian, Oct;
    SmallOctets();
    SmallValues();
    hide Val;
    assert list[8..] == r && list[8] == list[8..][0];
    if k == 0 {
      InStep(list, raw, 6, |r|);
    } else if k == 1 {
      Overrun(list, raw, 7, |r|);
    } else if k == 2 {
      LimitAsItem(list, raw, 8, |r|);
    } else {
      HearEnd(list, raw, 9);
    }
  }

  lemma SmallValues()
    ensures Val(1) == 1 && Val(2) == 2 && Val(3) == 3
  {}

  lemma AfterLong(list: bytes, raw: bytes, t: bytes, r: bytes, k: nat)
    requires TwoParameters(list, t, r) && |list| <= |raw| && |t| == 2
    requires k == if t[0] in {1, 2, 3} then Val(t[0]) else 0
    ensures Before(Item(list[2], 0), HearFrom(list, raw, 6 + k)) == HeardTwo(t, r, raw)
  {
    hide HearFrom, BigEndian, Oct;
    SmallOctets();
    SmallValues();
    hide Val;
    assert list[9..] == r && list[9] == list[9..][0];
    assert list[6] == list[5..7][1] == t[1];
    if k == 0 {
      StrayItem(list, raw, t[1]);
      Overrun(list, raw, 8, |r|);
    } else if k == 1 {
      InStep(list, raw, 7, |r|);
    } else if k == 2 {
      Overrun(list, raw, 8, |r|);
    } else {
      LimitAsItem(list, raw, 9, |r|);
    }
  }

  lemma StrayItem(list: bytes, raw: bytes, id: byte)
    requires 10 <= |list| <= |raw| && list[6] == id && list[7] == 6
    ensures HearFrom(list, raw, 6) == Before(Item(id, 0), HearFrom(list, raw, 8))
  {
    hide HearFrom, BigEndian, ValueOctets, Before;
    Lengths(|list| - 8);
    EmptyValue(raw, 8);
    HearStep(list, raw, 6, 0);
  }

  // ---------- the outcome of an offer, and when it is the intended one ----------

  function Offer(tx: bv16, rx: bv16): bytes {
    Announce(OfferParameters(tx, rx))
  }

  /** What the walk hears of such an offer. */
  function Heard(tx: bv16, rx: bv16, raw: bytes): Hearing
    requires |Offer(tx, rx)| <= |raw|
  {
    if tx == 128 || rx == 128 then NOTHING
    else OfferShape(tx, rx); HeardTwo(LimitOctets(tx), LimitOctets(rx), raw)
  }

  lemma OfferShape(tx: bv16, rx: bv16)
    ensures
      var list := Offer(tx, rx);
      && 3 <= |list| && list[0] == 0x80 && list[1] == 0x81
      && (tx == 128 || rx == 128 ==>
            && |list| <= 7
            && (|list| != 3 ==> 6 <= |list| && list[2] !in {5, 6} && list[3] in {5, 6} && list[4] in {1, 2}))
      && (tx != 128 && rx != 128 ==> TwoParameters(list, LimitOctets(tx), LimitOctets(rx)))
  {
    hide Lo, Hi, Oct, OfferParameters, ParameterList;
    SmallOctets();
    OfferList(tx, rx);
    LimitItem(5, tx);
    LimitItem(6, rx);
    if tx != 128 && rx != 128 {
      TwoLayout(LimitOctets(tx), LimitOctets(rx));
      hide LimitOctets, ParameterItem, TwoParameters;
    }
  }

  lemma TwoLayout(t: bytes, r: bytes)
    requires 1 <= |t| <= 2 && 1 <= |r| <= 2
    ensures
      var list := ParameterOctets(Parameter(5, t)) + ParameterOctets(Parameter(6, r));
      TwoParameters([0x80, 0x81, Oct(|list|)] + list, t, r)
  {
    hide Oct;
  }

  /** The walk over an offer hears exactly that, whatever the limits on offer and whatever the frame. */
  lemma OfferHeard(tx: bv16, rx: bv16, raw: bytes)
    requires |Offer(tx, rx)| <= |raw|
    ensures Hear(Items(Offer(tx, rx), raw, 0)) == Heard(tx, rx, raw)
  {
    hide Offer, HeardTwo, TwoParameters, LimitOctets, Hear, Items;
    OfferShape(tx, rx);
    if tx == 128 || rx == 128 {
      HearSingle(Offer(tx, rx), raw);
    } else {
      HearTwo(Offer(tx, rx), raw, LimitOctets(tx), LimitOctets(rx));
    }
  }

  predicate AtMost(a: bv16, b: bv16) {
    a <= b
  }

  /** The largest limit that a value leaves open. */
  function Cap(value: Option<bv32>): bv16 {
    match value
    case None => 0xFFFF
    case Some(v) => Low16(v)
  }

  /** Two caps come to the same limit: they are the same, or neither is below the proposal. */
  predicate SameLimit(proposed: bv16, a: bv16, b: bv16) {
    a == b || (AtMost(proposed, a) && AtMost(proposed, b))
  }

  lemma SameLimitIff(proposed: bv16, a: Option<bv32>, b: Option<bv32>)
    ensures Limit(proposed, a) == Limit(proposed, b) <==> SameLimit(proposed, Cap(a), Cap(b))
  {
    LimitIsCapped(proposed, a);
    LimitIsCapped(proposed, b);
    MinSame(proposed, Cap(a), Cap(b));
    hide Limit, Cap, Min, AtMost;
  }

  lemma LimitIsCapped(proposed: bv16, value: Option<bv32>)
    ensures Limit(proposed, value) == Min(proposed, Cap(value))
  {
    hide Low16;
    assert proposed <= 0xFFFF;
  }

  lemma MinSame(p: bv16, a: bv16, b: bv16)
    ensures Min(p, a) == Min(p, b) <==> SameLimit(p, a, b)
  {
    MinCases(p, a);
    MinCases(p, b);
    hide Min, AtMost;
  }

  lemma MinCases(p: bv16, a: bv16)
    ensures Min(p, a) == (if AtMost(p, a) then p else a) && AtMost(p, p)
  {}

  /**
   * Whatever the list and whatever the frame around it: the code negotiates as intended iff the values
   * its walk ends up with cap both proposals as the last values of the list do.
   */
  lemma AnnouncedIntended(params: HdlcParameters, ps: seq<Parameter>, raw: bytes)
    requires Encodable(ps) && |Announce(ps)| <= |raw|
    ensures
      var heard, said := Hear(Items(Announce(ps), raw, 0)), Hear(ItemsOf(ps));
      (Negotiated(params, Items(Announce(ps), raw, 0)) == IntendedLimits(params, Announce(ps)))
      <==> SameLimit(params.maxTx, Cap(heard.tx), Cap(said.tx)) && SameLimit(params.maxRx, Cap(heard.rx), Cap(said.rx))
  {
    hide Announce, Items, ItemsOf, LastValue, Limit, IntendedLimits, SameLimit, Cap, Encodable;
    IntendedIsMinimum(params, ps);
    var heard, said := Hear(Items(Announce(ps), raw, 0)), Hear(ItemsOf(ps));
    SameLimitIff(params.maxTx, heard.tx, said.tx);
    SameLimitIff(params.maxRx, heard.rx, said.rx);
  }

  /** What an offer of two limits says. */
  lemma OfferSaid(tx: bv16, rx: bv16)
    ensures
      var said := Hear(ItemsOf(OfferParameters(tx, rx)));
      && Cap(said.tx) == (if tx == 128 then 0xFFFF else tx)
      && Cap(said.rx) == (if rx == 128 then 0xFFFF else rx)
  {
    OfferItems(tx, rx);
    LastOfOffer(tx, rx);
    Low16Widened(tx);
    Low16Widened(rx);
    hide OfferParameters, ItemsOf, LastValue, Low16, Widened, ParameterItems, AllShort;
  }

  /** The code negotiates such an offer as intended iff what its walk hears caps the proposals as the offer does. */
  lemma OfferIntended(params: HdlcParameters, tx: bv16, rx: bv16, raw: bytes)
    requires |Offer(tx, rx)| <= |raw|
    ensures
      var heard := Heard(tx, rx, raw);
      (Negotiated(params, Items(Offer(tx, rx), raw, 0)) == IntendedLimits(params, Offer(tx, rx)))
      <==> SameLimit(params.maxTx, Cap(heard.tx), if tx == 128 then 0xFFFF else tx)
           && SameLimit(params.maxRx, Cap(heard.rx), if rx == 128 then 0xFFFF else rx)
  {
    OfferHeard(tx, rx, raw);
    OfferList(tx, rx);
    OfferSaid(tx, rx);
    AnnouncedIntended(params, OfferParameters(tx, rx), raw);
    hide OfferParameters, Items, ItemsOf, Hear, IntendedLimits, SameLimit, Heard, Cap, Negotiated, Encodable;
  }

  /** With at most one parameter on offer: iff the offer does not lower the proposed limits. */
  lemma SingleOfferIntended(params: HdlcParameters, tx: bv16, rx: bv16, raw: bytes)
    requires (tx == 128 || rx == 128) && |Offer(tx, rx)| <= |raw|
    ensures Negotiated(params, Items(Offer(tx, rx), raw, 0)) == Limits(params.maxTx, params.maxRx)
    ensures Negotiated(params, Items(Offer(tx, rx), raw, 0)) == IntendedLimits(params, Offer(tx, rx))
      <==> (tx == 128 || AtMost(params.maxTx, tx)) && (rx == 128 || AtMost(params.maxRx, rx))
  {
    OfferHeard(tx, rx, raw);
    OfferIntended(params, tx, rx, raw);
    Uncapped(params.maxTx, tx);
    Uncapped(params.maxRx, rx);
    hide Offer, Items, LastValue, IntendedLimits, AtMost, SameLimit;
  }

  lemma Uncapped(proposed: bv16, offer: bv16)
    ensures SameLimit(proposed, 0xFFFF, if offer == 128 then 0xFFFF else offer)
      <==> offer == 128 || AtMost(proposed, offer)
  {}

  /**
   * In a conformant acknowledgement the octets read for the receive limit are the control octet 0x73
   * and the header check; with a two-octet address, the header check and the list itself.
   */
  lemma AcknowledgedOffer(params: HdlcParameters, wide: bool, r: HdlcFrame, tx: bv16, rx: bv16)
    requires Mirror.Conformant(wide, r) && r.cmd == 0x63 && r.payload == Offer(tx, rx)
    requires !Mirror.Lost(wide, r)
    ensures
      var b, check := Mirror.Response(wide, r), CheckSequence(Mirror.ResponseOpening(wide, r));
      && |Offer(tx, rx)| <= |b| && 11 <= |b|
      && b[8..11] == (if wide then [0x73, Lo(check), Hi(check)] else [Hi(check), 0x80, 0x81])
      && SnrmOutcome(params, b)
         == Ok(Some(Limits(Limit(params.maxTx, Heard(tx, rx, b).tx), Limit(params.maxRx, Heard(tx, rx, b).rx))))
  {
    hide *;
    OfferShape(tx, rx);
    OfferAccepted(params, wide, r, tx, rx);
    OctetsBehind(wide, r);
  }

  lemma OfferAccepted(params: HdlcParameters, wide: bool, r: HdlcFrame, tx: bv16, rx: bv16)
    requires Mirror.Conformant(wide, r) && r.cmd == 0x63 && r.payload == Offer(tx, rx)
    requires !Mirror.Lost(wide, r)
    ensures
      var b := Mirror.Response(wide, r);
      && |Offer(tx, rx)| <= |b|
      && SnrmOutcome(params, b)
         == Ok(Some(Limits(Limit(params.maxTx, Heard(tx, rx, b).tx), Limit(params.maxRx, Heard(tx, rx, b).rx))))
  {
    hide Offer, Items, Limit, Mirror.Response, Parse, Mirror.Lost, Heard, LastValue, Mirror.Conformant,
         Mirror.SevenAndSeven;
    var b := Mirror.Response(wide, r);
    Mirror.ResponseRoundTripAsWritten(wide, r);
    OfferShape(tx, rx);
    PayloadFits(b);
    OfferHeard(tx, rx, b);
  }

  /** The octets of an acknowledgement from the eighth on. */
  lemma OctetsBehind(wide: bool, r: HdlcFrame)
    requires Mirror.Conformant(wide, r) && r.cmd == 0x63 && 3 <= |r.payload|
    ensures
      var b, check := Mirror.Response(wide, r), CheckSequence(Mirror.ResponseOpening(wide, r));
      && 11 <= |b|
      && b[8..11] == if wide then [0x73, Lo(check), Hi(check)] else [Hi(check)] + r.payload[..2]
  {
    hide *;
    var b, opening, n := Mirror.Response(wide, r), Mirror.ResponseOpening(wide, r), Mirror.AddressSize(wide);
    AcknowledgementParts(wide, r);
    SlicesBehind(b, opening, CheckSequence(opening), r.payload, wide);
  }

  lemma AcknowledgementParts(wide: bool, r: HdlcFrame)
    requires Mirror.Conformant(wide, r) && r.cmd == 0x63 && 3 <= |r.payload|
    ensures
      var b, opening := Mirror.Response(wide, r), Mirror.ResponseOpening(wide, r);
      var h := if wide then 8 else 6;
      && h + 7 <= |b| && b[h] == 0x73 && |opening| == h
      && b[1..h + 3] == opening + [Lo(CheckSequence(opening)), Hi(CheckSequence(opening))]
      && b[h + 3..|b| - 3] == r.payload
  {
    UaControl(r.rrr, r.sss);
    hide Mirror.Conformant, Framed, Mirror.Response, Mirror.ResponseControl, Information, Control, AddressOffset,
         CheckSequence, Lo, Hi, ClientOctet, Mirror.AddressOctets, HasInformation;
    var b, opening, n := Mirror.Response(wide, r), Mirror.ResponseOpening(wide, r), Mirror.AddressSize(wide);
    Mirror.ResponseParts(wide, r);
    Mirror.SaysFramed(b, wide, r);
    FramedInformation(b);
    Mirror.AddressOctetsForm(wide, r.logicalAddress, r.physicalAddress);
    assert [] + r.payload == r.payload;
    assert |opening| == n + 4;
    hide Mirror.ResponseOpening, Mirror.AddressForm;
  }

  lemma UaControl(rrr: byte, sss: byte)
    ensures Mirror.ResponseControl(0x63, rrr, sss) == 0x73
  {}

  lemma SlicesBehind(b: bytes, opening: bytes, check: bv16, payload: bytes, wide: bool)
    requires 3 <= |payload|
    requires
      var h := if wide then 8 else 6;
      && h + 7 <= |b| && b[h] == 0x73 && |opening| == h
      && b[1..h + 3] == opening + [Lo(check), Hi(check)]
      && b[h + 3..|b| - 3] == payload
    ensures 11 <= |b| && b[8..11] == if wide then [0x73, Lo(check), Hi(check)] else [Hi(check)] + payload[..2]
  {
    hide Lo, Hi;
    if wide {
      assert b[9] == b[1..11][8] && b[10] == b[1..11][9];
    } else {
      assert b[8] == b[1..9][7];
      assert b[9] == b[9..|b| - 3][0] && b[10] == b[9..|b| - 3][1];
    }
  }

  /**
   * With two one-octet limits on offer and a four-octet address the transmit limit is never taken over,
   * and the receive limit becomes that of the control octet, or 0 if the offered transmit limit is 1, 2 or 3.
   */
  lemma OneOctetOffers(params: HdlcParameters, r: HdlcFrame, tx: bv16, rx: bv16)
    requires Mirror.Conformant(true, r) && r.cmd == 0x63 && r.payload == Offer(tx, rx)
    requires !Mirror.Lost(true, r) && tx < 128 && rx < 128
    ensures SnrmOutcome(params, Mirror.Response(true, r))
         == Ok(Some(Limits(params.maxTx, Min(params.maxRx, if 1 <= tx <= 3 then 0 else 0x73))))
  {
    hide *;
    var b := Mirror.Response(true, r);
    AcknowledgedOffer(params, true, r, tx, rx);
    HeardOneOctet(tx, rx, b);
    assert b[8..9] == b[8..11][..1] == [0x73];
    LowOfOctets();
    LimitHeard(params.maxTx, params.maxRx, if 1 <= tx <= 3 then 0 else BigEndian([0x73]));
  }

  lemma HeardOneOctet(tx: bv16, rx: bv16, raw: bytes)
    requires tx < 128 && rx < 128 && |Offer(tx, rx)| <= |raw|
    ensures 9 <= |raw|
    ensures Heard(tx, rx, raw) == Hearing(None, Some(if 1 <= tx <= 3 then 0 else BigEndian(raw[8..9])))
  {
    hide Lo, Hi, Oct, BigEndian, Offer;
    OfferShape(tx, rx);
    LowOfSmall(tx);
  }

  lemma LimitHeard(tx: bv16, rx: bv16, v: bv32)
    ensures Limit(tx, None) == tx && Limit(rx, Some(v)) == Min(rx, Low16(v))
  {
    hide Min, Low16;
  }

  lemma LowOfSmall(tx: bv16)
    requires tx < 128
    ensures Lo(tx) in {1, 2, 3} <==> 1 <= tx <= 3
  {}

  lemma LowOfOctets()
    ensures Low16(BigEndian([0x73])) == 0x73 && Low16(0) == 0
  {
    assert [0x73 as byte][..0] == [];
    assert BigEndian([0x73]) == Grow(0, 0x73);
  }

  /** An acknowledgement whose payload has at least three octets and opens with 80 81. */
  predicate Acknowledges(r: HdlcFrame) {
    r.cmd == 0x63 && 3 <= |r.payload| && r.payload[..2] == [0x80, 0x81]
  }

  /**
   * Which conformant responses are accepted: acknowledgements of at least three octets that open with
   * 80 81, unless their frame is lost.
   */
  lemma AcceptedResponses(params: HdlcParameters, wide: bool, r: HdlcFrame)
    requires Mirror.Conformant(wide, r)
    ensures
      var outcome := SnrmOutcome(params, Mirror.Response(wide, r));
      if Mirror.Lost(wide, r) then outcome == Err(InvalidHdlcFrame)
      else outcome.Ok? && (outcome.value.Some? <==> Acknowledges(r))
  {
    hide Mirror.Response, Parse, Mirror.Lost, Negotiated, Items, Mirror.Conformant, Mirror.SevenAndSeven;
    Mirror.ResponseRoundTripAsWritten(wide, r);
    if !Mirror.Lost(wide, r) {
      PayloadFits(Mirror.Response(wide, r));
    }
  }

  /** An acknowledgement that the code accepts, with an empty list. */
  const ACCEPTED: HdlcFrame := HdlcFrame(0x63, 1, 0, 0, 0x3FFF, 1, [0x80, 0x81, 0x00])

  lemma AcceptedInstance(params: HdlcParameters)
    ensures Mirror.Conformant(true, ACCEPTED) && !Mirror.Lost(true, ACCEPTED)
    ensures SnrmOutcome(params, Mirror.Response(true, ACCEPTED)).Ok?
    ensures SnrmOutcome(params, Mirror.Response(true, ACCEPTED)).value.Some?
  {
    AcceptedOctets();
    assert Mirror.Conformant(true, ACCEPTED);
    assert ACCEPTED.payload[..2] == [0x80, 0x81];
    hide Mirror.ResponseControl, FormatOctet, Oct, ServerAddress, ClientOctet, Mirror.Response, SnrmOutcome;
    assert Mirror.ResponseOpening(true, ACCEPTED) == [0xA0, 0x0F, 0x03, 0x00, 0x02, 0xFE, 0xFF, 0x73];
    AcceptedCheck();
    AcceptedResponses(params, true, ACCEPTED);
  }

  lemma AcceptedOctets()
    ensures Mirror.ResponseControl(0x63, 0, 0) == 0x73 && ClientOctet(1) == 0x03
    ensures ServerAddress(1, 0x3FFF) == [0x00, 0x02, 0xFE, 0xFF]
    ensures FormatOctet(15) == 0xA0 && Oct(15) == 0x0F
  {
    AcceptedLength();
    hide FormatOctet, Oct;
  }

  lemma AcceptedLength()
    ensures FormatOctet(15) == 0xA0 && Oct(15) == 0x0F
  {
    hide *;
    Mirror.SmallFormat(0x0F, 15);
  }

  lemma AcceptedCheck()
    ensures Hi(CheckSequence([0xA0, 0x0F, 0x03, 0x00, 0x02, 0xFE, 0xFF, 0x73])) == 0xF0
  {
    assert OctetStep(0xFFFF, 0xA0) == 0xAA8D && OctetStep(0xAA8D, 0x0F) == 0xA7B0
        && OctetStep(0xA7B0, 0x03) == 0x87B7 && OctetStep(0x87B7, 0x00) == 0xC1B3
        && OctetStep(0xC1B3, 0x02) == 0xA4C3 && OctetStep(0xA4C3, 0xFE) == 0xEAC2
        && OctetStep(0xEAC2, 0xFF) == 0xEA8C && OctetStep(0xEA8C, 0x73) == 0x0F92;
    hide OctetStep, Feed;
    FeedIsSteps(0xFFFF, [0xA0, 0x0F, 0x03, 0x00, 0x02, 0xFE, 0xFF, 0x73]);
    assert Steps(0xC1B3, [0x02, 0xFE, 0xFF, 0x73]) == 0x0F92;
    assert Steps(0xFFFF, [0xA0, 0x0F, 0x03, 0x00, 0x02, 0xFE, 0xFF, 0x73]) == Steps(0xC1B3, [0x02, 0xFE, 0xFF, 0x73]);
  }

  /** An acknowledgement that offers 64 for both limits: the code leaves the one alone and takes 115 for the other. */
  lemma OneOctetInstance(params: HdlcParameters)
    ensures
      var r := HdlcFrame(0x63, 1, 0, 0, 0x3FFF, 1, Offer(64, 64));
      && Mirror.Conformant(true, r) && !Mirror.Lost(true, r)
      && SnrmOutcome(params, Mirror.Response(true, r)) == Ok(Some(Limits(params.maxTx, Min(params.maxRx, 0x73))))
  {
    var r := HdlcFrame(0x63, 1, 0, 0, 0x3FFF, 1, Offer(64, 64));
    AcceptedOctets();
    OfferLength();
    hide Offer;
    assert Mirror.Conformant(true, r);
    hide Mirror.ResponseControl, FormatOctet, Oct, ServerAddress, ClientOctet, Mirror.Response, SnrmOutcome, Min;
    assert Mirror.ResponseOpening(true, r) == [0xA0, 0x15, 0x03, 0x00, 0x02, 0xFE, 0xFF, 0x73];
    OfferCheck();
    OneOctetOffers(params, r, 64, 64);
  }

  lemma OfferLength()
    ensures |Offer(64, 64)| == 9 && FormatOctet(21) == 0xA0 && Oct(21) == 0x15
  {
    hide Oct, FormatOctet, Offer;
    OfferShape(64, 64);
    Mirror.SmallFormat(0x15, 21);
  }

  lemma OfferCheck()
    ensures Hi(CheckSequence([0xA0, 0x15, 0x03, 0x00, 0x02, 0xFE, 0xFF, 0x73])) == 0xAC
  {
    assert OctetStep(0xFFFF, 0xA0) == 0xAA8D && OctetStep(0xAA8D, 0x15) == 0x186B
        && OctetStep(0x186B, 0x03) == 0xEF56 && OctetStep(0xEF56, 0x00) == 0x375C
        && OctetStep(0x375C, 0x02) == 0xBBCC && OctetStep(0xBBCC, 0xFE) == 0x122A
        && OctetStep(0x122A, 0xFF) == 0x8132 && OctetStep(0x8132, 0x73) == 0x530C;
    hide OctetStep, Feed;
    FeedIsSteps(0xFFFF, [0xA0, 0x15, 0x03, 0x00, 0x02, 0xFE, 0xFF, 0x73]);
    assert Steps(0x375C, [0x02, 0xFE, 0xFF, 0x73]) == 0x530C;
    assert Steps(0xFFFF, [0xA0, 0x15, 0x03, 0x00, 0x02, 0xFE, 0xFF, 0x73]) == Steps(0x375C, [0x02, 0xFE, 0xFF, 0x73]);
  }
}
