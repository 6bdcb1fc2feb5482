/**
 * What the code hears of the usual announcement: the limits as the client writes its own, and the two
 * window parameters of four octets behind them.  The walk may fall out of step in the limits and in the
 * windows; whatever it does, the outcome is given in closed form.
 */
module WindowedOffers {
  import opened Octets
  import opened Results
  import opened HdlcFrame
  import opened Hdlc
  import opened ParameterLists
  import opened Negotiation
  import opened InStep

  // ---------- entering the windows ----------

  function Stray(id: byte): Hearing {
    Before(Item(id, 0), NOTHING)
  }

  /** Entered `j` octets behind their beginning: out of step by one, the walk takes the transmit window for an id. */
  function Entered(j: nat, w: byte): Hearing {
    if j in {1, 3} then Stray(w) else NOTHING
  }

  /** The window parameters stand at `at`, at the end of the list. */
  predicate WindowsAt(list: bytes, at: nat, w: byte, u: byte) {
    at <= |list| && list[at..] == ParameterList(Windows(w, u))
  }

  lemma WindowOctetsAt(list: bytes, at: nat, w: byte, u: byte)
    requires WindowsAt(list, at, w, u)
    ensures |list| == at + 12
    ensures list[at] == 7 && list[at + 1] == 4 && list[at + 2] == 0 && list[at + 3] == 0 && list[at + 4] == 0
    ensures list[at + 5] == w && list[at + 6] == 8 && list[at + 7] == 4 && list[at + 8] == 0
    ensures list[at + 9] == 0 && list[at + 10] == 0 && list[at + 11] == u
  {
    WindowOctets(w, u);
    hide ParameterList, Windows;
    var s: bytes := [7, 4, 0, 0, 0, w, 8, 4, 0, 0, 0, u];
    assert forall i :: 0 <= i < 12 ==> list[at + i] == list[at..][i] == s[i];
  }

  lemma WindowEntered(list: bytes, raw: bytes, at: nat, j: nat, w: byte, u: byte)
    requires |list| <= |raw| && WindowsAt(list, at, w, u) && j <= 3
    ensures HearFrom(list, raw, at + j) == Entered(j, w)
  {
    hide HearFrom, BigEndian, ValueOctets, ParameterList, Windows, Skip;
    WindowOctetsAt(list, at, w, u);
    WindowSkips(w);
    WindowSkips(u);
    if j == 0 {
      WindowsUnheard(list, raw, at, w, u);
    } else if j == 2 {
      HearPast(list, raw, at + 2, 0);
      FromTransmitWindow(list, raw, at, w, u);
    } else {
      if j == 1 {
        HearPast(list, raw, at + 1, 0);
      }
      HearPast(list, raw, at + 3, 0);
      StrayAt(list, raw, at + 5);
      HearPast(list, raw, at + 7, 0);
      HearPast(list, raw, at + 9, 0);
      HearEnd(list, raw, at + 11);
    }
  }

  /** In step, the windows go unheard from their fifth octet on. */
  lemma FromTransmitWindow(list: bytes, raw: bytes, at: nat, w: byte, u: byte)
    requires |list| <= |raw| && WindowsAt(list, at, w, u)
    ensures HearFrom(list, raw, at + 4) == NOTHING
  {
    hide HearFrom, BigEndian, ValueOctets, ParameterList, Windows, Skip;
    WindowOctetsAt(list, at, w, u);
    WindowSkips(w);
    WindowsUnheard(list, raw, at, w, u);
    HearPast(list, raw, at, 0);
    HearPast(list, raw, at + 2, 0);
  }

  /** Two octets taken for an id and a length that is not skipped. */
  lemma StrayAt(list: bytes, raw: bytes, at: nat)
    requires at + 1 < |list| <= |raw| && list[at + 1] !in {1, 2, 3}
    ensures HearFrom(list, raw, at) == Before(Item(list[at], 0), HearFrom(list, raw, at + 2))
  {
    hide HearFrom, BigEndian, ValueOctets, Before;
    NoSkip(list[at + 1], |list| - at - 2);
    EmptyValue(raw, at + 2);
    HearStep(list, raw, at, 0);
  }

  // ---------- from within a limit ----------

  /** From the length octet of the limit `r`, taken for an id. */
  function FromLength(r: bytes, w: byte): Hearing
    requires 1 <= |r| <= 2
  {
    if |r| == 1 then Entered(Skip(r[0]), w)
    else if Skip(r[0]) == 0 then Before(Item(r[1], 0), Entered(1, w))
    else Entered(Skip(r[0]) - 1, w)
  }

  /** From its first octet, which stands at `at`. */
  function FromLimit(r: bytes, at: nat, raw: bytes, w: byte): Hearing
    requires 1 <= |r| <= 2 && at + 5 <= |raw|
  {
    if |r| == 1 then Before(Item(r[0], 0), Entered(1, w))
    else SkipOctets(r[1], 0); Before(Item(r[0], BigEndian(raw[at + 2..at + 2 + Skip(r[1])])), Entered(Skip(r[1]), w))
  }

  /** From its second octet, or what follows it. */
  function FromSecond(r: bytes, w: byte): Hearing
    requires 1 <= |r| <= 2
  {
    if |r| == 1 then NOTHING else Before(Item(r[1], 0), Entered(1, w))
  }

  /** A limit `r` stands at `at`, its length in front of it and the windows behind it. */
  predicate LimitAt(list: bytes, at: nat, r: bytes, w: byte, u: byte) {
    && 1 <= |r| <= 2 && 1 <= at && at + |r| <= |list|
    && list[at - 1] == Oct(|r|) && list[at..at + |r|] == r
    && WindowsAt(list, at + |r|, w, u)
  }

  lemma LimitOctetsAt(list: bytes, at: nat, r: bytes, w: byte, u: byte)
    requires LimitAt(list, at, r, w, u)
    ensures 1 <= |r| <= 2 && |list| == at + |r| + 12 && list[at - 1] !in {5, 6}
    ensures list[at] == r[0] && (|r| == 2 ==> list[at + 1] == r[1]) && list[at + |r|] == 7
  {
    SmallOctets();
    hide Oct, ParameterList, Windows;
    WindowOctetsAt(list, at + |r|, w, u);
    assert list[at] == list[at..at + |r|][0];
    assert |r| == 2 ==> list[at + 1] == list[at..at + |r|][1];
  }

  lemma HeardFromLength(list: bytes, raw: bytes, at: nat, r: bytes, w: byte, u: byte)
    requires |list| <= |raw| && LimitAt(list, at, r, w, u)
    ensures HearFrom(list, raw, at - 1) == FromLength(r, w)
  {
    hide HearFrom, BigEndian, ValueOctets, WindowsAt, Skip, Entered, Oct;
    LimitOctetsAt(list, at, r, w, u);
    var end, k := at + |r|, Skip(r[0]);
    SkipOctets(r[0], |list| - at - 1);
    HearPast(list, raw, at - 1, k);
    if |r| == 1 {
      WindowEntered(list, raw, end, k, w, u);
    } else if k == 0 {
      StrayAt(list, raw, at + 1);
      WindowEntered(list, raw, end, 1, w, u);
    } else {
      WindowEntered(list, raw, end, k - 1, w, u);
    }
  }

  lemma HeardFromLimit(list: bytes, raw: bytes, at: nat, r: bytes, w: byte, u: byte)
    requires |list| <= |raw| && LimitAt(list, at, r, w, u)
    ensures at + 5 <= |raw| && HearFrom(list, raw, at) == FromLimit(r, at, raw, w)
  {
    hide HearFrom, BigEndian, ValueOctets, WindowsAt, Skip, Entered, Oct, Before;
    LimitOctetsAt(list, at, r, w, u);
    var end := at + |r|;
    if |r| == 1 {
      StrayAt(list, raw, at);
      WindowEntered(list, raw, end, 1, w, u);
    } else {
      SkipOctets(r[1], |list| - at - 2);
      HearStep(list, raw, at, Skip(r[1]));
      WindowEntered(list, raw, end, Skip(r[1]), w, u);
    }
  }

  lemma HeardFromSecond(list: bytes, raw: bytes, at: nat, r: bytes, w: byte, u: byte)
    requires |list| <= |raw| && LimitAt(list, at, r, w, u)
    ensures HearFrom(list, raw, at + 1) == FromSecond(r, w)
  {
    hide HearFrom, BigEndian, ValueOctets, WindowsAt, Oct, Before;
    LimitOctetsAt(list, at, r, w, u);
    if |r| == 1 {
      WindowEntered(list, raw, at + 1, 0, w, u);
    } else {
      StrayAt(list, raw, at + 1);
      WindowEntered(list, raw, at + 2, 1, w, u);
    }
  }

  // ---------- the whole announcement ----------

  /** Two limits in front of the windows, by how many octets the first one makes the walk skip. */
  function HeardOfTwo(t: bytes, r: bytes, raw: bytes, w: byte): Hearing
    requires 1 <= |t| <= 2 && 1 <= |r| <= 2 && 19 + |t| + |r| <= |raw|
  {
    var k, at := Skip(t[0]), 7 + |t|;
    if k + 1 == |t| then Hearing(None, Some(BigEndian(raw[at..at + |r|])))
    else if k == 0 then Before(Item(t[1], 0), FromLength(r, w))
    else if k == |t| then FromLength(r, w)
    else if k == |t| + 1 then FromLimit(r, at, raw, w)
    else FromSecond(r, w)
  }

  /** What the code hears of any offer of limits with the windows behind it. */
  function HeardWithWindows(tx: bv16, rx: bv16, raw: bytes, w: byte): Hearing
    requires |Announce(OfferParameters(tx, rx) + Windows(w, 0))| <= |raw|
  {
    if tx == 128 && rx == 128 then Entered(1, w)
    else if tx == 128 then FromLength(LimitOctets(rx), w)
    else if rx == 128 then FromLength(LimitOctets(tx), w)
    else OfferSize(tx, rx, w, 0); HeardOfTwo(LimitOctets(tx), LimitOctets(rx), raw, w)
  }

  lemma OfferSize(tx: bv16, rx: bv16, w: byte, u: byte)
    ensures
      var n := |ParameterList(OfferParameters(tx, rx) + Windows(w, u))|;
      && |Announce(OfferParameters(tx, rx) + Windows(w, u))| == 3 + n
      && n == 12 + (if tx == 128 then 0 else 2 + |LimitOctets(tx)|) + (if rx == 128 then 0 else 2 + |LimitOctets(rx)|)
  {
    hide Oct, Lo, Hi, Windows;
    WindowOctets(w, u);
    var ps, ws := OfferParameters(tx, rx), Windows(w, u);
    if ps == [] {
      assert ps + ws == ws;
    } else {
      assert (ps + ws)[0] == ps[0] && (ps + ws)[1..] == ps[1..] + ws;
      ListParts(ps + ws);
      if |ps| == 1 {
        assert ps[1..] + ws == ws;
      } else {
        assert (ps[1..] + ws)[0] == ps[1] && (ps[1..] + ws)[1..] == ws;
        ListParts(ps[1..] + ws);
      }
    }
    hide ParameterList;
  }

  /** The header of an announcement, and the first length. */
  lemma HeardBehindHeader(ps: seq<Parameter>, raw: bytes)
    requires ps != [] && ps[0].id !in {1, 2, 3} && |Announce(ps)| <= |raw|
    requires 7 <= |ParameterList(ps)| <= 20
    ensures HearFrom(Announce(ps), raw, 0) == HearFrom(Announce(ps), raw, 4)
  {
    hide *;
    Announced(ps);
    HearHeader(Announce(ps), raw);
    GroupLength(|ParameterList(ps)|);
    UnnamedBefore(Item(Announce(ps)[2], 0), HearFrom(Announce(ps), raw, 4));
  }

  lemma GroupLength(n: nat)
    requires 7 <= n <= 20
    ensures Oct(n) !in {5, 6}
  {
    ValOct(n);
    assert Val(5) == 5 && Val(6) == 6;
    hide Oct;
  }

  lemma UnnamedBefore(item: Item, h: Hearing)
    requires item.id !in {5, 6}
    ensures Before(item, h) == h
  {}

  /** One limit and the windows. */
  lemma HeardOfOne(id: byte, t: bytes, w: byte, u: byte, raw: bytes)
    requires id in {5, 6} && 1 <= |t| <= 2
    requires |Announce([Parameter(id, t)] + Windows(w, u))| <= |raw|
    ensures HearFrom(Announce([Parameter(id, t)] + Windows(w, u)), raw, 0) == FromLength(t, w)
  {
    hide *;
    var ps := [Parameter(id, t)] + Windows(w, u);
    var list := Announce(ps);
    assert ps[0] == Parameter(id, t) && ps[1..] == Windows(w, u);
    WindowOctets(w, u);
    ListParts(ps);
    Announced(ps);
    HeardBehindHeader(ps, raw);
    LimitBehindId(list, t, id, w, u);
    HeardFromLength(list, raw, 5, t, w, u);
  }

  lemma LimitBehindId(list: bytes, t: bytes, id: byte, w: byte, u: byte)
    requires 1 <= |t| <= 2 && 5 + |t| <= |list| && list[4..5 + |t|] == BehindId(Parameter(id, t))
    requires list[5 + |t|..] == ParameterList(Windows(w, u))
    ensures LimitAt(list, 5, t, w, u)
  {
    hide Oct, ParameterList, Windows;
    assert list[4] == list[4..5 + |t|][0];
    assert list[5..5 + |t|] == list[4..5 + |t|][1..];
  }

  /** What stands where with two limits. */
  lemma TwoAnnounced(t: bytes, r: bytes, w: byte, u: byte)
    requires 1 <= |t| <= 2 && 1 <= |r| <= 2
    ensures
      var list, at := Announce([Parameter(5, t), Parameter(6, r)] + Windows(w, u)), 7 + |t|;
      && 7 <= |list| && list[4] == Oct(|t|) && list[5] == t[0] && (|t| == 2 ==> list[6] == t[1])
      && |list| == at + |r| + 12 && list[at - 2] == 6
      && LimitAt(list, at, r, w, u)
  {
    hide *;
    var ps := [Parameter(5, t), Parameter(6, r)] + Windows(w, u);
    assert ps[0] == Parameter(5, t) && ps[1..][0] == Parameter(6, r) && ps[1..][1..] == Windows(w, u);
    WindowOctets(w, u);
    ListParts(ps);
    ListParts(ps[1..]);
    Announced(ps);
    TwoLaid(Announce(ps), t, r, w, u);
  }

  lemma TwoLaid(list: bytes, t: bytes, r: bytes, w: byte, u: byte)
    requires 1 <= |t| <= 2 && 1 <= |r| <= 2 && 5 + |t| <= |list|
    requires list[4..5 + |t|] == BehindId(Parameter(5, t))
    requires list[5 + |t|..] == [6, Oct(|r|)] + r + ParameterList(Windows(w, u))
    ensures list[4] == Oct(|t|) && list[5] == t[0] && (|t| == 2 ==> list[6] == t[1])
    ensures list[5 + |t|] == 6 && LimitAt(list, 7 + |t|, r, w, u)
  {
    hide Oct, ParameterList, Windows;
    var a, b := list[4..5 + |t|], list[5 + |t|..];
    assert list[4] == a[0] && list[5] == a[1] && (|t| == 2 ==> list[6] == a[2]);
    assert list[5 + |t|] == b[0] && list[6 + |t|] == b[1];
    var n := 7 + |t|;
    assert list[n..n + |r|] == b[2..2 + |r|] == r;
    assert list[n + |r|..] == b[2 + |r|..] == ParameterList(Windows(w, u));
  }

  lemma HeardOfBoth(t: bytes, r: bytes, w: byte, u: byte, raw: bytes)
    requires 1 <= |t| <= 2 && 1 <= |r| <= 2
    requires |Announce([Parameter(5, t), Parameter(6, r)] + Windows(w, u))| <= |raw|
    ensures 19 + |t| + |r| <= |raw|
    ensures HearFrom(Announce([Parameter(5, t), Parameter(6, r)] + Windows(w, u)), raw, 0) == HeardOfTwo(t, r, raw, w)
  {
    hide *;
    var ps := [Parameter(5, t), Parameter(6, r)] + Windows(w, u);
    assert ps[0] == Parameter(5, t);
    TwoAnnounced(t, r, w, u);
    Announced(ps);
    AnnouncedSize(ps);
    HeardBehindHeader(ps, raw);
    HeardFromFirst(Announce(ps), raw, t, r, w, u);
  }

  lemma AnnouncedSize(ps: seq<Parameter>)
    ensures |Announce(ps)| == 3 + |ParameterList(ps)|
  {
    hide Oct, ParameterList;
  }

  /** From the length octet of the first limit on. */
  lemma HeardFromFirst(list: bytes, raw: bytes, t: bytes, r: bytes, w: byte, u: byte)
    requires 1 <= |t| <= 2 && 1 <= |r| <= 2 && |list| == 19 + |t| + |r| <= |raw|
    requires list[4] == Oct(|t|) && list[5] == t[0] && (|t| == 2 ==> list[6] == t[1])
    requires list[5 + |t|] == 6 && LimitAt(list, 7 + |t|, r, w, u)
    ensures HearFrom(list, raw, 4) == HeardOfTwo(t, r, raw, w)
  {
    hide HearFrom, BigEndian, ValueOctets, Skip, Oct, FromLength, FromLimit, FromSecond, LimitAt, Before;
    var at, k := 7 + |t|, Skip(t[0]);
    SmallOctets();
    SkipOctets(t[0], |list| - 6);
    HearPast(list, raw, 4, k);
    if k + 1 == |t| {
      InStepAt(list, raw, at, r, w, u);
    } else if k == 0 {
      StrayAt(list, raw, 6);
      HeardFromLength(list, raw, at, r, w, u);
    } else if k == |t| {
      HeardFromLength(list, raw, at, r, w, u);
    } else if k == |t| + 1 {
      HeardFromLimit(list, raw, at, r, w, u);
    } else {
      HeardFromSecond(list, raw, at, r, w, u);
    }
  }

  /** In step, the receive limit is read from the frame. */
  lemma InStepAt(list: bytes, raw: bytes, at: nat, r: bytes, w: byte, u: byte)
    requires |list| <= |raw| && 2 <= at && LimitAt(list, at, r, w, u) && list[at - 2] == 6
    ensures HearFrom(list, raw, at - 2) == Hearing(None, Some(BigEndian(raw[at..at + |r|])))
  {
    hide HearFrom, BigEndian, ValueOctets, WindowsAt, Oct;
    LimitOctetsAt(list, at, r, w, u);
    SmallOctets();
    Lengths(|list| - at);
    HearStep(list, raw, at - 2, |r|);
    WindowEntered(list, raw, at + |r|, 0, w, u);
  }

  /** Any limits, any windows, any frame around them. */
  lemma WindowedOfferHeard(tx: bv16, rx: bv16, w: byte, u: byte, raw: bytes)
    requires |Announce(OfferParameters(tx, rx) + Windows(w, u))| <= |raw|
    ensures |Announce(OfferParameters(tx, rx) + Windows(w, 0))| <= |raw|
    ensures Hear(Items(Announce(OfferParameters(tx, rx) + Windows(w, u)), raw, 0)) == HeardWithWindows(tx, rx, raw, w)
  {
    OfferSize(tx, rx, w, u);
    OfferSize(tx, rx, w, 0);
    LimitSizes(tx);
    LimitSizes(rx);
    hide Announce, Items, HearFrom, FromLength, HeardOfTwo, Entered, LimitOctets, Windows, ParameterList;
    HeardFromIs(Announce(OfferParameters(tx, rx) + Windows(w, u)), raw, 0);
    if tx == 128 && rx == 128 {
      assert OfferParameters(tx, rx) + Windows(w, u) == Windows(w, u);
      HeardOfNone(w, u, raw);
    } else if tx == 128 {
      assert OfferParameters(tx, rx) == [Parameter(6, LimitOctets(rx))];
      HeardOfOne(6, LimitOctets(rx), w, u, raw);
    } else if rx == 128 {
      assert OfferParameters(tx, rx) == [Parameter(5, LimitOctets(tx))];
      HeardOfOne(5, LimitOctets(tx), w, u, raw);
    } else {
      assert OfferParameters(tx, rx) == [Parameter(5, LimitOctets(tx)), Parameter(6, LimitOctets(rx))];
      HeardOfBoth(LimitOctets(tx), LimitOctets(rx), w, u, raw);
    }
  }

  lemma LimitSizes(limit: bv16)
    ensures 1 <= |LimitOctets(limit)| <= 2
  {}

  lemma HeardOfNone(w: byte, u: byte, raw: bytes)
    requires |Announce(Windows(w, u))| <= |raw|
    ensures HearFrom(Announce(Windows(w, u)), raw, 0) == Entered(1, w)
  {
    WindowOctets(w, u);
    hide HearFrom, Entered, ParameterList, Oct;
    var list := Announce(Windows(w, u));
    HeardBehindHeader(Windows(w, u), raw);
    hide Windows;
    assert list[3..] == ParameterList(Windows(w, u));
    WindowEntered(list, raw, 3, 1, w, u);
  }

  /**
   * With the windows behind the limits, the code negotiates as intended iff what it hears caps the
   * proposals as the offer does.
   */
  lemma WindowedOfferIntended(params: HdlcParameters, tx: bv16, rx: bv16, w: byte, u: byte, raw: bytes)
    requires |Announce(OfferParameters(tx, rx) + Windows(w, u))| <= |raw|
    ensures |Announce(OfferParameters(tx, rx) + Windows(w, 0))| <= |raw|
    ensures
      var list, heard := Announce(OfferParameters(tx, rx) + Windows(w, u)), HeardWithWindows(tx, rx, raw, w);
      var limits := Negotiated(params, Items(list, raw, 0));
      && limits == Limits(Limit(params.maxTx, heard.tx), Limit(params.maxRx, heard.rx))
      && (limits == IntendedLimits(params, list)
          <==> SameLimit(params.maxTx, Cap(heard.tx), if tx == 128 then 0xFFFF else tx)
               && SameLimit(params.maxRx, Cap(heard.rx), if rx == 128 then 0xFFFF else rx))
  {
    hide *;
    var ps, ws := OfferParameters(tx, rx), Windows(w, u);
    WindowedOfferHeard(tx, rx, w, u, raw);
    OfferList(tx, rx);
    OfferSaid(tx, rx);
    TailSaysWindows(w, u);
    EncodableBoth(ps, ws);
    AnnouncedIntended(params, ps + ws, raw);
    ItemsOfBoth(ps, ws);
    HearBoth(ItemsOf(ps), ItemsOf(ws));
    OverNothing(Hear(ItemsOf(ps)));
    NegotiatedIs(params, Items(Announce(ps + ws), raw, 0));
  }

  lemma TailSaysWindows(w: byte, u: byte)
    ensures Encodable(Windows(w, u)) && Hear(ItemsOf(Windows(w, u))) == NOTHING
  {
    TailSays(Some((w, u)));
    hide Windows, ItemsOf, Hear;
  }
}
