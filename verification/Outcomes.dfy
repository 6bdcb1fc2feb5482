/**
 * The outcome of a response to SNRM: for every buffer, by the last items of its list; and for the
 * acknowledgements of a server that announces the lists of `InStep` and `WindowedOffers`.
 */
module Outcomes {
  import opened Octets
  import opened Results
  import opened Fcs
  import opened HdlcFrame
  import opened Hdlc
  import opened ParameterLists
  import opened Negotiation
  import opened InStep
  import opened WindowedOffers
  import Mirror

  // ---------- every buffer ----------

  /** The last two octets as a number: what sixteen bits keep of a value. */
  function LastTwo(s: bytes): bv16 {
    if s == [] then 0 else if |s| == 1 then Join(0, s[0]) else Join(s[|s| - 2], s[|s| - 1])
  }

  lemma LowOfValue(s: bytes)
    ensures Low16(BigEndian(s)) == LastTwo(s)
  {
    var n := |s|;
    if n == 0 {
      CapOf(0);
    } else {
      var x, b := if n == 1 then 0 else BigEndian(s[..n - 1][..n - 2]), s[n - 1];
      LowOfTwo(x, if n == 1 then 0 else s[n - 2], b);
      hide Grow, Low16, Join;
    }
  }

  lemma LowOfTwo(x: bv32, a: byte, b: byte)
    ensures Low16(Grow(Grow(x, a), b)) == Join(a, b)
    ensures Low16(Grow(0, b)) == Join(0, b)
  {}

  /** What negotiation leaves of a proposal: its minimum with the last value of the id, or itself if there is none. */
  ghost predicate Settled(proposed: bv16, items: seq<Item>, id: byte, limit: bv16) {
    && ((forall i :: 0 <= i < |items| ==> items[i].id != id) ==> limit == proposed)
    && (forall k :: LastAt(items, id, k) ==> limit == Min(proposed, Low16(items[k].value)))
  }

  lemma NegotiatedSettles(params: HdlcParameters, items: seq<Item>)
    ensures Settled(params.maxTx, items, 5, Negotiated(params, items).tx)
    ensures Settled(params.maxRx, items, 6, Negotiated(params, items).rx)
  {
    LimitIsFold(params.maxTx, items, 5);
    LimitIsFold(params.maxRx, items, 6);
    hide LastValue, Limit, Min, Low16;
  }

  lemma AcceptedAcknowledges(f: HdlcFrame)
    ensures SnrmAccepted(f) <==> Acknowledges(f)
  {
    assert 3 <= |f.payload| ==> f.payload[..2] == [f.payload[0], f.payload[1]];
  }

  /**
   * For every buffer: one that does not parse is an error, one that does not acknowledge changes nothing,
   * and one that does settles each limit by the last item of its id, in lists of any length.
   */
  lemma OutcomeOfEvery(params: HdlcParameters, b: bytes)
    ensures Parse(b).Err? ==> SnrmOutcome(params, b) == Err(Parse(b).error)
    ensures Parse(b).Ok? && !Acknowledges(Parse(b).value) ==> SnrmOutcome(params, b) == Ok(None)
    ensures Parse(b).Ok? && Acknowledges(Parse(b).value) ==>
      var list, outcome := Parse(b).value.payload, SnrmOutcome(params, b);
      && |list| <= |b| && outcome.Ok? && outcome.value.Some?
      && Settled(params.maxTx, Items(list, b, 0), 5, outcome.value.value.tx)
      && Settled(params.maxRx, Items(list, b, 0), 6, outcome.value.value.rx)
  {
    hide Parse, Negotiated, Items, Settled, SnrmAccepted, Acknowledges;
    match Parse(b)
    case Err(e) =>
    case Ok(f) =>
      PayloadFits(b);
      AcceptedAcknowledges(f);
      NegotiatedSettles(params, Items(f.payload, b, 0));
  }

  // ---------- conformant acknowledgements ----------

  /** The buffer of an acknowledgement that is not lost. */
  predicate Acknowledgement(b: bytes, wide: bool, r: HdlcFrame) {
    Mirror.Conformant(wide, r) && !Mirror.Lost(wide, r) && Acknowledges(r) && b == Mirror.Response(wide, r)
  }

  /** The walk goes over the payload sent and fetches values from the frame around it. */
  lemma AcknowledgedOutcome(params: HdlcParameters, b: bytes, wide: bool, r: HdlcFrame)
    requires Acknowledgement(b, wide, r)
    ensures |r.payload| <= |b|
    ensures SnrmOutcome(params, b) == Ok(Some(Negotiated(params, Items(r.payload, b, 0))))
  {
    hide Mirror.Conformant, Mirror.Lost, Mirror.Response, Mirror.SevenAndSeven, Parse, Negotiated, Items, SnrmAccepted,
         Acknowledges;
    Mirror.ResponseRoundTripAsWritten(wide, r);
    AcceptedAcknowledges(r);
    AsReadAcknowledges(wide, r);
    PayloadFits(b);
  }

  lemma AsReadAcknowledges(wide: bool, r: HdlcFrame)
    ensures SnrmAccepted(Mirror.AsRead(wide, r)) == SnrmAccepted(r)
    ensures Mirror.AsRead(wide, r).payload == r.payload
  {
    hide Mirror.SevenAndSeven;
  }

  /** The octets of an acknowledgement from the eighth on, up to its frame check. */
  lemma AcknowledgementOctets(b: bytes, wide: bool, r: HdlcFrame)
    requires Acknowledgement(b, wide, r)
    ensures
      var check := CheckSequence(Mirror.ResponseOpening(wide, r));
      && 11 <= |b|
      && b[8..|b| - 3] == (if wide then [0x73, Lo(check), Hi(check)] else [Hi(check)]) + r.payload
  {
    hide Mirror.Conformant, Mirror.Lost, Mirror.Response, Mirror.ResponseOpening, CheckSequence, Lo, Hi;
    AcknowledgementParts(wide, r);
    var opening := Mirror.ResponseOpening(wide, r);
    var check := [Lo(CheckSequence(opening)), Hi(CheckSequence(opening))];
    var h := if wide then 8 else 6;
    HeaderCheckAt(b, opening, check, h);
    if wide {
      assert b[8..|b| - 3] == [b[8], b[9], b[10]] + b[11..|b| - 3];
    } else {
      assert b[8..|b| - 3] == [b[8]] + b[9..|b| - 3];
    }
  }

  lemma HeaderCheckAt(b: bytes, opening: bytes, check: bytes, h: nat)
    requires h + 3 <= |b| && |opening| == h && |check| == 2 && b[1..h + 3] == opening + check
    ensures b[h + 1] == check[0] && b[h + 2] == check[1]
  {
    assert b[h + 1] == b[1..h + 3][h] && b[h + 2] == b[1..h + 3][h + 1];
  }

  /** An acknowledgement of a list the walk falls in with, window parameters at its end or not. */
  lemma FallenInOutcome(params: HdlcParameters, b: bytes, wide: bool, r: HdlcFrame, ps: seq<Parameter>,
                        windows: Option<(byte, byte)>)
    requires Acknowledgement(b, wide, r) && r.payload == Announce(ps + Tail(windows))
    requires ps != [] && Encodable(ps) && FallsIn(ps[0]) && AllShort(ps[1..])
    ensures 3 + |ParameterList(ps)| <= |b|
    ensures
      var heard, said := Hear(ReadItems(ps, |ParameterList(ps + Tail(windows))|, b)), Hear(ItemsOf(ps));
      && SnrmOutcome(params, b)
         == Ok(Some(Limits(Limit(params.maxTx, heard.tx), Limit(params.maxRx, heard.rx))))
      && (SnrmOutcome(params, b) == Ok(Some(IntendedLimits(params, r.payload)))
          <==> SameLimit(params.maxTx, Cap(heard.tx), Cap(said.tx))
               && SameLimit(params.maxRx, Cap(heard.rx), Cap(said.rx)))
  {
    hide *;
    AcknowledgedOutcome(params, b, wide, r);
    FallenInIntended(params, ps, windows, b);
  }

  /**
   * An acknowledgement of the usual offer: the transmit limit proposed stays, unless the list has 5 modulo
   * 256 octets, and the receive limit comes from octets of the frame; as intended iff those cap the
   * proposals as the offer does.
   */
  lemma UsualOfferOutcome(params: HdlcParameters, b: bytes, wide: bool, r: HdlcFrame, tx: bytes, rx: bytes,
                          others: seq<Parameter>, windows: Option<(byte, byte)>)
    requires Acknowledgement(b, wide, r) && r.payload == Announce(Usual(tx, rx, others) + Tail(windows))
    requires tx != [] && |tx| == 1 + Skip(tx[0]) && |rx| < 4 && Others(others)
    ensures 7 + |tx| + |rx| <= |b|
    ensures
      var maxTx: bv16 := if Oct(|ParameterList(Usual(tx, rx, others) + Tail(windows))|) == 5 then 0 else 0xFFFF;
      var maxRx := LastTwo(b[7 + |tx|..7 + |tx| + |rx|]);
      && SnrmOutcome(params, b) == Ok(Some(Limits(Min(params.maxTx, maxTx), Min(params.maxRx, maxRx))))
      && (SnrmOutcome(params, b) == Ok(Some(IntendedLimits(params, r.payload)))
          <==> SameLimit(params.maxTx, maxTx, LastTwo(tx)) && SameLimit(params.maxRx, maxRx, LastTwo(rx)))
  {
    hide *;
    AcknowledgedOutcome(params, b, wide, r);
    UsualOfferIntended(params, tx, rx, others, windows, b);
    LowOfValue(tx);
    LowOfValue(rx);
    LowOfValue(b[7 + |tx|..7 + |tx| + |rx|]);
  }

  /** An acknowledgement of any two limits with the window parameters behind them. */
  lemma WindowedOfferOutcome(params: HdlcParameters, b: bytes, wide: bool, r: HdlcFrame, tx: bv16, rx: bv16,
                             w: byte, u: byte)
    requires Acknowledgement(b, wide, r) && r.payload == Announce(OfferParameters(tx, rx) + Windows(w, u))
    ensures |Announce(OfferParameters(tx, rx) + Windows(w, 0))| <= |b|
    ensures
      var heard := HeardWithWindows(tx, rx, b, w);
      && SnrmOutcome(params, b)
         == Ok(Some(Limits(Limit(params.maxTx, heard.tx), Limit(params.maxRx, heard.rx))))
      && (SnrmOutcome(params, b) == Ok(Some(IntendedLimits(params, r.payload)))
          <==> SameLimit(params.maxTx, Cap(heard.tx), if tx == 128 then 0xFFFF else tx)
               && SameLimit(params.maxRx, Cap(heard.rx), if rx == 128 then 0xFFFF else rx))
  {
    hide *;
    AcknowledgedOutcome(params, b, wide, r);
    WindowedOfferIntended(params, tx, rx, w, u, b);
  }

  // ---------- an instance ----------

  /** An acknowledgement that offers 64 for both limits and 1 for both windows. */
  const USUAL: HdlcFrame := HdlcFrame(0x63, 1, 0, 0, 0x3FFF, 1,
    [0x80, 0x81, 0x12, 5, 1, 0x40, 6, 1, 0x40, 7, 4, 0, 0, 0, 1, 8, 4, 0, 0, 0, 1])

  lemma UsualPayload()
    ensures USUAL.payload == Announce(Usual([0x40], [0x40], []) + Tail(Some((1, 1))))
    ensures Oct(|ParameterList(Usual([0x40], [0x40], []) + Tail(Some((1, 1))))|) == 0x12
  {
    hide Oct, ParameterList, Announce, Tail, Windows, Usual;
    WindowOctets(1, 1);
    UsualList(Windows(1, 1));
    var ps := Usual([0x40], [0x40], []) + Windows(1, 1);
    UsualIs(Windows(1, 1));
    assert |ParameterList(ps)| == 18;
    OneAndEighteen();
    AnnounceIs(ps);
    TailIs();
  }

  lemma UsualIs(ws: seq<Parameter>)
    ensures Usual([0x40], [0x40], []) + ws == [Parameter(5, [0x40])] + ([Parameter(6, [0x40])] + ws)
  {}

  lemma TailIs()
    ensures Tail(Some((1, 1))) == Windows(1, 1)
  {}

  lemma AnnounceIs(ps: seq<Parameter>)
    ensures Announce(ps) == [0x80, 0x81, Oct(|ParameterList(ps)|)] + ParameterList(ps)
  {}

  lemma OneAndEighteen()
    ensures Oct(1) == 1 && Oct(18) == 0x12
  {
    OctVal(0x12);
    OctVal(1);
    assert Val(0x12) == 18 && Val(1) == 1;
    hide Oct;
  }

  lemma UsualList(ws: seq<Parameter>)
    ensures ParameterList([Parameter(5, [0x40])] + ([Parameter(6, [0x40])] + ws))
         == [5, 1, 0x40] + ([6, 1, 0x40] + ParameterList(ws))
  {
    OneAndEighteen();
    hide Oct;
    var ps := [Parameter(6, [0x40])] + ws;
    assert ps[0] == Parameter(6, [0x40]) && ps[1..] == ws;
    var qs := [Parameter(5, [0x40])] + ps;
    assert qs[0] == Parameter(5, [0x40]) && qs[1..] == ps;
    assert ParameterList(ps) == [6, 1, 0x40] + ParameterList(ws);
  }

  /** The transmit limit is left alone, and 115 taken for the receive limit. */
  lemma UsualInstance(params: HdlcParameters)
    ensures
      var b := Mirror.Response(true, USUAL);
      && Acknowledgement(b, true, USUAL)
      && SnrmOutcome(params, b) == Ok(Some(Limits(params.maxTx, Min(params.maxRx, 0x73))))
  {
    hide *;
    var b := Mirror.Response(true, USUAL);
    UsualAcknowledges();
    UsualPayload();
    UsualSkips();
    AcknowledgementOctets(b, true, USUAL);
    UsualOfferOutcome(params, b, true, USUAL, [0x40], [0x40], [], Some((1, 1)));
    assert b[8..9] == b[8..|b| - 3][..1] == [0x73];
    LowOfControl();
    Uncapped(params.maxTx);
  }

  lemma UsualSkips()
    ensures Skip(0x40) == 0 && Others([])
  {
    hide AllShort;
    assert AllShort([]) by { NoneLong(); }
  }

  lemma NoneLong()
    ensures AllShort([])
  {}

  lemma LowOfControl()
    ensures LastTwo([0x73]) == 0x73
  {}

  lemma Uncapped(proposed: bv16)
    ensures Min(proposed, 0xFFFF) == proposed
  {}

  lemma UsualAcknowledges()
    ensures Acknowledgement(Mirror.Response(true, USUAL), true, USUAL)
  {
    UsualConforms();
    UsualOpening();
    UsualCheck();
    hide Mirror.Conformant, Mirror.Response, Mirror.ResponseOpening, CheckSequence, Hi;
    assert Mirror.ResponseControl(0x63, 0, 0) == 0x73 by { UsualOctets(); }
    hide Mirror.ResponseControl;
  }

  lemma UsualConforms()
    ensures Mirror.Conformant(true, USUAL) && Acknowledges(USUAL)
  {
    assert USUAL.payload[..2] == [0x80, 0x81];
  }

  lemma UsualOpening()
    ensures Mirror.ResponseOpening(true, USUAL) == [0xA0, 0x21, 0x03, 0x00, 0x02, 0xFE, 0xFF, 0x73]
  {
    UsualOctets();
    hide Mirror.ResponseControl, FormatOctet, Oct, ServerAddress, ClientOctet;
  }

  lemma UsualOctets()
    ensures Mirror.ResponseControl(0x63, 0, 0) == 0x73 && ClientOctet(1) == 0x03
    ensures ServerAddress(1, 0x3FFF) == [0x00, 0x02, 0xFE, 0xFF]
    ensures FormatOctet(33) == 0xA0 && Oct(33) == 0x21
  {
    AcceptedOctets();
    hide *;
    Mirror.SmallFormat(0x21, 33);
  }

  lemma UsualCheck()
    ensures CheckSequence([0xA0, 0x21, 0x03, 0x00, 0x02, 0xFE, 0xFF, 0x73]) == 0x15CF && Hi(0x15CF) == 0x15
  {
    assert OctetStep(0xFFFF, 0xA0) == 0xAA8D && OctetStep(0xAA8D, 0x21) == 0x6FCC
        && OctetStep(0x6FCC, 0x03) == 0x3E94 && OctetStep(0x3E94, 0x00) == 0xD293
        && OctetStep(0xD293, 0x02) == 0x85D2 && OctetStep(0x85D2, 0xFE) == 0xEBEB
        && OctetStep(0xEBEB, 0xFF) == 0x564E && OctetStep(0x564E, 0x73) == 0xEA30;
    hide OctetStep, Feed;
    FeedIsSteps(0xFFFF, [0xA0, 0x21, 0x03, 0x00, 0x02, 0xFE, 0xFF, 0x73]);
    assert Steps(0xD293, [0x02, 0xFE, 0xFF, 0x73]) == 0xEA30;
    assert Steps(0xFFFF, [0xA0, 0x21, 0x03, 0x00, 0x02, 0xFE, 0xFF, 0x73]) == Steps(0xD293, [0x02, 0xFE, 0xFF, 0x73]);
  }
}
