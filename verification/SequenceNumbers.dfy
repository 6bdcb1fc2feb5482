/** Sequence numbers when client and server keep answering each other's I frames. */
module SequenceNumbers {
  import opened Octets
  import opened Results
  import opened HdlcFrame
  import opened Mirror
  import opened Server
  import opened Hdlc

  /** A frame on its way: one that the serializer writes, or one that a server writes. */
  datatype Leg = FromClient(f: HdlcFrame) | FromServer(wide: bool, r: HdlcFrame)

  /** I frames that arrive: within the length field, and not lost to the header check as written. */
  predicate Arrives(leg: Leg) {
    match leg
    case FromClient(f) => f.cmd == COMMAND_I && Sendable(f)
    case FromServer(wide, r) => r.cmd == RESPONSE_I && Conformant(wide, r) && !Lost(wide, r)
  }

  /** What the other end makes of it: a server reads requests, the parser of the code reads responses. */
  function AsReceived(leg: Leg): Result<HdlcFrame> {
    match leg
    case FromClient(f) => Read(Serialize(f))
    case FromServer(wide, r) => Parse(Response(wide, r))
  }

  /**
   * The client serializes with the numbers it has parsed; a server acknowledges what it has received
   * and goes on where it was acknowledged.
   */
  predicate Answers(a: Leg, b: Leg) {
    && AsReceived(a).Ok?
    && match (a, b)
       case (FromServer(_, _), FromClient(f)) =>
         f.rrr == AsReceived(a).value.rrr && f.sss == AsReceived(a).value.sss
       case (FromClient(_), FromServer(_, r)) =>
         r.rrr == ThreeBits(AsReceived(a).value.sss + 1) && r.sss == AsReceived(a).value.rrr
       case _ => false
  }

  /** The frames of an exchange in the order they are sent, each but the first answering the one before it. */
  ghost predicate Exchange(run: seq<Leg>) {
    && (forall i :: 0 <= i < |run| ==> Arrives(run[i]))
    && forall i, j :: 0 <= i && j == i + 1 < |run| ==> Answers(run[i], run[j])
  }

  /** N(R) and N(S) as the other end reads them from the octets of a frame. */
  function WireReceive(leg: Leg): byte {
    match AsReceived(leg)
    case Ok(r) => r.rrr
    case Err(_) => 0
  }

  function WireSend(leg: Leg): byte {
    match AsReceived(leg)
    case Ok(r) => r.sss
    case Err(_) => 0
  }

  lemma WireNumbers(leg: Leg)
    requires Arrives(leg)
    ensures AsReceived(leg).Ok?
    ensures match leg
      case FromClient(f) => WireReceive(leg) == ThreeBits(f.sss + 1) && WireSend(leg) == ThreeBits(f.rrr)
      case FromServer(_, r) => WireReceive(leg) == r.rrr && WireSend(leg) == r.sss
    ensures ThreeBits(WireReceive(leg)) == WireReceive(leg) && ThreeBits(WireSend(leg)) == WireSend(leg)
  {
    hide Serialize, Read, Sendable, Parse, Response, Lost, ThreeBits, SevenAndSeven;
    match leg
    case FromClient(f) =>
      RequestRoundTrip(f);
      ThreeBitsAgain(f.sss + 1);
      ThreeBitsAgain(f.rrr);
    case FromServer(wide, r) =>
      ResponseRoundTripAsWritten(wide, r);
      ThreeBitsOf(r.rrr);
      ThreeBitsOf(r.sss);
  }

  lemma ThreeBitsAgain(b: byte)
    ensures ThreeBits(ThreeBits(b)) == ThreeBits(b)
  {}

  lemma ThreeBitsOf(b: byte)
    requires b < 8
    ensures ThreeBits(b) == b
  {}

  lemma NextNumber(b: byte)
    ensures Val(ThreeBits(b + 1)) == (Val(ThreeBits(b)) + 1) % 8
  {}

  lemma NumberBound(b: byte)
    ensures Val(ThreeBits(b)) < 8
  {}

  /** In every turn N(R) is one past the N(S) of the frame answered, and N(S) is its N(R). */
  lemma Turn(run: seq<Leg>, i: nat)
    requires Exchange(run) && i + 1 < |run|
    ensures WireReceive(run[i + 1]) == ThreeBits(WireSend(run[i]) + 1)
    ensures WireSend(run[i + 1]) == WireReceive(run[i])
  {
    hide AsReceived, Arrives, ThreeBits;
    assert Answers(run[i], run[i + 1]);
    WireNumbers(run[i]);
    WireNumbers(run[i + 1]);
  }

  /** A station's own frames: every other one. */
  lemma OwnTurn(run: seq<Leg>, i: nat)
    requires Exchange(run) && i + 2 < |run|
    ensures run[i + 2].FromClient? == run[i].FromClient?
    ensures WireSend(run[i + 2]) == ThreeBits(WireSend(run[i]) + 1)
  {
    hide AsReceived, Arrives, ThreeBits, WireSend, WireReceive;
    assert Answers(run[i], run[i + 1]) && Answers(run[i + 1], run[i + 2]);
    Turn(run, i);
    Turn(run, i + 1);
  }

  lemma SendBound(run: seq<Leg>, i: nat)
    requires Exchange(run) && i < |run|
    ensures ThreeBits(WireSend(run[i])) == WireSend(run[i]) && Val(WireSend(run[i])) < 8
  {
    hide AsReceived, ThreeBits, WireSend, WireReceive, Val, Answers;
    assert Arrives(run[i]);
    WireNumbers(run[i]);
    NumberBound(WireSend(run[i]));
    hide Arrives;
  }

  /** Client and server take turns, and each one's N(S) advances by exactly one, modulo 8, with each of its turns. */
  lemma {:induction false} Advance(run: seq<Leg>, i: nat, turns: nat)
    requires Exchange(run) && i + 2 * turns < |run|
    ensures run[i + 2 * turns].FromClient? == run[i].FromClient?
    ensures Val(WireSend(run[i + 2 * turns])) == (Val(WireSend(run[i])) + turns) % 8
    decreases turns
  {
    hide *;
    SendBound(run, i);
    if turns != 0 {
      var j := i + 2 * (turns - 1);
      Advance(run, i, turns - 1);
      OwnTurn(run, j);
      SendBound(run, j);
      NextNumber(WireSend(run[j]));
      NextModulo(Val(WireSend(run[i])), turns - 1);
    }
  }

  lemma NextModulo(x: nat, t: nat)
    ensures ((x + t) % 8 + 1) % 8 == (x + t + 1) % 8
  {}

  /**
   * The client itself never advances: all its I frames say N(R) = 2 and N(S) = 0, which acknowledges
   * a server's last I frame only if that one was numbered 1.
   */
  lemma PinnedNumbers(params: HdlcParameters, data: bytes, last: byte)
    requires Sendable(ClientFrame(COMMAND_I, params, data)) && last < 8
    ensures var leg := FromClient(ClientFrame(COMMAND_I, params, data));
      && WireReceive(leg) == 2 && WireSend(leg) == 0
      && (WireReceive(leg) == ThreeBits(last + 1) <==> last == 1)
  {
    hide WireReceive, WireSend, Sendable, AsReceived;
    WireNumbers(FromClient(ClientFrame(COMMAND_I, params, data)));
  }
}
