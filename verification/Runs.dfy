/** What every run of the client keeps, and what a whole transaction comes to. */
module Runs {
  import opened Octets
  import opened Results
  import opened HdlcFrame
  import opened Hdlc
  import opened Client
  import Aarq
  import AsWritten
  import Cosem
  import Mirror
  import Negotiation
  import Outcomes
  import Server

  datatype Operation = Connect(cosem: Aarq.CosemParameters) | Disconnect | Get(req: Cosem.Request)

  function Step(params: HdlcParameters, op: Operation, st: State): State {
    match op
    case Connect(cosem) => ConnectStep(params, cosem, st).0
    case Disconnect => DisconnectStep(params, st).0
    case Get(req) => GetStep(params, req, st).0
  }

  function Run(params: HdlcParameters, ops: seq<Operation>, st: State): State
    decreases ops
  {
    if ops == [] then st else Run(params, ops[1..], Step(params, ops[0], st))
  }

  // ---------- every frame written is well formed ----------

  /** What a frame of this client is: readable by a server, rightly addressed, not readable by the client. */
  predicate Proper(params: HdlcParameters, b: bytes) {
    && Server.Read(b).Ok?
    && var f := Server.Read(b).value;
    && f.cmd in {0x83, 0x43, 0x00}
    && f.clientAddress == Mirror.SevenBits(params.clientAddress)
    && f.logicalAddress == Mirror.FourteenBits(params.serverLogicalAddress)
    && f.physicalAddress == Mirror.FourteenBits(params.serverPhysicalAddress)
    && (f.cmd == 0x00 ==> f.payload != [])
    && Parse(b) == Err(InvalidHdlcFrame)
  }

  lemma FrameProper(params: HdlcParameters, cmd: byte, data: bytes)
    requires cmd in {COMMAND_SNRM, COMMAND_DISC, COMMAND_I} && Server.Sendable(ClientFrame(cmd, params, data))
    ensures Proper(params, Serialize(ClientFrame(cmd, params, data)))
  {
    hide Serialize, Server.Read, Parse;
    assert Mirror.Command(cmd);
    Server.RequestRoundTrip(ClientFrame(cmd, params, data));
    Server.NotItsOwnFrame(ClientFrame(cmd, params, data));
  }

  lemma ControlFramesProper(params: HdlcParameters)
    ensures Proper(params, SnrmFrame(params)) && Proper(params, DiscFrame(params))
  {
    ShortParameters(params);
    hide Proper, Serialize, SnrmParameters;
    FrameProper(params, COMMAND_SNRM, SnrmParameters(params));
    FrameProper(params, COMMAND_DISC, []);
  }

  lemma ShortParameters(params: HdlcParameters)
    ensures |SnrmParameters(params)| <= 8
  {}

  /** Data make a proper frame iff they fit the twelve bits of length. */
  lemma DataFrameProper(params: HdlcParameters, data: bytes)
    requires data != []
    ensures Proper(params, DataFrame(params, data)) <==> |data| <= 4080
  {
    hide Serialize, Server.Read, Parse;
    Server.AcceptedIffSendable(ClientFrame(COMMAND_I, params, data));
    if |data| <= 4080 {
      FrameProper(params, COMMAND_I, data);
    }
  }

  predicate AllProper(params: HdlcParameters, frames: seq<bytes>) {
    forall b <- frames :: Proper(params, b)
  }

  /** The frames an operation writes; the association request only after an accepted negotiation. */
  function Writes(params: HdlcParameters, op: Operation, st: State): seq<bytes> {
    match op
    case Connect(cosem) =>
      [SnrmFrame(params)] + (if Negotiates(params, op, st) then [DataFrame(params, Aarq.Aarq(cosem))] else [])
    case Disconnect => [DiscFrame(params)]
    case Get(req) => [DataFrame(params, Cosem.Apdu(Cosem.GET, req))]
  }

  /** The operation comes to write a challenge or request data too long for a frame. */
  predicate Oversize(params: HdlcParameters, op: Operation, st: State) {
    match op
    case Connect(cosem) => Negotiates(params, op, st) && !Aarq.ChallengeWithin(cosem, 4017)
    case Disconnect => false
    case Get(req) => |req.data| > 4067
  }

  lemma AarqNotEmpty(cosem: Aarq.CosemParameters)
    ensures Aarq.Aarq(cosem) != []
  {
    hide Aarq.Content;
  }

  lemma AarqFits(cosem: Aarq.CosemParameters)
    ensures |Aarq.Aarq(cosem)| <= 4080 <==> Aarq.ChallengeWithin(cosem, 4017)
  {
    hide Aarq.Content;
    Aarq.ContentLength(cosem);
  }

  lemma StepWrites(params: HdlcParameters, op: Operation, st: State)
    ensures Step(params, op, st).written == st.written + Writes(params, op, st)
  {
    hide SnrmFrame, DiscFrame, DataFrame, SnrmOutcome, Received, DiscAccepted, Cosem.GetResponse, Cosem.Apdu,
         Aarq.Aarq;
  }

  lemma StepProperIff(params: HdlcParameters, op: Operation, st: State)
    ensures AllProper(params, Writes(params, op, st)) <==> !Oversize(params, op, st)
  {
    hide Proper, SnrmFrame, DiscFrame, DataFrame, Negotiates, Cosem.Apdu, Aarq.Aarq, Aarq.ChallengeWithin;
    ControlFramesProper(params);
    match op
    case Connect(cosem) =>
      AarqNotEmpty(cosem);
      AarqFits(cosem);
      DataFrameProper(params, Aarq.Aarq(cosem));
      ProperPair(params, SnrmFrame(params), DataFrame(params, Aarq.Aarq(cosem)));
      hide AllProper;
    case Disconnect =>
    case Get(req) =>
      Cosem.ApduParts(Cosem.GET, req);
      DataFrameProper(params, Cosem.Apdu(Cosem.GET, req));
  }

  lemma ProperPair(params: HdlcParameters, b: bytes, c: bytes)
    requires Proper(params, b)
    ensures AllProper(params, [b] + []) && (AllProper(params, [b] + [c]) <==> Proper(params, c))
  {
    hide Proper;
    assert c in [b] + [c];
  }

  lemma ProperAppend(params: HdlcParameters, a: seq<bytes>, b: seq<bytes>)
    ensures AllProper(params, a + b) <==> AllProper(params, a) && AllProper(params, b)
  {
    hide Proper;
    assert forall x <- a :: x in a + b;
    assert forall x <- b :: x in a + b;
  }

  /** All frames of a run, in order. */
  function Written(params: HdlcParameters, ops: seq<Operation>, st: State): seq<bytes>
    decreases ops
  {
    if ops == [] then [] else Writes(params, ops[0], st) + Written(params, ops[1..], Step(params, ops[0], st))
  }

  ghost predicate Fitting(params: HdlcParameters, ops: seq<Operation>, st: State)
    decreases ops
  {
    ops != [] ==> !Oversize(params, ops[0], st) && Fitting(params, ops[1..], Step(params, ops[0], st))
  }

  lemma {:induction false} RunWrites(params: HdlcParameters, ops: seq<Operation>, st: State)
    ensures Run(params, ops, st).written == st.written + Written(params, ops, st)
    decreases ops
  {
    hide Step, Writes;
    if ops != [] {
      StepWrites(params, ops[0], st);
      RunWrites(params, ops[1..], Step(params, ops[0], st));
    }
  }

  lemma {:induction false} WrittenProperIff(params: HdlcParameters, ops: seq<Operation>, st: State)
    ensures AllProper(params, Written(params, ops, st)) <==> Fitting(params, ops, st)
    decreases ops
  {
    hide AllProper, Step, Writes, Oversize;
    if ops == [] {
      NoneProper(params);
    } else {
      StepProperIff(params, ops[0], st);
      WrittenProperIff(params, ops[1..], Step(params, ops[0], st));
      ProperAppend(params, Writes(params, ops[0], st), Written(params, ops[1..], Step(params, ops[0], st)));
    }
  }

  /** The frames that a run adds to those already written. */
  function Added(params: HdlcParameters, ops: seq<Operation>, st: State): seq<bytes> {
    RunWrites(params, ops, st);
    Run(params, ops, st).written[|st.written|..]
  }

  lemma AddedIsWritten(params: HdlcParameters, ops: seq<Operation>, st: State)
    ensures Run(params, ops, st).written == st.written + Written(params, ops, st)
    ensures Added(params, ops, st) == Written(params, ops, st)
  {
    hide Run, Written;
    RunWrites(params, ops, st);
  }

  /**
   * In any run, whatever is read, every frame added is proper iff no operation that comes to write
   * data has too much of it; no other circumstance makes the client write a malformed frame.
   */
  lemma RunProperIff(params: HdlcParameters, ops: seq<Operation>, st: State)
    ensures AllProper(params, Added(params, ops, st)) <==> Fitting(params, ops, st)
  {
    hide *;
    AddedIsWritten(params, ops, st);
    WrittenProperIff(params, ops, st);
  }

  // ---------- what a caller can check beforehand ----------

  predicate InBounds(op: Operation) {
    match op
    case Connect(cosem) => Aarq.ChallengeWithin(cosem, 4017)
    case Disconnect => true
    case Get(req) => |req.data| <= 4067
  }

  lemma {:induction false} BoundedFits(params: HdlcParameters, ops: seq<Operation>, st: State)
    requires forall op <- ops :: InBounds(op)
    ensures Fitting(params, ops, st)
    decreases ops
  {
    hide Step, Negotiates, Aarq.ChallengeWithin;
    if ops != [] {
      assert InBounds(ops[0]);
      BoundedFits(params, ops[1..], Step(params, ops[0], st));
    }
  }

  /** A server that accepts every negotiation. */
  ghost predicate Accepting(incoming: seq<bytes>) {
    forall b <- incoming :: b == Mirror.Response(true, Negotiation.ACCEPTED)
  }

  lemma AcceptingStep(params: HdlcParameters, op: Operation, st: State)
    requires Accepting(st.incoming) && 2 <= |st.incoming|
    ensures op.Connect? ==> Negotiates(params, op, st)
    ensures var after := Step(params, op, st).incoming; Accepting(after) && |st.incoming| <= |after| + 2
  {
    hide *;
    AcceptingFirst(params, op, st);
    StepLockstep(params, op, st);
    StepWrites(params, op, st);
    WritesFew(params, op, st);
    AcceptingRest(st.incoming, |Writes(params, op, st)|);
  }

  lemma AcceptingFirst(params: HdlcParameters, op: Operation, st: State)
    requires Accepting(st.incoming) && st.incoming != []
    ensures op.Connect? ==> Negotiates(params, op, st)
  {
    hide Mirror.Response, SnrmOutcome;
    Negotiation.AcceptedInstance(params);
    assert st.incoming[0] in st.incoming;
  }

  lemma AcceptingRest(incoming: seq<bytes>, n: nat)
    requires Accepting(incoming) && n <= 2
    ensures Accepting(Skip(incoming, n)) && |incoming| <= |Skip(incoming, n)| + 2
  {
    hide Mirror.Response;
    if n <= |incoming| {
      assert forall b <- incoming[n..] :: b in incoming;
    }
  }

  lemma WritesFew(params: HdlcParameters, op: Operation, st: State)
    ensures |Writes(params, op, st)| <= 2
  {
    hide Negotiates, SnrmFrame, DiscFrame, DataFrame, Aarq.Aarq, Cosem.Apdu;
  }

  lemma {:induction false} FittingBounded(params: HdlcParameters, ops: seq<Operation>, st: State)
    requires Accepting(st.incoming) && 2 * |ops| <= |st.incoming| && Fitting(params, ops, st)
    ensures forall op <- ops :: InBounds(op)
    decreases ops
  {
    hide Step, Negotiates, Aarq.ChallengeWithin, Accepting;
    if ops != [] {
      AcceptingStep(params, ops[0], st);
      assert InBounds(ops[0]);
      FittingBounded(params, ops[1..], Step(params, ops[0], st));
      assert ops == [ops[0]] + ops[1..];
    }
  }

  /**
   * What a caller can check beforehand: every frame of a run is proper, whatever answers come, iff no
   * challenge and no request data are too long.
   */
  lemma AlwaysProperIff(params: HdlcParameters, ops: seq<Operation>, limits: Limits, written: seq<bytes>)
    ensures (forall incoming :: AllProper(params, Added(params, ops, State(limits, incoming, written))))
      <==> forall op <- ops :: InBounds(op)
  {
    hide AllProper, Added, InBounds;
    if forall op <- ops :: InBounds(op) {
      forall incoming
        ensures AllProper(params, Added(params, ops, State(limits, incoming, written)))
      {
        BoundedProper(params, ops, State(limits, incoming, written));
      }
    }
    if forall incoming :: AllProper(params, Added(params, ops, State(limits, incoming, written))) {
      AcceptingBounds(params, ops, State(limits, Acceptances(2 * |ops|), written));
    }
  }

  lemma BoundedProper(params: HdlcParameters, ops: seq<Operation>, st: State)
    requires forall op <- ops :: InBounds(op)
    ensures AllProper(params, Added(params, ops, st))
  {
    hide *;
    BoundedFits(params, ops, st);
    RunProperIff(params, ops, st);
  }

  lemma AcceptingBounds(params: HdlcParameters, ops: seq<Operation>, st: State)
    requires st.incoming == Acceptances(2 * |ops|) && AllProper(params, Added(params, ops, st))
    ensures forall op <- ops :: InBounds(op)
  {
    hide *;
    RunProperIff(params, ops, st);
    FittingBounded(params, ops, st);
  }

  function Acceptances(n: nat): (incoming: seq<bytes>)
    ensures |incoming| == n && Accepting(incoming)
  {
    seq(n, _ => Mirror.Response(true, Negotiation.ACCEPTED))
  }

  lemma StepUnreadable(params: HdlcParameters, op: Operation, st: State)
    ensures forall b <- Writes(params, op, st) :: Parse(b) == Err(InvalidHdlcFrame)
  {
    hide Parse, Serialize, SnrmParameters, Aarq.Aarq, Cosem.Apdu, Negotiates;
    Server.NotItsOwnFrame(ClientFrame(COMMAND_SNRM, params, SnrmParameters(params)));
    Server.NotItsOwnFrame(ClientFrame(COMMAND_DISC, params, []));
    match op
    case Connect(cosem) => Server.NotItsOwnFrame(ClientFrame(COMMAND_I, params, Aarq.Aarq(cosem)));
    case Get(req) => Server.NotItsOwnFrame(ClientFrame(COMMAND_I, params, Cosem.Apdu(Cosem.GET, req)));
    case Disconnect =>
  }

  lemma {:induction false} WrittenUnreadable(params: HdlcParameters, ops: seq<Operation>, st: State)
    ensures forall b <- Written(params, ops, st) :: Parse(b) == Err(InvalidHdlcFrame)
    decreases ops
  {
    hide Parse, Step, Writes;
    if ops != [] {
      StepUnreadable(params, ops[0], st);
      WrittenUnreadable(params, ops[1..], Step(params, ops[0], st));
    }
  }

  /** In any run at all, no frame added would be accepted by the client's own parser. */
  lemma RunUnreadable(params: HdlcParameters, ops: seq<Operation>, st: State)
    ensures forall b <- Added(params, ops, st) :: Parse(b) == Err(InvalidHdlcFrame)
  {
    hide *;
    AddedIsWritten(params, ops, st);
    WrittenUnreadable(params, ops, st);
  }

  lemma NoneProper(params: HdlcParameters)
    ensures AllProper(params, [])
  {}

  /** The frame of a get request is readable iff it carries at most 4067 data octets. */
  lemma GetFrameIff(params: HdlcParameters, req: Cosem.Request)
    ensures Server.Read(DataFrame(params, Cosem.Apdu(Cosem.GET, req))).Ok? <==> |req.data| <= 4067
  {
    hide Serialize, Server.Read, Cosem.Apdu;
    Cosem.ApduParts(Cosem.GET, req);
    Server.AcceptedIffSendable(ClientFrame(COMMAND_I, params, Cosem.Apdu(Cosem.GET, req)));
  }

  // ---------- one answer is read for every frame written ----------

  function Skip(incoming: seq<bytes>, n: nat): seq<bytes> {
    if n <= |incoming| then incoming[n..] else []
  }

  lemma StepLockstep(params: HdlcParameters, op: Operation, st: State)
    ensures var after := Step(params, op, st);
      && |st.written| < |after.written|
      && after.incoming == Skip(st.incoming, |after.written| - |st.written|)
  {
    hide Serialize, SnrmOutcome, Received, DiscAccepted, Cosem.GetResponse, Cosem.Apdu, Aarq.Aarq;
  }

  /** In any run the answers consumed are as many as the frames written, while there are any. */
  lemma {:induction false} RunLockstep(params: HdlcParameters, ops: seq<Operation>, st: State)
    ensures var after := Run(params, ops, st);
      && |st.written| + |ops| <= |after.written|
      && after.incoming == Skip(st.incoming, |after.written| - |st.written|)
    decreases ops
  {
    hide Step;
    if ops != [] {
      StepLockstep(params, ops[0], st);
      RunLockstep(params, ops[1..], Step(params, ops[0], st));
    }
  }

  // ---------- negotiated limits ----------

  predicate Within(limits: Limits, params: HdlcParameters) {
    limits.tx <= params.maxTx && limits.rx <= params.maxRx
  }

  /** The operation is a connect whose answer to SNRM is accepted. */
  predicate Negotiates(params: HdlcParameters, op: Operation, st: State) {
    op.Connect? && SnrmOutcome(params, Delivered(st.incoming)).Ok?
    && SnrmOutcome(params, Delivered(st.incoming)).value.Some?
  }

  lemma StepLimits(params: HdlcParameters, op: Operation, st: State)
    ensures var after := Step(params, op, st);
      if Negotiates(params, op, st) then Within(after.limits, params) else after.limits == st.limits
  {
    hide Serialize, Parse, Received, Aarq.Aarq, Cosem.Apdu, Negotiated, Within;
    if Negotiates(params, op, st) {
      var b := Delivered(st.incoming);
      PayloadFits(b);
      WithinNegotiated(params, Items(Parse(b).value.payload, b, 0));
      hide Items;
    }
  }

  lemma WithinNegotiated(params: HdlcParameters, items: seq<Item>)
    ensures Within(Negotiated(params, items), params)
  {
    Negotiation.NegotiatedWithin(params, items);
    hide Negotiated;
  }

  lemma {:induction false} RunWithin(params: HdlcParameters, ops: seq<Operation>, st: State)
    requires Within(st.limits, params)
    ensures Within(Run(params, ops, st).limits, params)
    decreases ops
  {
    hide Step, Within, Negotiates;
    if ops != [] {
      StepLimits(params, ops[0], st);
      RunWithin(params, ops[1..], Step(params, ops[0], st));
    }
  }

  lemma {:induction false} RunAppend(params: HdlcParameters, a: seq<Operation>, b: seq<Operation>, st: State)
    ensures Run(params, a + b, st) == Run(params, b, Run(params, a, st))
    decreases a
  {
    hide Step;
    if a == [] {
      assert a + b == b;
    } else {
      assert (a + b)[1..] == a[1..] + b;
      RunAppend(params, a[1..], b, Step(params, a[0], st));
    }
  }

  /** From the first accepted negotiation on, in any run, both limits stay at or below the parameters. */
  lemma LimitsStayWithin(params: HdlcParameters, before: seq<Operation>, op: Operation,
                         after: seq<Operation>, st: State)
    requires Negotiates(params, op, Run(params, before, st))
    ensures Within(Run(params, before + [op] + after, st).limits, params)
  {
    hide Step, Negotiates, Within;
    var middle := Run(params, before, st);
    StepLimits(params, op, middle);
    assert Run(params, [op], middle) == Step(params, op, middle);
    RunAppend(params, before, [op], st);
    RunAppend(params, before + [op], after, st);
    RunWithin(params, after, Step(params, op, middle));
  }

  // ---------- end to end ----------

  /** The server that reads the frame of a get request recovers class, logical name, index and data. */
  lemma GetReachesServer(params: HdlcParameters, req: Cosem.Request)
    requires |req.data| <= 4067
    ensures var r := Server.Read(DataFrame(params, Cosem.Apdu(Cosem.GET, req)));
      r.Ok? && Cosem.ReadApdu(r.value.payload) == Some((Cosem.GET, req))
      && r.value.cmd == 0x00 && r.value.rrr == 2
  {
    hide Serialize, Server.Read, Cosem.Apdu, Cosem.ReadApdu;
    Cosem.ApduParts(Cosem.GET, req);
    Cosem.ApduRoundTrip(Cosem.GET, req);
    Server.RequestRoundTrip(ClientFrame(COMMAND_I, params, Cosem.Apdu(Cosem.GET, req)));
  }

  /** The server that reads the second frame of a connect recovers the association request. */
  lemma AssociationReachesServer(params: HdlcParameters, cosem: Aarq.CosemParameters)
    requires Aarq.ChallengeWithin(cosem, 4017)
    ensures var r := Server.Read(DataFrame(params, Aarq.Aarq(cosem)));
      r.Ok? && r.value.cmd == 0x00 && r.value.payload == Aarq.Aarq(cosem)
  {
    AarqNotEmpty(cosem);
    AarqFits(cosem);
    hide Serialize, Server.Read, Aarq.Aarq, Aarq.ChallengeWithin;
    Server.RequestRoundTrip(ClientFrame(COMMAND_I, params, Aarq.Aarq(cosem)));
  }

  /** Whatever comes back: `get_request` returns a response iff the parser reads a payload that carries it. */
  lemma GetReturnsIff(params: HdlcParameters, req: Cosem.Request, st: State, response: Cosem.Response)
    ensures
      var answer := Parse(Delivered(st.incoming));
      GetStep(params, req, st).1 == Ok(response)
      <==> answer.Ok? && exists x: byte :: answer.value.payload == [0xC4, 0x01, x, response.result] + response.data
    ensures
      var answer, r := Parse(Delivered(st.incoming)), GetStep(params, req, st).1;
      r.Err? ==> r == if answer.Err? then Err(InvalidHdlcFrame) else Err(InvalidCosemFrame)
  {
    hide Serialize, Parse, Cosem.Apdu, Cosem.GetResponse;
    var answer := Parse(Delivered(st.incoming));
    AsWritten.ParseErrors(Delivered(st.incoming));
    if answer.Ok? {
      Cosem.GetResponseIff(answer.value.payload, response);
    }
  }

  /** A conformant get response comes out of `get_request` exactly, unless its frame is lost. */
  lemma GetReturnsResponse(params: HdlcParameters, req: Cosem.Request, st: State, wide: bool, r: HdlcFrame,
                           invokeId: byte, response: Cosem.Response)
    requires Mirror.Conformant(wide, r) && r.cmd == 0x00
    requires r.payload == [0xC4, 0x01, invokeId, response.result] + response.data
    requires Delivered(st.incoming) == Mirror.Response(wide, r)
    ensures GetStep(params, req, st).1 == if Mirror.Lost(wide, r) then Err(InvalidHdlcFrame) else Ok(response)
  {
    hide Serialize, Parse, Mirror.Response, Mirror.Lost, Cosem.Apdu, Cosem.GetResponse, Mirror.Conformant,
         Mirror.SevenAndSeven;
    Mirror.ResponseRoundTripAsWritten(wide, r);
    GetReturnsIff(params, req, st, response);
  }

  /** The response frame of a server that answers get requests with `serve`, its own N(S) being `ns`. */
  function AnswerFrame(serve: Cosem.Request -> Cosem.Response, invokeId: byte, ns: byte, f: HdlcFrame): HdlcFrame {
    var payload := match Cosem.ReadApdu(f.payload)
                   case Some((_, req)) => Cosem.ResponseApdu(invokeId, serve(req))
                   case None => [];
    HdlcFrame(0x00, f.clientAddress, Mirror.ThreeBits(f.sss + 1), ns,
              f.physicalAddress, f.logicalAddress, payload)
  }

  /** The addresses of the server fit the width it answers with. */
  predicate Addressable(params: HdlcParameters, wide: bool) {
    wide || (Mirror.FourteenBits(params.serverLogicalAddress) < 0x80
             && Mirror.FourteenBits(params.serverPhysicalAddress) < 0x80)
  }

  /** A whole transaction: what `get_request` returns is what the server serves for the request made. */
  lemma Transaction(params: HdlcParameters, req: Cosem.Request, st: State, wide: bool,
                    serve: Cosem.Request -> Cosem.Response, invokeId: byte, ns: byte)
    requires |req.data| <= 4067 && |serve(req).data| <= (if wide then 4076 else 4078)
    requires ns < 8 && Addressable(params, wide)
    ensures
      var f := Server.Read(DataFrame(params, Cosem.Apdu(Cosem.GET, req)));
      && f.Ok?
      && var r := AnswerFrame(serve, invokeId, ns, f.value);
      Delivered(st.incoming) == Mirror.Response(wide, r) ==>
        GetStep(params, req, st).1 == if Mirror.Lost(wide, r) then Err(InvalidHdlcFrame) else Ok(serve(req))
  {
    GetReachesServer(params, req);
    var f := Server.Read(DataFrame(params, Cosem.Apdu(Cosem.GET, req))).value;
    var r := AnswerFrame(serve, invokeId, ns, f);
    assert Mirror.Conformant(wide, r) by { AnswerConformant(params, req, wide, serve, invokeId, ns); }
    hide DataFrame, GetStep, Mirror.Lost, Mirror.Conformant, Mirror.Response, Cosem.Apdu, Server.Read;
    if Delivered(st.incoming) == Mirror.Response(wide, r) {
      GetReturnsResponse(params, req, st, wide, r, invokeId, serve(req));
    }
  }

  lemma AnswerConformant(params: HdlcParameters, req: Cosem.Request, wide: bool,
                         serve: Cosem.Request -> Cosem.Response, invokeId: byte, ns: byte)
    requires |req.data| <= 4067 && |serve(req).data| <= (if wide then 4076 else 4078)
    requires ns < 8 && Addressable(params, wide)
    ensures
      var f := Server.Read(DataFrame(params, Cosem.Apdu(Cosem.GET, req)));
      f.Ok? && Mirror.Conformant(wide, AnswerFrame(serve, invokeId, ns, f.value))
  {
    GetReachesServer(params, req);
    Cosem.ApduParts(Cosem.GET, req);
    hide Serialize, Server.Read, Cosem.Apdu, Cosem.ReadApdu, Mirror.SevenBits, Mirror.FourteenBits, Mirror.ThreeBits;
    Server.RequestRoundTrip(ClientFrame(COMMAND_I, params, Cosem.Apdu(Cosem.GET, req)));
    CutToWidth(params.clientAddress, params.serverLogicalAddress, params.serverPhysicalAddress);
  }

  lemma CutToWidth(client: byte, logical: bv16, physical: bv16)
    ensures Mirror.SevenBits(client) < 0x80
    ensures Mirror.FourteenBits(logical) < 0x4000 && Mirror.FourteenBits(physical) < 0x4000
    ensures forall b :: Mirror.ThreeBits(b) < 8
  {}

  // ---------- the dialogues, as a server sees them ----------

  /**
   * A connect writes SNRM with the proposed limits; iff the answer is accepted it takes over the
   * negotiated limits and writes the association request.  An answer that does not parse is an error, one
   * that does not accept gives false; after an accepted one it succeeds iff a frame comes back.
   */
  lemma ConnectDialogue(params: HdlcParameters, cosem: Aarq.CosemParameters, st: State)
    requires Aarq.ChallengeWithin(cosem, 4017)
    ensures
      var (after, r) := ConnectStep(params, cosem, st);
      var n := |st.written|;
      var accepted := Negotiates(params, Operation.Connect(cosem), st);
      && |after.written| == n + (if accepted then 2 else 1)
      && after.written[..n] == st.written
      && Server.Read(after.written[n]).Ok?
      && Server.Read(after.written[n]).value.cmd == 0x83
      && Negotiation.ReadBack(Server.Read(after.written[n]).value.payload) == Limits(params.maxTx, params.maxRx)
      && (accepted ==>
            && Server.Read(after.written[n + 1]).Ok?
            && Server.Read(after.written[n + 1]).value.cmd == 0x00
            && Server.Read(after.written[n + 1]).value.payload == Aarq.Aarq(cosem)
            && after.limits == SnrmOutcome(params, Delivered(st.incoming)).value.value)
      && (!accepted ==> after.limits == st.limits)
    ensures
      var (after, r) := ConnectStep(params, cosem, st);
      var first, second := Parse(Delivered(st.incoming)), Parse(Delivered(Later(st.incoming)));
      var accepted := first.Ok? && Negotiation.Acknowledges(first.value);
      && Negotiates(params, Operation.Connect(cosem), st) == accepted
      && (first.Err? ==> r == Err(InvalidHdlcFrame))
      && (first.Ok? && !accepted ==> r == Ok(false))
      && (accepted ==> r == if second.Err? then Err(InvalidHdlcFrame) else Ok(true))
  {
    Negotiation.SnrmReachesServer(params);
    AssociationReachesServer(params, cosem);
    ConnectWrites(params, cosem, st);
    Outcomes.OutcomeOfEvery(params, Delivered(st.incoming));
    AsWritten.ParseErrors(Delivered(st.incoming));
    AsWritten.ParseErrors(Delivered(Later(st.incoming)));
    hide Outcomes.Settled, Items, Negotiation.Acknowledges, Negotiated, SnrmAccepted;
    hide Serialize, Server.Read, Parse, SnrmOutcome, SnrmParameters, Negotiation.ReadBack, Aarq.Aarq, Negotiates,
         ConnectStep, Aarq.ChallengeWithin;
  }

  lemma ConnectWrites(params: HdlcParameters, cosem: Aarq.CosemParameters, st: State)
    ensures
      var (after, r) := ConnectStep(params, cosem, st);
      var frames := [SnrmFrame(params), DataFrame(params, Aarq.Aarq(cosem))];
      if Negotiates(params, Operation.Connect(cosem), st) then
        && after.written == st.written + frames
        && after.limits == SnrmOutcome(params, Delivered(st.incoming)).value.value
        && r == (match Parse(Delivered(Later(st.incoming))) case Err(e) => Err(e) case Ok(_) => Ok(true))
      else
        && after.written == st.written + frames[..1] && after.limits == st.limits
        && r == (match SnrmOutcome(params, Delivered(st.incoming)) case Err(e) => Err(e) case Ok(_) => Ok(false))
  {
    hide SnrmFrame, DataFrame, Parse, SnrmOutcome, Aarq.Aarq;
  }

  /** Whatever comes back: `disconnect` returns true iff the parser reads the command UA, else false or an error. */
  lemma DisconnectReturns(params: HdlcParameters, st: State)
    ensures
      var answer := Parse(Delivered(st.incoming));
      DisconnectStep(params, st).1 == if answer.Err? then Err(InvalidHdlcFrame) else Ok(answer.value.cmd == 0x63)
  {
    hide Serialize, Parse;
    AsWritten.ParseErrors(Delivered(st.incoming));
  }

  /** A disconnect writes DISC, and returns true iff an acknowledgement comes back that is not lost. */
  lemma DisconnectDialogue(params: HdlcParameters, st: State, wide: bool, r: HdlcFrame)
    requires Mirror.Conformant(wide, r) && Delivered(st.incoming) == Mirror.Response(wide, r)
    ensures
      var (after, result) := DisconnectStep(params, st);
      && result == (if Mirror.Lost(wide, r) then Err(InvalidHdlcFrame) else Ok(r.cmd == 0x63))
      && after.limits == st.limits
      && |after.written| == |st.written| + 1 && after.written[..|st.written|] == st.written
      && Server.Read(after.written[|st.written|]).Ok?
      && Server.Read(after.written[|st.written|]).value.cmd == 0x43
      && Server.Read(after.written[|st.written|]).value.payload == []
  {
    hide Serialize, Server.Read, Parse, Mirror.Response, Mirror.Lost, Mirror.Conformant, Mirror.SevenAndSeven;
    Mirror.ResponseRoundTripAsWritten(wide, r);
    Server.RequestRoundTrip(ClientFrame(COMMAND_DISC, params, []));
  }
}
