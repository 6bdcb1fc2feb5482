/** The client: connect, get and disconnect over a serial line, and what every run of them keeps. */
module Client {
  import opened Octets
  import opened Results
  import opened HdlcFrame
  import opened Hdlc
  import Aarq
  import Cosem

  /** A serial line: what each read will deliver, nothing once that runs out, and all that was written. */
  class Serial {
    var incoming: seq<bytes>
    var written: seq<bytes>

    constructor (incoming: seq<bytes>)
      ensures this.incoming == incoming && written == []
    {
      this.incoming := incoming;
      written := [];
    }

    method Write(buffer: bytes)
      modifies this`written
      ensures written == old(written) + [buffer]
    {
      written := written + [buffer];
    }

    method Read() returns (buffer: bytes)
      modifies this`incoming
      ensures buffer == Delivered(old(incoming)) && incoming == Later(old(incoming))
    {
      if incoming == [] { return []; }
      buffer := incoming[0];
      incoming := incoming[1..];
    }
  }

  function Delivered(incoming: seq<bytes>): bytes {
    if incoming == [] then [] else incoming[0]
  }

  function Later(incoming: seq<bytes>): seq<bytes> {
    if incoming == [] then [] else incoming[1..]
  }

  // ---------- one operation as a step of the state ----------

  datatype State = State(limits: Limits, incoming: seq<bytes>, written: seq<bytes>)

  function Wrote(st: State, frame: bytes): State {
    st.(written := st.written + [frame], incoming := Later(st.incoming))
  }

  function SnrmFrame(params: HdlcParameters): bytes {
    Serialize(ClientFrame(COMMAND_SNRM, params, SnrmParameters(params)))
  }

  function DiscFrame(params: HdlcParameters): bytes {
    Serialize(ClientFrame(COMMAND_DISC, params, []))
  }

  function DataFrame(params: HdlcParameters, data: bytes): bytes {
    Serialize(ClientFrame(COMMAND_I, params, data))
  }

  /** SNRM out and its answer in; on acceptance the association request out and any frame in. */
  function ConnectStep(params: HdlcParameters, cosem: Aarq.CosemParameters, st: State): (State, Result<bool>) {
    var st1 := Wrote(st, SnrmFrame(params));
    match SnrmOutcome(params, Delivered(st.incoming))
    case Err(e) => (st1, Err(e))
    case Ok(None) => (st1, Ok(false))
    case Ok(Some(limits)) =>
      var st2 := Wrote(st1, DataFrame(params, Aarq.Aarq(cosem))).(limits := limits);
      match Received(Delivered(st1.incoming))
      case Err(e) => (st2, Err(e))
      case Ok(_) => (st2, Ok(true))
  }

  function DisconnectStep(params: HdlcParameters, st: State): (State, Result<bool>) {
    (Wrote(st, DiscFrame(params)), DiscAccepted(Delivered(st.incoming)))
  }

  function GetStep(params: HdlcParameters, req: Cosem.Request, st: State): (State, Result<Cosem.Response>) {
    var st1 := Wrote(st, DataFrame(params, Cosem.Apdu(Cosem.GET, req)));
    match Received(Delivered(st.incoming))
    case Err(e) => (st1, Err(e))
    case Ok(payload) => (st1, Cosem.GetResponse(payload))
  }

  class CosemHdlcClient {
    const params: HdlcParameters
    const ctx: HdlcContext

    constructor (params: HdlcParameters)
      ensures this.params == params && fresh(ctx)
      ensures ctx.maxTx == 128 && ctx.maxRx == 128
    {
      this.params := params;
      ctx := new HdlcContext();
    }

    ghost function At(serial: Serial): State
      reads ctx, serial
    {
      State(Limits(ctx.maxTx, ctx.maxRx), serial.incoming, serial.written)
    }

    method Connect(serial: Serial, cosem: Aarq.CosemParameters) returns (r: Result<bool>)
      modifies ctx`maxTx, ctx`maxRx, serial
      ensures (At(serial), r) == old(ConnectStep(params, cosem, At(serial)))
    {
      hide SnrmOutcome, Serialize, Received, Aarq.Aarq;
      var frame := SerializeSnrm(params);
      serial.Write(frame);
      var reply := serial.Read();
      var accepted := ParseSnrmResponse(params, ctx, reply);
      if accepted.Err? { return accepted; }
      if !accepted.value { return Ok(false); }
      var request := Aarq.SerializeAarq(cosem);
      frame := SerializeData(params, request);
      serial.Write(frame);
      reply := serial.Read();
      var answer := ParseData(reply);
      if answer.Err? { return Err(answer.error); }
      return Ok(true);  // any association response counts as accepted
    }

    method Disconnect(serial: Serial) returns (r: Result<bool>)
      modifies serial
      ensures (At(serial), r) == old(DisconnectStep(params, At(serial)))
    {
      hide Serialize, DiscAccepted;
      var frame := SerializeDisc(params);
      serial.Write(frame);
      var reply := serial.Read();
      r := ParseDiscResponse(reply);
    }

    method GetRequest(serial: Serial, req: Cosem.Request) returns (r: Result<Cosem.Response>)
      modifies serial
      ensures (At(serial), r) == old(GetStep(params, req, At(serial)))
    {
      hide Serialize, Received, Cosem.Apdu, Cosem.GetResponse;
      var apdu := Cosem.SerializeGetRequest(req);
      var frame := SerializeData(params, apdu);
      serial.Write(frame);
      var reply := serial.Read();
      var payload := ParseData(reply);
      if payload.Err? { return Err(payload.error); }
      r := Cosem.ParseGetResponse(payload.value);
    }
  }
}
