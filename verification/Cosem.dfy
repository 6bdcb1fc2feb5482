/** COSEM requests and responses, and a server that reads the requests. */
module Cosem {
  import opened Octets
  import opened Results
  import opened DataType

  type LogicalName = s: bytes | |s| == 6 witness [0, 0, 0, 0, 0, 0]

  datatype Request = Request(classId: bv16, logicalName: LogicalName, index: byte, data: bytes)

  datatype Response = Response(result: byte, data: bytes)

  datatype Service = GET | SET | ACTION

  const GET_REQUEST: byte := 192
  const SET_REQUEST: byte := 193
  const ACTION_REQUEST: byte := 195
  const GET_RESPONSE: byte := 196

  /** High priority, confirmed, invoke id 1. */
  const INVOKE_ID: byte := 0xC1

  function Tag(service: Service): byte {
    match service
    case GET => GET_REQUEST
    case SET => SET_REQUEST
    case ACTION => ACTION_REQUEST
  }

  function Descriptor(req: Request): bytes {
    [INVOKE_ID, Hi(req.classId), Lo(req.classId)] + req.logicalName + [req.index]
  }

  /** The octet before the data: set requests carry their value without one that says so. */
  function Selector(service: Service, req: Request): byte {
    if service == SET || req.data == [] then 0 else 1
  }

  function Apdu(service: Service, req: Request): bytes {
    [Tag(service), 1] + Descriptor(req) + [Selector(service, req)] + req.data
  }

  method SerializeInvokeIdAndCosemDescriptor(buffer: ByteVector, req: Request)
    modifies buffer
    ensures buffer.octets == old(buffer.octets) + Descriptor(req)
  {
    hide Hi, Lo;
    buffer.PushBack(INVOKE_ID);
    buffer.PushBack(Hi(req.classId));
    buffer.PushBack(Lo(req.classId));
    buffer.Append(req.logicalName);
    buffer.PushBack(req.index);
  }

  method SerializeGetRequest(req: Request) returns (r: bytes)
    ensures r == Apdu(GET, req)
  {
    hide Descriptor;
    var buffer := new ByteVector();
    buffer.PushBack(GET_REQUEST);
    buffer.PushBack(1);
    SerializeInvokeIdAndCosemDescriptor(buffer, req);
    buffer.PushBack(if req.data == [] then 0 else 1);
    buffer.Append(req.data);
    return buffer.octets;
  }

  method SerializeSetRequest(req: Request) returns (r: bytes)
    ensures r == Apdu(SET, req)
  {
    hide Descriptor;
    var buffer := new ByteVector();
    buffer.PushBack(SET_REQUEST);
    buffer.PushBack(1);
    SerializeInvokeIdAndCosemDescriptor(buffer, req);
    buffer.PushBack(0);
    buffer.Append(req.data);
    return buffer.octets;
  }

  method SerializeActionRequest(req: Request) returns (r: bytes)
    ensures r == Apdu(ACTION, req)
  {
    hide Descriptor;
    var buffer := new ByteVector();
    buffer.PushBack(ACTION_REQUEST);
    buffer.PushBack(1);
    SerializeInvokeIdAndCosemDescriptor(buffer, req);
    buffer.PushBack(if req.data == [] then 0 else 1);
    buffer.Append(req.data);
    return buffer.octets;
  }

  // ---------- a server that reads requests ----------

  function ServiceOf(tag: byte): Option<Service> {
    if tag == 0xC0 then Some(GET)
    else if tag == 0xC1 then Some(SET)
    else if tag == 0xC3 then Some(ACTION)
    else None
  }

  function ReadApdu(s: bytes): Option<(Service, Request)> {
    if |s| < 13 || s[1] != 1 || s[2] != 0xC1 then None
    else
      match ServiceOf(s[0])
      case None => None
      case Some(service) =>
        var data := s[13..];
        var selector := if service == SET || data == [] then 0 else 1;
        if s[12] != selector then None
        else Some((service, Request(Join(s[3], s[4]), s[5..11], s[11], data)))
  }

  lemma ApduParts(service: Service, req: Request)
    ensures var s := Apdu(service, req);
      && |s| == 13 + |req.data|
      && s[0] == Tag(service) && s[1] == 1 && s[2] == INVOKE_ID
      && s[3] == Hi(req.classId) && s[4] == Lo(req.classId)
      && s[5..11] == req.logicalName && s[11] == req.index
      && s[12] == Selector(service, req) && s[13..] == req.data
  {
    hide Hi, Lo, Tag, Selector;
  }

  /** The server recovers the service and every field of every request. */
  lemma ApduRoundTrip(service: Service, req: Request)
    ensures ReadApdu(Apdu(service, req)) == Some((service, req))
  {
    ApduParts(service, req);
    JoinSplit(req.classId);
    hide Apdu, Hi, Lo, Join;
  }

  /** What the server accepts is exactly what the client can write. */
  lemma ApduCanonical(s: bytes)
    requires ReadApdu(s).Some?
    ensures var (service, req) := ReadApdu(s).value; Apdu(service, req) == s
  {
    SplitJoin(s[3], s[4]);
    hide Hi, Lo, Join;
    var (service, req) := ReadApdu(s).value;
    assert s == [s[0], s[1]] + [s[2], s[3], s[4]] + s[5..11] + [s[11]] + [s[12]] + s[13..];
  }

  // ---------- responses ----------

  function GetResponse(data: bytes): Result<Response> {
    if |data| < 4 || data[0] != GET_RESPONSE || data[1] != 1 then Err(InvalidCosemFrame)
    else Ok(Response(data[3], data[4..]))
  }

  method ParseGetResponse(data: bytes) returns (r: Result<Response>)
    ensures r == GetResponse(data)
  {
    if |data| < 4 || data[0] != GET_RESPONSE || data[1] != 1 {
      return Err(InvalidCosemFrame);
    }
    var response := Response(data[3], []);
    var begin, end := 4, |data|;
    if end > begin {
      response := response.(data := response.data + data[begin..end]);
    }
    assert response.data == data[4..];
    return Ok(response);
  }

  function ResponseApdu(invokeId: byte, response: Response): bytes {
    [0xC4, 0x01, invokeId, response.result] + response.data
  }

  /** The client accepts exactly the normal get responses, and returns what they carry; the rest is an error. */
  lemma GetResponseIff(s: bytes, response: Response)
    ensures GetResponse(s) == Ok(response) <==> exists x: byte :: s == [0xC4, 0x01, x, response.result] + response.data
    ensures GetResponse(s).Err? ==> GetResponse(s) == Err(InvalidCosemFrame)
  {
    if GetResponse(s) == Ok(response) {
      assert s == ResponseApdu(s[2], response);
    }
    if x: byte :| s == ResponseApdu(x, response) {
      assert s[4..] == response.data;
    }
  }
}
