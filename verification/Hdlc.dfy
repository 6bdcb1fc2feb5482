/** The connection layer: frames of the client, and the negotiation of information field lengths. */
module Hdlc {
  import opened Octets
  import opened Results
  import opened HdlcFrame

  datatype HdlcParameters = HdlcParameters(
    clientAddress: byte,
    serverLogicalAddress: bv16,
    serverPhysicalAddress: bv16,
    maxTx: bv16,
    maxRx: bv16)

  class HdlcContext {
    var rxSss: byte
    var txSss: byte
    var maxTx: bv16
    var maxRx: bv16

    constructor ()
      ensures rxSss == 0 && txSss == 0 && maxTx == 128 && maxRx == 128
    {
      rxSss, txSss := 0, 0;
      maxTx, maxRx := 128, 128;
    }
  }

  // ---------- frames of the client ----------

  /** Every frame of the client carries the same numbers: the last N(S) seen is taken to be 1. */
  function ClientFrame(cmd: byte, params: HdlcParameters, data: bytes): HdlcFrame {
    HdlcFrame(cmd, params.clientAddress, 0, 1, params.serverPhysicalAddress, params.serverLogicalAddress, data)
  }

  method GetFrame(cmd: byte, params: HdlcParameters, data: bytes) returns (buffer: bytes)
    ensures buffer == Serialize(ClientFrame(cmd, params, data))
  {
    var frame := HdlcFrame(cmd, params.clientAddress, 0, 1, params.serverPhysicalAddress,
                           params.serverLogicalAddress, []);
    frame := frame.(payload := frame.payload + data);
    assert [] + data == data;
    buffer := HdlcFrameSerialize(frame);
  }

  /** One proposed limit: nothing for the default 128, one octet below it, two above. */
  function ParameterItem(id: byte, limit: bv16): bytes {
    if limit < 128 then [id, 1, Lo(limit)]
    else if limit > 128 then [id, 2, Hi(limit), Lo(limit)]
    else []
  }

  function SnrmParameters(params: HdlcParameters): bytes {
    ParameterItem(5, params.maxTx) + ParameterItem(6, params.maxRx)
  }

  method SerializeSnrm(params: HdlcParameters) returns (buffer: bytes)
    ensures buffer == Serialize(ClientFrame(COMMAND_SNRM, params, SnrmParameters(params)))
  {
    hide Lo, Hi;
    var temp: bytes := [];
    if params.maxTx < 128 {
      temp := temp + [0x05];
      temp := temp + [1];
      temp := temp + [Lo(params.maxTx)];
    } else if params.maxTx > 128 {
      temp := temp + [0x05];
      temp := temp + [2];
      temp := temp + [Hi(params.maxTx)];
      temp := temp + [Lo(params.maxTx)];
    }
    assert temp == ParameterItem(5, params.maxTx);
    if params.maxRx < 128 {
      temp := temp + [0x06];
      temp := temp + [1];
      temp := temp + [Lo(params.maxRx)];
    } else if params.maxRx > 128 {
      temp := temp + [0x06];
      temp := temp + [2];
      temp := temp + [Hi(params.maxRx)];
      temp := temp + [Lo(params.maxRx)];
    }
    assert temp == SnrmParameters(params);
    buffer := GetFrame(COMMAND_SNRM, params, temp);
  }

  method SerializeDisc(params: HdlcParameters) returns (buffer: bytes)
    ensures buffer == Serialize(ClientFrame(COMMAND_DISC, params, []))
  {
    buffer := GetFrame(COMMAND_DISC, params, []);
  }

  method SerializeData(params: HdlcParameters, data: bytes) returns (buffer: bytes)
    ensures buffer == Serialize(ClientFrame(COMMAND_I, params, data))
  {
    buffer := GetFrame(COMMAND_I, params, data);
  }

  /** The payload of a received frame. */
  function Received(buffer: bytes): Result<bytes> {
    match Parse(buffer)
    case Ok(frame) => Ok(frame.payload)
    case Err(e) => Err(e)
  }

  method ParseData(buffer: bytes) returns (r: Result<bytes>)
    ensures r == Received(buffer)
  {
    var parsed := HdlcFrameParse(buffer);
    match parsed
    case Ok(frame) => return Ok(frame.payload);
    case Err(e) => return Err(e);
  }

  function DiscAccepted(buffer: bytes): Result<bool> {
    match Parse(buffer)
    case Ok(frame) => Ok(frame.cmd == RESPONSE_UA)
    case Err(e) => Err(e)
  }

  method ParseDiscResponse(buffer: bytes) returns (r: Result<bool>)
    ensures r == DiscAccepted(buffer)
  {
    var parsed := HdlcFrameParse(buffer);
    match parsed
    case Ok(frame) => return Ok(frame.cmd == RESPONSE_UA);
    case Err(e) => return Err(e);
  }

  // ---------- parameter lists ----------

  datatype Item = Item(id: byte, value: bv32)

  /** How many value octets an item takes: its length if below four and available, none from four up. */
  function ValueOctets(len: byte, remaining: nat): (n: nat)
    ensures n <= 3 && n <= remaining
  {
    var wanted := if len == 0 then 0 else if len == 1 then 1 else if len == 2 then 2 else if len == 3 then 3 else 0;
    if wanted <= remaining then wanted else remaining
  }

  /** The items of `list` from `offset`, with the values fetched at the same offsets of `raw`. */
  function Items(list: bytes, raw: bytes, offset: nat): seq<Item>
    requires |list| <= |raw|
    decreases |list| - offset
  {
    if offset + 1 < |list| then
      var n := ValueOctets(list[offset + 1], |list| - offset - 2);
      [Item(list[offset], BigEndian(raw[offset + 2..offset + 2 + n]))] + Items(list, raw, offset + 2 + n)
    else []
  }

  /** The value of the last item with an id. */
  function LastValue(items: seq<Item>, id: byte): Option<bv32> {
    if items == [] then None
    else
      var last := items[|items| - 1];
      if last.id == id then Some(last.value) else LastValue(items[..|items| - 1], id)
  }

  function Low16(value: bv32): bv16 {
    (value & 0xFFFF) as bv16
  }

  function Min(a: bv16, b: bv16): bv16 {
    if a <= b then a else b
  }

  /** A limit after negotiation: the proposal, unless an item replaced it by the minimum of both. */
  function Limit(proposed: bv16, value: Option<bv32>): bv16 {
    match value
    case None => proposed
    case Some(v) => Min(proposed, Low16(v))
  }

  datatype Limits = Limits(tx: bv16, rx: bv16)

  function Negotiated(params: HdlcParameters, items: seq<Item>): Limits {
    Limits(Limit(params.maxTx, LastValue(items, 5)), Limit(params.maxRx, LastValue(items, 6)))
  }

  predicate SnrmAccepted(frame: HdlcFrame) {
    && 3 <= |frame.payload| && frame.payload[0] == 0x80 && frame.payload[1] == 0x81
    && frame.cmd == RESPONSE_UA
  }

  /** What a response to SNRM does to the context: nothing, or the limits it leaves there. */
  function SnrmOutcome(params: HdlcParameters, buffer: bytes): Result<Option<Limits>> {
    match Parse(buffer)
    case Err(e) => Err(e)
    case Ok(frame) =>
      PayloadFits(buffer);
      if SnrmAccepted(frame) then Ok(Some(Negotiated(params, Items(frame.payload, buffer, 0)))) else Ok(None)
  }

  lemma PayloadFits(buffer: bytes)
    requires Parse(buffer).Ok?
    ensures |Parse(buffer).value.payload| <= |buffer|
  {
    hide BigEndian, LogicalOf, PhysicalOf, CommandOf, ReceiveNumber, SendNumber;
  }

  method ParseSnrmResponse(params: HdlcParameters, ctx: HdlcContext, buffer: bytes) returns (r: Result<bool>)
    modifies ctx`maxTx, ctx`maxRx
    ensures
      match SnrmOutcome(params, buffer)
      case Err(e) => r == Err(e) && unchanged(ctx)
      case Ok(None) => r == Ok(false) && unchanged(ctx)
      case Ok(Some(limits)) => r == Ok(true) && ctx.maxTx == limits.tx && ctx.maxRx == limits.rx
  {
    hide Parse, Negotiated;
    var parsed := HdlcFrameParse(buffer);
    if parsed.Err? { return Err(parsed.error); }
    var frame := parsed.value;
    PayloadFits(buffer);
    if |frame.payload| == 0 { return Ok(false); }
    if |frame.payload| < 3 || frame.payload[0] != 0x80 || frame.payload[1] != 0x81 { return Ok(false); }
    if frame.cmd != RESPONSE_UA { return Ok(false); }
    Negotiate(params, ctx, frame.payload, buffer);
    return Ok(true);
  }

  /** The outer loop: every item in turn, the last one of an id deciding. */
  method Negotiate(params: HdlcParameters, ctx: HdlcContext, list: bytes, raw: bytes)
    requires |list| <= |raw|
    modifies ctx`maxTx, ctx`maxRx
    ensures Limits(ctx.maxTx, ctx.maxRx) == Negotiated(params, Items(list, raw, 0))
  {
    hide BigEndian, Low16, Min, ValueOctets, Items, LastValue;
    NoLastValue();
    ctx.maxRx := params.maxRx;
    ctx.maxTx := params.maxTx;
    var offset := 0;
    ghost var done: seq<Item> := [];
    while offset + 1 < |list|
      invariant 0 <= offset <= |list|
      invariant done + Items(list, raw, offset) == Items(list, raw, 0)
      invariant ctx.maxTx == Limit(params.maxTx, LastValue(done, 5))
      invariant ctx.maxRx == Limit(params.maxRx, LastValue(done, 6))
      decreases |list| - offset
    {
      ItemsFrom(list, raw, offset);
      ghost var item, rest := Items(list, raw, offset)[0], Items(list, raw, offset)[1..];
      var id := list[offset];
      offset := offset + 1;
      var len := list[offset];
      offset := offset + 1;
      var value;
      value, offset := FetchValue(list, raw, len, offset);
      assert item == Item(id, value) && rest == Items(list, raw, offset);
      LastOf(done, item);
      assert done + ([item] + rest) == (done + [item]) + rest;
      done := done + [item];
      match id
      case 5 => ctx.maxTx := Min(params.maxTx, Low16(value));
      case 6 => ctx.maxRx := Min(params.maxRx, Low16(value));
      case _ =>
    }
    NoItems(list, raw, offset);
    assert done == Items(list, raw, 0);
  }

  lemma ItemsFrom(list: bytes, raw: bytes, offset: nat)
    requires |list| <= |raw| && offset + 1 < |list|
    ensures
      var n := ValueOctets(list[offset + 1], |list| - offset - 2);
      Items(list, raw, offset)
        == [Item(list[offset], BigEndian(raw[offset + 2..offset + 2 + n]))] + Items(list, raw, offset + 2 + n)
  {
    hide BigEndian, ValueOctets;
  }

  lemma NoItems(list: bytes, raw: bytes, offset: nat)
    requires |list| <= |raw| && |list| <= offset + 1
    ensures Items(list, raw, offset) == []
  {}

  lemma NoLastValue()
    ensures forall id :: LastValue([], id) == None
  {}

  lemma LastOf(items: seq<Item>, item: Item)
    ensures forall id ::
      LastValue(items + [item], id) == if item.id == id then Some(item.value) else LastValue(items, id)
  {
    assert (items + [item])[..|items|] == items;
  }

  /** The inner loop: the value octets of one item, taken from `raw`. */
  method FetchValue(list: bytes, raw: bytes, length: byte, start: nat) returns (value: bv32, offset: nat)
    requires start <= |list| <= |raw|
    ensures offset == start + ValueOctets(length, |list| - start)
    ensures value == BigEndian(raw[start..offset])
  {
    hide BigEndian;
    var len := length;
    offset, value := start, 0;
    EmptyValue(raw, start);
    while len < 4 && offset < |list| && len != 0
      invariant start <= offset <= |list|
      invariant value == BigEndian(raw[start..offset])
      invariant len >= 4 ==> len == length && offset == start
      invariant len < 4 ==> offset + ValueOctets(len, |list| - offset) == start + ValueOctets(length, |list| - start)
      decreases |list| - offset
    {
      len := len - 1;
      assert raw[start..offset + 1] == raw[start..offset] + [raw[offset]];
      BigEndianAppend(raw[start..offset], raw[offset]);
      value := Grow(value, raw[offset]);
      offset := offset + 1;
    }
  }

  lemma EmptyValue(raw: bytes, start: nat)
    requires start <= |raw|
    ensures BigEndian(raw[start..start]) == 0
  {}
}
