/**
 * Frame format type 3: the validator, the parser and the serializer.
 *
 * The serializer writes client-to-server frames, the parser reads server-to-client frames.
 */
module HdlcFrame {
  import opened Octets
  import opened Results
  import opened Fcs

  const FLAG: byte := 0x7E

  const COMMAND_I: byte := 0x00
  const COMMAND_SNRM: byte := 0x83
  const COMMAND_DISC: byte := 0x43
  const RESPONSE_I: byte := 0x00
  const RESPONSE_UA: byte := 0x63

  const LLC_REQUEST: bytes := [0xE6, 0xE6, 0x00]

  datatype HdlcFrame = HdlcFrame(
    cmd: byte,
    clientAddress: byte,
    rrr: byte,
    sss: byte,
    physicalAddress: bv16,
    logicalAddress: bv16,
    payload: bytes)

  // ---------- parts of a frame ----------

  /** The format octet announces frame format type 3. */
  predicate FormatType3(o: byte) {
    o & 0xF0 == 0xA0
  }

  /** The extension bit: the last octet of an address has it set. */
  predicate Extension(o: byte) {
    o & 1 == 1
  }

  predicate PollFinal(o: byte) {
    o & 0x10 == 0x10
  }

  /** Format type 3 and the upper four of twelve length bits. */
  function FormatOctet(size: nat): byte {
    0xA0 | Oct(size / 256 % 16)
  }

  /** Seven address bits in an octet, the extension bit clear. */
  function HighSeven(address: bv16): byte {
    ((address >> 6) & 0xFE) as byte
  }

  function LowSeven(address: bv16): byte {
    ((address << 1) & 0xFE) as byte
  }

  /** The same with the extension bit set: the last octet of an address. */
  function LastSeven(address: bv16): byte {
    ((address << 1) & 0xFE) as byte | 1
  }

  function ClientOctet(client: byte): byte {
    (client << 1) | 1
  }

  function ServerAddress(logical: bv16, physical: bv16): bytes {
    [HighSeven(logical), LowSeven(logical), HighSeven(physical), LastSeven(physical)]
  }

  /** Commands with the low bit set stand for themselves; the I command carries N(R) and N(S). */
  function ControlOctet(cmd: byte, rrr: byte, sss: byte): byte {
    if cmd & 1 != 0 then cmd | 0x10
    else cmd | 0x10 | (((sss + 1) & 7) << 5) | ((rrr & 7) << 1)
  }

  // ---------- the serializer ----------

  /** The 16-bit length computed before anything is written. */
  function LengthField(f: HdlcFrame): nat {
    if f.payload == [] then 10
    else (10 + |f.payload| + 2 + (if f.cmd == COMMAND_I then 3 else 0)) % 0x1_0000
  }

  function Header(f: HdlcFrame): bytes {
    [FormatOctet(LengthField(f)), Oct(LengthField(f))] + ServerAddress(f.logicalAddress, f.physicalAddress)
    + [ClientOctet(f.clientAddress), ControlOctet(f.cmd, f.rrr, f.sss)]
  }

  function Llc(cmd: byte): bytes {
    if cmd == COMMAND_I then LLC_REQUEST else []
  }

  function Body(f: HdlcFrame): bytes {
    Sealed(Header(f)) + Llc(f.cmd) + f.payload
  }

  /** A check sequence over as many octets as a 16-bit size can say. */
  function SealedShort(s: bytes): bytes {
    var fcs := CheckSequence(s[..|s| % 0x1_0000]);
    s + [Lo(fcs), Hi(fcs)]
  }

  function Serialize(f: HdlcFrame): bytes {
    [FLAG] + (if f.payload == [] then Body(f) else SealedShort(Body(f))) + [FLAG]
  }

  /** The length, accumulated in a `uint16_t`. */
  method FrameSize(frame: HdlcFrame) returns (size: nat)
    ensures size == LengthField(frame)
  {
    size := 10;
    if |frame.payload| > 0 {
      size := (size + |frame.payload|) % 0x1_0000;
      size := (size + 2) % 0x1_0000;
      if frame.cmd == COMMAND_I {
        size := (size + 3) % 0x1_0000;
      }
    }
  }

  /** Flag, format, addresses and control octet. */
  method WriteHeader(frame: HdlcFrame, size: nat) returns (buffer: bytes)
    requires size == LengthField(frame)
    ensures buffer == [FLAG] + Header(frame)
  {
    hide ControlOctet, Oct, FormatOctet, HighSeven, LowSeven, LastSeven, ClientOctet, LengthField;
    buffer := [FLAG];
    buffer := buffer + [FormatOctet(size)];
    buffer := buffer + [Oct(size)];
    buffer := buffer + [HighSeven(frame.logicalAddress)];
    buffer := buffer + [LowSeven(frame.logicalAddress)];
    buffer := buffer + [HighSeven(frame.physicalAddress)];
    buffer := buffer + [LastSeven(frame.physicalAddress)];
    buffer := buffer + [ClientOctet(frame.clientAddress)];
    buffer := buffer + [ControlOctet(frame.cmd, frame.rrr, frame.sss)];
  }

  /** The check sequence of all octets after the flag, appended low octet first. */
  method AppendCheck(buffer: bytes) returns (r: bytes)
    requires buffer != []
    ensures r == [buffer[0]] + SealedShort(buffer[1..])
  {
    hide CheckSequence, Lo, Hi;
    var fcs := CheckSequenceCalc(buffer[1..], (|buffer| - 1) % 0x1_0000);
    r := buffer + [Lo(fcs)];
    r := r + [Hi(fcs)];
    assert buffer == [buffer[0]] + buffer[1..];
  }

  method HdlcFrameSerialize(frame: HdlcFrame) returns (buffer: bytes)
    ensures buffer == Serialize(frame)
  {
    hide SealedShort, Sealed, Header, LengthField;
    var size := FrameSize(frame);
    buffer := WriteHeader(frame, size);
    assert buffer[1..] == Header(frame);
    buffer := AppendCheck(buffer);
    ShortIsSealed(frame);
    if frame.cmd == COMMAND_I {
      buffer := buffer + [0xE6];
      buffer := buffer + [0xE6];
      buffer := buffer + [0x00];
    }
    assert buffer == [FLAG] + (Sealed(Header(frame)) + Llc(frame.cmd));
    buffer := buffer + frame.payload;
    assert buffer == [FLAG] + Body(frame);
    hide Body;
    if |frame.payload| > 0 {
      assert buffer[1..] == Body(frame);
      buffer := AppendCheck(buffer);
    }
    buffer := buffer + [FLAG];
  }

  lemma ShortIsSealed(frame: HdlcFrame)
    ensures SealedShort(Header(frame)) == Sealed(Header(frame))
  {
    assert |Header(frame)| == 8;
    hide Header, CheckSequence, Lo, Hi;
    assert Header(frame)[..8 % 0x1_0000] == Header(frame);
  }

  // ---------- the validator ----------

  /** The twelve length bits of the format octets. */
  function LengthOf(format: byte, low: byte): (n: nat)
    ensures n < 0x1000
  {
    Val(format & 0x0F) * 256 + Val(low)
  }

  function Length12(b: bytes): (n: nat)
    requires 3 <= |b|
    ensures n < 0x1000
  {
    LengthOf(b[1], b[2])
  }

  /** The number of address octets from index 4 that announce a successor, counted up to four. */
  function AddressOffset(b: bytes, k: nat): (a: nat)
    requires 8 <= |b| && k <= 4
    ensures k <= a <= 4
    decreases 4 - k
  {
    if k < 4 && !Extension(b[4 + k]) then AddressOffset(b, k + 1) else k
  }

  predicate Framed(b: bytes) {
    && 10 <= |b|
    && b[0] == FLAG && b[|b| - 1] == FLAG
    && FormatType3(b[1])
    && Length12(b) == |b| - 2
    && Join(b[|b| - 2], b[|b| - 3]) == CheckSequence(b[1..|b| - 3])
    && Extension(b[3])
    && var a := AddressOffset(b, 0);
    && (a == 1 || (a == 3 && 12 <= |b|))
    && PollFinal(b[a + 5])
    && (|b| == a + 9 || a + 12 <= |b|)
  }

  function HasInformation(b: bytes): bool
    requires 8 <= |b|
  {
    |b| != AddressOffset(b, 0) + 9
  }

  /** The header check as the code has it: the control octet for the high octet, and `!=`. */
  predicate HeaderCheckAsWritten(b: bytes)
    requires 11 <= |b|
  {
    var a := AddressOffset(b, 0);
    Join(b[a + 5], b[a + 6]) != CheckSequence(b[1..a + 6])
  }

  /** The header check it stands for. */
  predicate HeaderCheckIntended(b: bytes)
    requires 12 <= |b|
  {
    var a := AddressOffset(b, 0);
    Join(b[a + 7], b[a + 6]) == CheckSequence(b[1..a + 6])
  }

  predicate ValidFrame(b: bytes) {
    Framed(b) && (HasInformation(b) ==> HeaderCheckAsWritten(b))
  }

  predicate ValidFrameIntended(b: bytes) {
    Framed(b) && (HasInformation(b) ==> HeaderCheckIntended(b))
  }

  method CheckFrame(buffer: bytes) returns (valid: bool)
    ensures valid == ValidFrame(buffer)
  {
    hide CheckSequence, Join, Length12, FormatType3, Extension, PollFinal;
    var size: nat := |buffer|;
    if size < 10 { return false; }
    if buffer[0] != FLAG { return false; }
    if buffer[size - 1] != FLAG { return false; }
    if !FormatType3(buffer[1]) { return false; }
    if Length12(buffer) != size - 2 { return false; }

    var fcs := Join(buffer[size - 2], buffer[size - 3]);
    var calculated := CheckSequenceCalc(buffer[1..], size - 4);
    assert buffer[1..][..size - 4] == buffer[1..size - 3];
    if fcs != calculated { return false; }
    if !Extension(buffer[3]) { return false; }

    var offset := 0;
    while offset < 4 && !Extension(buffer[offset + 4])
      invariant 0 <= offset <= 4
      invariant AddressOffset(buffer, 0) == AddressOffset(buffer, offset)
    {
      offset := offset + 1;
    }
    if offset != 1 && offset != 3 { return false; }
    if offset == 3 && size < 12 { return false; }
    if !PollFinal(buffer[offset + 5]) { return false; }

    size := size - offset;
    size := size - 9;
    if size != 0 && size < 3 { return false; }
    if size != 0 {
      fcs := Join(buffer[offset + 5], buffer[offset + 6]);
      calculated := CheckSequenceCalc(buffer[1..], offset + 5);
      assert buffer[1..][..offset + 5] == buffer[1..offset + 6];
      return fcs != calculated;
    }
    return true;
  }

  // ---------- the parser ----------

  /** `address <<= 8; address |= b` */
  function Grow(address: bv32, b: byte): bv32 {
    (address << 8) | b as bv32
  }

  /** Big-endian accumulation of octets into a 32-bit word. */
  function BigEndian(s: bytes): bv32 {
    if s == [] then 0 else Grow(BigEndian(s[..|s| - 1]), s[|s| - 1])
  }

  function LogicalOf(word: bv32): bv16 {
    (((word >> 18) & 0x3F80) | ((word >> 17) & 0x7F)) as bv16
  }

  function PhysicalOf(word: bv32): bv16 {
    (((word >> 2) & 0x3F80) | ((word >> 1) & 0x7F)) as bv16
  }

  function ShortLogicalOf(word: bv32): bv16 {
    ((word >> 9) & 0x7F) as bv16
  }

  function ShortPhysicalOf(word: bv32): bv16 {
    ((word >> 1) & 0x7F) as bv16
  }

  /** The information field: what lies between the header check and the frame check. */
  function Information(b: bytes): bytes
    requires Framed(b)
  {
    var a := AddressOffset(b, 0);
    if HasInformation(b) then b[a + 8..|b| - 3] else []
  }

  function Control(b: bytes): byte
    requires Framed(b)
  {
    b[AddressOffset(b, 0) + 5]
  }

  /** `cmd`, N(R) and N(S) of a received control octet, the poll/final bit dropped. */
  function CommandOf(control: byte): byte {
    if control & 1 == 0 then 0 else control & 0xEF
  }

  function ReceiveNumber(control: byte): byte {
    if control & 1 == 0 then ((control & 0xEF) >> 5) & 7 else 0
  }

  function SendNumber(control: byte): byte {
    if control & 1 == 0 then ((control & 0xEF) >> 1) & 7 else 0
  }

  predicate OpensWithLlc(b: bytes, start: nat) {
    start + 3 <= |b| && b[start] == 0xE6 && b[start + 1] == 0xE7 && b[start + 2] == 0x00
  }

  /** The payload of a framed buffer; an I frame must open with the LLC octets. */
  function Payload(b: bytes): Result<bytes>
    requires Framed(b)
  {
    var start := AddressOffset(b, 0) + 8;
    if CommandOf(Control(b)) != RESPONSE_I then Ok(Information(b))
    else if OpensWithLlc(b, start) then
      Ok(if |Information(b)| < 3 then [] else Information(b)[3..])
    else Err(InvalidHdlcFrame)
  }

  function Decode(b: bytes): Result<HdlcFrame>
    requires Framed(b)
  {
    var a := AddressOffset(b, 0);
    var word := BigEndian(b[4..a + 5]);
    var control := Control(b);
    match Payload(b)
    case Err(e) => Err(e)
    case Ok(payload) =>
      Ok(HdlcFrame(CommandOf(control), b[3] >> 1, ReceiveNumber(control), SendNumber(control),
                   PhysicalOf(word), LogicalOf(word), payload))
  }

  /** What decoding is to give: a two-octet address is seven and seven bits. */
  function DecodeIntended(b: bytes): Result<HdlcFrame>
    requires Framed(b)
  {
    match Decode(b)
    case Err(e) => Err(e)
    case Ok(f) =>
      if AddressOffset(b, 0) == 3 then Ok(f)
      else
        var word := BigEndian(b[4..AddressOffset(b, 0) + 5]);
        Ok(f.(logicalAddress := ShortLogicalOf(word), physicalAddress := ShortPhysicalOf(word)))
  }

  function Parse(b: bytes): Result<HdlcFrame> {
    if ValidFrame(b) then Decode(b) else Err(InvalidHdlcFrame)
  }

  /** The parser with the intended header check and the intended two-octet addresses. */
  function ParseIntended(b: bytes): Result<HdlcFrame> {
    if ValidFrameIntended(b) then DecodeIntended(b) else Err(InvalidHdlcFrame)
  }

  method HdlcFrameParse(buffer: bytes) returns (r: Result<HdlcFrame>)
    ensures r == Parse(buffer)
  {
    hide Framed, Payload, Control, HasInformation, HeaderCheckAsWritten, BigEndian, LogicalOf, PhysicalOf, CommandOf,
         ReceiveNumber, SendNumber;
    var valid := CheckFrame(buffer);
    if !valid { return Err(InvalidHdlcFrame); }
    FramedSize(buffer);

    var offset := 3;
    var client := buffer[offset] >> 1;
    offset := offset + 1;
    var address;
    address, offset := ReadAddress(buffer, offset);
    var logical, physical;
    if offset == 5 {
      logical := ShortLogicalOf(address);  // never taken: two address octets leave offset at 6
      physical := ShortPhysicalOf(address);
    } else {
      logical := LogicalOf(address);
      physical := PhysicalOf(address);
    }
    var cmd, rrr, sss := ControlFields(buffer[offset]);
    offset := offset + 1;
    offset := offset + 2;
    var payload := ReadPayload(buffer, cmd, offset);
    if payload.Err? { return Err(payload.error); }
    return Ok(HdlcFrame(cmd, client, rrr, sss, physical, logical, payload.value));
  }

  lemma FramedSize(b: bytes)
    requires Framed(b)
    ensures AddressOffset(b, 0) in {1, 3} && AddressOffset(b, 0) + 9 <= |b|
    ensures Control(b) == b[AddressOffset(b, 0) + 5]
  {
    hide CheckSequence, Join, Length12, FormatType3, Extension, PollFinal;
  }

  /** Two or four octets, up to the first with the extension bit. */
  method ReadAddress(buffer: bytes, start: nat) returns (address: bv32, offset: nat)
    requires Framed(buffer) && start == 4
    ensures offset == AddressOffset(buffer, 0) + 5 && offset in {6, 8}
    ensures offset <= |buffer| && address == BigEndian(buffer[4..offset])
  {
    hide Framed, Extension, Grow, BigEndian;
    FramedSize(buffer);
    EmptyWord();
    ghost var a := AddressOffset(buffer, 0);
    AddressEnds(buffer, 0);
    offset, address := start, 0;
    assert buffer[4..4] == [];
    while address & 1 != 1
      invariant 4 <= offset <= a + 5
      invariant address == BigEndian(buffer[4..offset])
      invariant address & 1 == 1 <==> offset == a + 5
      decreases a + 5 - offset
    {
      LastAddressOctet(address, buffer[offset]);
      assert buffer[4..offset + 1] == buffer[4..offset] + [buffer[offset]];
      BigEndianAppend(buffer[4..offset], buffer[offset]);
      address := Grow(address, buffer[offset]);
      offset := offset + 1;
    }
  }

  /** The octets from `start` to the check sequence, the LLC octets of an I frame taken off. */
  method ReadPayload(buffer: bytes, cmd: byte, start: nat) returns (r: Result<bytes>)
    requires Framed(buffer) && start == AddressOffset(buffer, 0) + 8 && cmd == CommandOf(Control(buffer))
    ensures r == Payload(buffer)
  {
    PayloadCases(buffer);
    hide Framed, CommandOf, Control, Payload, AddressOffset;
    var offset := start;
    if cmd == RESPONSE_I {
      offset := offset + 1;
      if buffer[offset - 1] != 0xE6 { return Err(InvalidHdlcFrame); }
      offset := offset + 1;
      if buffer[offset - 1] != 0xE7 { return Err(InvalidHdlcFrame); }
      offset := offset + 1;
      if buffer[offset - 1] != 0x00 { return Err(InvalidHdlcFrame); }
    }
    var payload: bytes := [];
    var end := |buffer| - 3;
    if end > offset {
      payload := buffer[offset..end];
    }
    return Ok(payload);
  }

  /** The octets from `start` up to the last three, none if there are no such octets. */
  function Between(b: bytes, start: nat): bytes {
    if start + 3 < |b| then b[start..|b| - 3] else []
  }

  lemma InformationBetween(b: bytes)
    requires Framed(b)
    ensures
      var start := AddressOffset(b, 0) + 8;
      && start < |b| && (b[start] == FLAG || start + 4 <= |b|)
      && Information(b) == Between(b, start)
      && (start + 4 <= |b| ==> (if |Information(b)| < 3 then [] else Information(b)[3..]) == Between(b, start + 3))
  {
    FramedInformation(b);
    FramedSize(b);
    hide Framed, Information, AddressOffset;
    var start := AddressOffset(b, 0) + 8;
    if start + 4 <= |b| {
      DropThree(b, start, |b| - 3);
    }
  }

  lemma PayloadCases(b: bytes)
    requires Framed(b)
    ensures
      var start := AddressOffset(b, 0) + 8;
      && start < |b| && (b[start] == FLAG || start + 4 <= |b|)
      && Payload(b) == (if CommandOf(Control(b)) != RESPONSE_I then Ok(Between(b, start))
                        else if OpensWithLlc(b, start) then Ok(Between(b, start + 3))
                        else Err(InvalidHdlcFrame))
  {
    InformationBetween(b);
    hide Framed, CommandOf, Control, Information, AddressOffset, Between;
  }

  lemma DropThree(b: bytes, start: nat, end: nat)
    requires start <= end <= |b|
    ensures start + 3 <= end ==> b[start..end][3..] == b[start + 3..end]
  {}

  /** Where the information field lies; without one, the octet behind the header check is the closing flag. */
  lemma FramedInformation(b: bytes)
    requires Framed(b)
    ensures var start := AddressOffset(b, 0) + 8;
      if |b| == start + 1 then Information(b) == [] && b[start] == FLAG
      else start + 4 <= |b| && Information(b) == b[start..|b| - 3]
  {
    hide CheckSequence, Join, Length12, FormatType3, Extension, PollFinal;
  }

  method ControlFields(control: byte) returns (cmd: byte, rrr: byte, sss: byte)
    ensures cmd == CommandOf(control) && rrr == ReceiveNumber(control) && sss == SendNumber(control)
  {
    cmd := control & 0xEF;
    rrr, sss := 0, 0;
    if cmd & 1 == 0 {
      rrr := (cmd >> 5) & 7;
      sss := (cmd >> 1) & 7;
      cmd := 0;
    }
  }

  lemma EmptyWord()
    ensures BigEndian([]) == 0
  {}

  lemma BigEndianAppend(s: bytes, b: byte)
    ensures BigEndian(s + [b]) == Grow(BigEndian(s), b)
  {
    hide Grow;
    assert (s + [b])[..|s|] == s;
  }

  lemma LastAddressOctet(address: bv32, b: byte)
    ensures Grow(address, b) & 1 == 1 <==> Extension(b)
  {}

  /** The octets counted by `AddressOffset` have no extension bit; the one that ends the count has. */
  lemma {:induction false} AddressEnds(b: bytes, k: nat)
    requires 9 <= |b| && k <= 4
    ensures var a := AddressOffset(b, k);
      && (forall i :: 4 + k <= i < 4 + a ==> !Extension(b[i]))
      && (a < 4 ==> Extension(b[4 + a]))
    decreases 4 - k
  {
    if k < 4 && !Extension(b[4 + k]) {
      AddressEnds(b, k + 1);
    }
  }
}
