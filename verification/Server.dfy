/** A server that reads what the client's serializer writes, and what the serializer guarantees it. */
module Server {
  import opened Octets
  import opened Results
  import opened Fcs
  import opened HdlcFrame
  import opened Mirror
  import Order

  // ---------- reading a request ----------

  /** A well-formed client-to-server frame: lengths, addresses and both check sequences are right. */
  predicate WellFormed(b: bytes) {
    && 12 <= |b|
    && b[0] == FLAG && b[|b| - 1] == FLAG
    && FormatType3(b[1])
    && Length12(b) == |b| - 2
    && AddressForm(b[3..7]) && AddressForm(b[7..8])
    && PollFinal(b[8])
    && Feed(0xFFFF, b[1..11]) == RESIDUE
    && (|b| == 12 || (15 <= |b| && Feed(0xFFFF, b[1..|b| - 1]) == RESIDUE))
  }

  function RequestInformation(b: bytes): bytes
    requires WellFormed(b)
  {
    if |b| == 12 then [] else b[11..|b| - 3]
  }

  /** The fields of a request; `rrr` is N(R) and `sss` is N(S). */
  function Read(b: bytes): Result<HdlcFrame> {
    if !WellFormed(b) then Err(InvalidHdlcFrame)
    else
      var info := RequestInformation(b);
      var cmd := CommandOf(b[8]);
      var word := BigEndian(b[3..7]);
      if cmd == 0x00 && !([0xE6, 0xE6, 0x00] <= info) then Err(InvalidHdlcFrame)
      else Ok(HdlcFrame(cmd, b[7] >> 1, ReceiveNumber(b[8]), SendNumber(b[8]), PhysicalOf(word), LogicalOf(word),
                        if cmd == 0x00 then info[3..] else info))
  }

  // ---------- the serializer emits the standard layout ----------

  /** The length of the whole frame between the flags, had it been computed without bounds. */
  function TrueLength(f: HdlcFrame): nat {
    if f.payload == [] then 10 else 10 + |f.payload| + 2 + (if f.cmd == COMMAND_I then 3 else 0)
  }

  /** The frames the serializer gets right: not an empty I frame, and within twelve bits of length. */
  predicate Sendable(f: HdlcFrame) {
    !(f.cmd == COMMAND_I && f.payload == []) && TrueLength(f) <= MAX_LENGTH
  }

  function RequestControl(f: HdlcFrame): byte {
    ControlOctet(f.cmd, f.rrr, f.sss)
  }

  function RequestFrame(f: HdlcFrame): bytes {
    Frame(ServerAddress(f.logicalAddress, f.physicalAddress), [ClientOctet(f.clientAddress)],
          RequestControl(f), Llc(f.cmd) + f.payload)
  }

  lemma SerializeIsFrame(f: HdlcFrame)
    requires Sendable(f)
    ensures Serialize(f) == RequestFrame(f)
  {
    hide Feed, Lo, Hi, ControlOctet, ClientOctet, HighSeven, LowSeven, LastSeven, FormatOctet, Oct;
    var info := Llc(f.cmd) + f.payload;
    var opening := Opening(ServerAddress(f.logicalAddress, f.physicalAddress), [ClientOctet(f.clientAddress)],
                           RequestControl(f), info);
    assert opening == Header(f);
    hide Header, Opening;
    if f.payload == [] {
      assert info == [];
      assert Body(f) == Sealed(opening);
    } else {
      assert Body(f) == Sealed(opening) + info;
      assert |Body(f)| < 0x1_0000 by { assert |Header(f)| == 8; }
      assert Body(f)[..|Body(f)| % 0x1_0000] == Body(f);
    }
  }

  function RequestOpening(f: HdlcFrame): bytes {
    Opening(ServerAddress(f.logicalAddress, f.physicalAddress), [ClientOctet(f.clientAddress)],
            RequestControl(f), Llc(f.cmd) + f.payload)
  }

  /** The octets of a sendable frame, by position. */
  lemma SendableParts(f: HdlcFrame)
    requires Sendable(f)
    ensures
      var b, n := Serialize(f), TrueLength(f);
      && |b| == n + 2 && b[0] == FLAG && b[|b| - 1] == FLAG
      && b[1] == FormatOctet(n) && b[2] == Oct(n)
      && b[3..7] == ServerAddress(f.logicalAddress, f.physicalAddress)
      && b[7..8] == [ClientOctet(f.clientAddress)] && b[8] == RequestControl(f)
      && b[1..11] == Sealed(RequestOpening(f))
      && b[1..|b| - 1] == Contents(RequestOpening(f), Llc(f.cmd) + f.payload)
      && (|b| != 12 ==> 15 <= |b| && b[11..|b| - 3] == Llc(f.cmd) + f.payload)
      && (|b| == 12 ==> Llc(f.cmd) + f.payload == [])
  {
    SerializeIsFrame(f);
    LlcLength(f.cmd);
    hide Serialize, Frame, Contents, Sealed, RequestControl, ClientOctet, ServerAddress, FormatOctet, Oct, Llc;
    var address, client := ServerAddress(f.logicalAddress, f.physicalAddress), [ClientOctet(f.clientAddress)];
    var info := Llc(f.cmd) + f.payload;
    assert |info| == |Llc(f.cmd)| + |f.payload|;
    ServerAddressForm(f.logicalAddress, f.physicalAddress);
    FrameParts(address, client, RequestControl(f), info);
    assert FrameLength(address, client, info) == TrueLength(f);
    hide Opening;
  }

  lemma SendableChecks(f: HdlcFrame)
    requires Sendable(f)
    ensures WellFormed(Serialize(f))
  {
    hide *;
    SendableParts(f);
    SendableHeader(f);
    SealedResidue(RequestOpening(f));
    ContentsResidue(RequestOpening(f), Llc(f.cmd) + f.payload);
    WellFormedFrom(Serialize(f), RequestOpening(f), Llc(f.cmd) + f.payload);
  }

  lemma SendableHeader(f: HdlcFrame)
    requires Sendable(f)
    ensures FormatType3(FormatOctet(TrueLength(f)))
    ensures LengthOf(FormatOctet(TrueLength(f)), Oct(TrueLength(f))) == TrueLength(f)
    ensures 10 <= TrueLength(f) && (TrueLength(f) == 10 || 13 <= TrueLength(f))
    ensures AddressForm(ServerAddress(f.logicalAddress, f.physicalAddress))
    ensures AddressForm([ClientOctet(f.clientAddress)])
    ensures PollFinal(RequestControl(f))
  {
    ServerAddressForm(f.logicalAddress, f.physicalAddress);
    ClientRoundTrip(f.clientAddress);
    ControlPollFinal(f);
    FormatRoundTrip(TrueLength(f));
    hide FormatType3, FormatOctet, LengthOf, Oct, ServerAddress, ClientOctet, RequestControl, PollFinal, Extension;
  }

  lemma WellFormedFrom(b: bytes, opening: bytes, info: bytes)
    requires 12 <= |b| && (|b| == 12 || 15 <= |b|) && b[0] == FLAG && b[|b| - 1] == FLAG
    requires FormatType3(b[1]) && LengthOf(b[1], b[2]) == |b| - 2
    requires AddressForm(b[3..7]) && AddressForm(b[7..8]) && PollFinal(b[8])
    requires b[1..11] == Sealed(opening) && Feed(0xFFFF, Sealed(opening)) == RESIDUE
    requires b[1..|b| - 1] == Contents(opening, info) && Feed(0xFFFF, Contents(opening, info)) == RESIDUE
    ensures WellFormed(b)
  {
    hide FormatType3, LengthOf, AddressForm, PollFinal, Sealed, Contents, Feed;
  }

  /** Both check sequences of a sendable frame sit where the server looks for them, and match. */
  lemma SendableWellFormed(f: HdlcFrame)
    requires Sendable(f)
    ensures var b := Serialize(f);
      && WellFormed(b)
      && |b| == TrueLength(f) + 2
      && b[3..7] == ServerAddress(f.logicalAddress, f.physicalAddress)
      && b[7] == ClientOctet(f.clientAddress)
      && b[8] == RequestControl(f)
      && RequestInformation(b) == Llc(f.cmd) + f.payload
  {
    SendableChecks(f);
    SendableParts(f);
    hide Serialize, Contents, Sealed, RequestOpening, RequestControl, ClientOctet, ServerAddress, FormatOctet, Oct,
         Llc, WellFormed, Sendable;
    var b := Serialize(f);
    assert b[7] == b[7..8][0];
  }

  lemma LlcLength(cmd: byte)
    ensures |Llc(cmd)| == if cmd == COMMAND_I then 3 else 0
  {}

  lemma ControlPollFinal(f: HdlcFrame)
    ensures PollFinal(RequestControl(f))
  {}

  lemma RequestControlRoundTrip(f: HdlcFrame)
    requires Command(f.cmd)
    ensures CommandOf(RequestControl(f)) == f.cmd
    ensures f.cmd == 0x00 ==>
      ReceiveNumber(RequestControl(f)) == ThreeBits(f.sss + 1) && SendNumber(RequestControl(f)) == ThreeBits(f.rrr)
    ensures f.cmd != 0x00 ==> ReceiveNumber(RequestControl(f)) == 0 && SendNumber(RequestControl(f)) == 0
  {}

  /** What a server is to find in a frame: addresses cut to their widths, N(R) one past the last N(S). */
  function Sent(f: HdlcFrame): HdlcFrame {
    HdlcFrame(f.cmd, SevenBits(f.clientAddress),
              if f.cmd == COMMAND_I then ThreeBits(f.sss + 1) else 0,
              if f.cmd == COMMAND_I then ThreeBits(f.rrr) else 0,
              FourteenBits(f.physicalAddress), FourteenBits(f.logicalAddress), f.payload)
  }

  /** The server reads back every field of every sendable frame. */
  lemma RequestRoundTrip(f: HdlcFrame)
    requires Command(f.cmd) && Sendable(f)
    ensures Read(Serialize(f)) == Ok(Sent(f))
  {
    hide WellFormed, Serialize, RequestInformation, RequestControl, ServerAddress, ClientOctet, BigEndian, LogicalOf,
         PhysicalOf, CommandOf, ReceiveNumber, SendNumber, ThreeBits, SevenBits, FourteenBits;
    SendableWellFormed(f);
    RequestControlRoundTrip(f);
    AddressRoundTrip(f.logicalAddress, f.physicalAddress);
    ClientRoundTrip(f.clientAddress);
    var info := Llc(f.cmd) + f.payload;
    if f.cmd == COMMAND_I {
      assert info[3..] == f.payload;
    } else {
      assert info == f.payload;
    }
  }

  // ---------- the length computed first is the length emitted ----------

  lemma SerializedLength(f: HdlcFrame)
    ensures |Serialize(f)| == TrueLength(f) + (if f.cmd == COMMAND_I && f.payload == [] then 5 else 2)
    ensures Length12(Serialize(f)) == LengthField(f) % 4096
    ensures Serialize(f)[3] == HighSeven(f.logicalAddress)
  {
    hide Feed, Lo, Hi, ControlOctet, ClientOctet, HighSeven, LowSeven, LastSeven, FormatOctet, Oct, LengthField,
         LengthOf;
    var b := Serialize(f);
    assert |Header(f)| == 8;
    assert b[1] == Header(f)[0] == FormatOctet(LengthField(f));
    assert b[2] == Header(f)[1] == Oct(LengthField(f));
    assert b[3] == Header(f)[2];
    FormatRoundTrip(LengthField(f));
    hide Serialize, Header;
  }

  /**
   * The length octets say the size of the frame without its flags exactly for sendable frames.
   * An I frame with empty payload says three octets too few; longer frames lose high bits.
   */
  lemma LengthExact(f: HdlcFrame)
    ensures Length12(Serialize(f)) == |Serialize(f)| - 2 <==> Sendable(f)
    ensures f.cmd == COMMAND_I && f.payload == [] ==> Length12(Serialize(f)) == |Serialize(f)| - 2 - 3
  {
    hide Serialize, LengthField, TrueLength;
    SerializedLength(f);
    LowLength(f);
    LowExact(TrueLength(f));
  }

  lemma LowLength(f: HdlcFrame)
    ensures LengthField(f) % 4096 == TrueLength(f) % 4096
    ensures f.cmd == COMMAND_I && f.payload == [] ==> TrueLength(f) == 10
  {
    LowOfLow(TrueLength(f));
  }

  lemma LowOfLow(n: nat)
    ensures n % 0x1_0000 % 4096 == n % 4096
  {}

  lemma LowExact(n: nat)
    ensures n % 4096 == n <==> n <= MAX_LENGTH
    ensures n == 10 ==> n % 4096 == 10
  {}

  /** The server accepts a serialized frame iff it is sendable. */
  lemma AcceptedIffSendable(f: HdlcFrame)
    requires Command(f.cmd)
    ensures Read(Serialize(f)).Ok? <==> Sendable(f)
  {
    hide Serialize, Sendable;
    LengthExact(f);
    if Sendable(f) {
      RequestRoundTrip(f);
    }
  }

  /** No frame the client writes would be accepted by the client's own parser. */
  lemma NotItsOwnFrame(f: HdlcFrame)
    ensures Parse(Serialize(f)) == Err(InvalidHdlcFrame)
  {
    SerializedLength(f);
    assert !Extension(HighSeven(f.logicalAddress));
    hide Serialize;
  }

  // ---------- every frame, sendable or not ----------

  /** What stands between the header check and the final check. */
  function Carried(f: HdlcFrame): bytes {
    (if f.cmd == 0x00 then [0xE6, 0xE6, 0x00] else []) + f.payload
  }

  /**
   * Every frame, sendable or not, of any length: flags, format type 3 and the low twelve bits of the
   * length, the addresses, command and numbers of the frame, a right header check, and the LLC octets
   * E6 E6 00 of an I frame in front of its payload.
   */
  lemma EveryFrame(f: HdlcFrame)
    requires Command(f.cmd)
    ensures
      var b, info := Serialize(f), Carried(f);
      && |b| == 12 + |info| + (if f.payload == [] then 0 else 2)
      && b[0] == 0x7E && b[|b| - 1] == 0x7E
      && FormatType3(b[1]) && Length12(b) == TrueLength(f) % 4096
      && AddressForm(b[3..7]) && AddressForm(b[7..8]) && PollFinal(b[8])
      && LogicalOf(BigEndian(b[3..7])) == FourteenBits(f.logicalAddress)
      && PhysicalOf(BigEndian(b[3..7])) == FourteenBits(f.physicalAddress)
      && b[7] >> 1 == SevenBits(f.clientAddress)
      && CommandOf(b[8]) == f.cmd
      && (f.cmd == 0x00 ==> ReceiveNumber(b[8]) == ThreeBits(f.sss + 1) && SendNumber(b[8]) == ThreeBits(f.rrr))
      && Feed(0xFFFF, b[1..11]) == RESIDUE
      && b[11..11 + |info|] == info
  {
    hide *;
    EveryParts(f);
    HeaderParts(f);
    SealedIs(Header(f));
    HeaderLength(f);
    SerializedLength(f);
    LowLength(f);
    FormatRoundTrip(LengthField(f));
    ServerAddressForm(f.logicalAddress, f.physicalAddress);
    AddressRoundTrip(f.logicalAddress, f.physicalAddress);
    ClientRoundTrip(f.clientAddress);
    ClientForm(f.clientAddress);
    ControlPollFinal(f);
    RequestControlRoundTrip(f);
    SealedResidue(Header(f));
    var b := Serialize(f);
    HeaderSlices(b, Header(f), [Lo(CheckSequence(Header(f))), Hi(CheckSequence(Header(f)))]);
  }

  lemma ClientForm(client: byte)
    ensures AddressForm([ClientOctet(client)])
  {
    ClientRoundTrip(client);
    hide ClientOctet, Extension;
  }

  lemma EveryParts(f: HdlcFrame)
    ensures
      var b, info := Serialize(f), Carried(f);
      && |b| == 12 + |info| + (if f.payload == [] then 0 else 2)
      && b[0] == 0x7E && b[|b| - 1] == 0x7E
      && b[1..11] == Sealed(Header(f)) && b[11..11 + |info|] == info
  {
    hide Header, CheckSequence, Lo, Hi;
    HeaderLength(f);
    var s, info := Sealed(Header(f)), Carried(f);
    assert |s| == 10;
    hide Sealed;
    assert Body(f) == s + info;
    if f.payload == [] {
      assert Serialize(f) == [FLAG] + s + info + [] + [FLAG];
      PiecesAround(s, info, []);
    } else {
      var fcs := CheckSequence(Body(f)[..|Body(f)| % 0x1_0000]);
      assert Serialize(f) == [FLAG] + s + info + [Lo(fcs), Hi(fcs)] + [FLAG];
      PiecesAround(s, info, [Lo(fcs), Hi(fcs)]);
    }
  }

  lemma PiecesAround(s: bytes, info: bytes, check: bytes)
    requires |s| == 10
    ensures
      var b := [FLAG] + s + info + check + [FLAG];
      && |b| == 12 + |info| + |check| && b[0] == FLAG && b[|b| - 1] == FLAG
      && b[1..11] == s && b[11..11 + |info|] == info
  {}

  lemma HeaderParts(f: HdlcFrame)
    ensures
      var h := Header(f);
      && |h| == 8 && h[0] == FormatOctet(LengthField(f)) && h[1] == Oct(LengthField(f))
      && h[2..6] == ServerAddress(f.logicalAddress, f.physicalAddress)
      && h[6] == ClientOctet(f.clientAddress) && h[7] == RequestControl(f)
  {
    hide FormatOctet, Oct, LengthField, HighSeven, LowSeven, LastSeven, ClientOctet, ControlOctet;
  }

  lemma HeaderSlices(b: bytes, h: bytes, check: bytes)
    requires 12 <= |b| && |h| == 8 && b[1..11] == h + check
    ensures b[1] == h[0] && b[2] == h[1] && b[3..7] == h[2..6] && b[7] == h[6] && b[8] == h[7] && b[7..8] == [h[6]]
  {
    assert forall i :: 0 <= i < 8 ==> b[1 + i] == b[1..11][i] == h[i];
    assert forall i :: 2 <= i < 6 ==> b[1 + i] == h[i];
  }

  // ---------- header independence ----------

  /** How many octets the final check covers: its size argument has sixteen bits. */
  function Checked(f: HdlcFrame): nat {
    (10 + |Llc(f.cmd)| + |f.payload|) % 0x1_0000
  }

  /**
   * The final check: after any header and its own check the register is the residue, so it knows only
   * what follows, unless so little is checked that it ends within the header.
   */
  function FinalFcs(f: HdlcFrame): bv16 {
    var info := Llc(f.cmd) + f.payload;
    if 10 <= Checked(f) then CheckedLength(f); !Feed(RESIDUE, info[..Checked(f) - 10])
    else HeaderLength(f); CheckSequence(Sealed(Header(f))[..Checked(f)])
  }

  lemma CheckedLength(f: HdlcFrame)
    ensures Checked(f) <= 10 + |Llc(f.cmd) + f.payload|
  {}

  lemma HeaderLength(f: HdlcFrame)
    ensures |Header(f)| == 8
  {}

  function Ending(f: HdlcFrame): bytes {
    SerializedLength(f);
    Serialize(f)[|Serialize(f)| - 3..]
  }

  /** Every frame with payload, of whatever length, ends with that check. */
  lemma FinalCheck(f: HdlcFrame)
    requires f.payload != []
    ensures Ending(f) == [Lo(FinalFcs(f)), Hi(FinalFcs(f)), FLAG]
  {
    hide Feed, Lo, Hi, Header, Llc;
    var info, m := Llc(f.cmd) + f.payload, Checked(f);
    HeaderLength(f);
    assert Body(f) == Sealed(Header(f)) + info;
    assert |Body(f)| % 0x1_0000 == m;
    if 10 <= m {
      PrefixBehind(Sealed(Header(f)), info, m);
      CheckBehindHeader(Header(f), info[..m - 10]);
    } else {
      PrefixWithin(Sealed(Header(f)), info, m);
    }
    hide Sealed;
  }

  lemma PrefixBehind(s: bytes, t: bytes, m: nat)
    requires |s| <= m <= |s + t|
    ensures (s + t)[..m] == s + t[..m - |s|]
  {}

  lemma PrefixWithin(s: bytes, t: bytes, m: nat)
    requires m <= |s|
    ensures (s + t)[..m] == s[..m]
  {}

  /** The same payload and the same kind of command, whatever the addresses and numbers. */
  predicate SameKind(f: HdlcFrame, g: HdlcFrame) {
    f.payload == g.payload && (f.cmd == COMMAND_I <==> g.cmd == COMMAND_I)
  }

  lemma SameEnding(f: HdlcFrame, g: HdlcFrame)
    requires f.payload != [] && SameKind(f, g)
    requires Checked(f) <= 2 || 10 <= Checked(f)
    ensures Ending(g) == Ending(f)
  {
    hide Feed, Lo, Hi, Ending, ServerAddress, FormatOctet, Oct, ClientOctet, ControlOctet;
    FinalCheck(f);
    FinalCheck(g);
    if Checked(f) <= 2 {
      HeaderLength(f);
      HeaderLength(g);
      assert Sealed(Header(f))[..Checked(f)] == Sealed(Header(g))[..Checked(g)];
    }
  }

  // ---------- a truncated check depends on the header ----------

  lemma OctetStepXor(f: bv16, g: bv16, b: byte)
    ensures Xor(OctetStep(f, b), OctetStep(g, b)) == OctetStep(Xor(f, g), 0)
  {
    hide Xor, EightTurns, Spin;
    var w := b as bv16;
    SpinEight(Xor(f, w));
    SpinEight(Xor(g, w));
    SpinXor(Xor(f, w), Xor(g, w), 8);
    SameAdded(f, g, w);
    SpinEight(Xor(Xor(f, g), 0));
  }

  lemma SameAdded(f: bv16, g: bv16, w: bv16)
    ensures Xor(Xor(f, w), Xor(g, w)) == Xor(Xor(f, g), 0)
  {
    assert w ^ w == 0;
    Order.XorPairs(f, w, g, w);
  }

  lemma {:induction false} SpinXor(f: bv16, g: bv16, n: nat)
    ensures Xor(Spin(f, n), Spin(g, n)) == Spin(Xor(f, g), n)
    decreases n
  {
    hide Turn, Xor;
    if n != 0 {
      Order.TurnXor(f, g);
      SpinXor(Turn(f), Turn(g), n - 1);
    }
  }

  lemma OctetStepFlip(f: bv16, b: byte)
    ensures Xor(OctetStep(f, b), OctetStep(f, b ^ 2)) == 0x2312
  {}

  lemma FlipCarried()
    ensures OctetStep(0x2312, 0) == 0x33B0 && OctetStep(0x33B0, 0) == 0xB5B8 && OctetStep(0xB5B8, 0) == 0x3976
    ensures OctetStep(0x3976, 0) == 0x1688 && OctetStep(0x1688, 0) == 0x0856
  {}

  lemma FlipAddress(address: bv16)
    ensures HighSeven(address ^ 0x80) == HighSeven(address) ^ 2 && LowSeven(address ^ 0x80) == LowSeven(address)
  {}

  /** How far apart two registers are after `k` equal octets behind the flipped one. */
  function Apart(k: nat): bv16 {
    if k == 0 then 0x2312 else OctetStep(Apart(k - 1), 0)
  }

  lemma {:induction false} FeedApart(f: bv16, s: bytes, t: bytes, k: nat)
    requires 1 + k <= |s| == |t| && t[0] == s[0] ^ 2 && forall i :: 1 <= i < |s| ==> s[i] == t[i]
    ensures Xor(Feed(f, s[..k + 1]), Feed(f, t[..k + 1])) == Apart(k)
    decreases k
  {
    hide Feed, OctetStep, Xor;
    if k == 0 {
      assert s[..1] == [s[0]] && t[..1] == [t[0]];
      FeedSingle(f, s[0]);
      FeedSingle(f, t[0]);
      OctetStepFlip(f, s[0]);
    } else {
      FeedApart(f, s, t, k - 1);
      assert s[..k + 1] == s[..k] + [s[k]] && t[..k + 1] == t[..k] + [s[k]];
      FeedLast(f, s[..k], s[k]);
      FeedLast(f, t[..k], s[k]);
      OctetStepXor(Feed(f, s[..k]), Feed(f, t[..k]), s[k]);
    }
  }

  lemma ApartValues(k: nat)
    requires k <= 5
    ensures Apart(k) != 0 && (k == 5 ==> Apart(k) == 0x0856)
  {
    FlipCarried();
    hide OctetStep;
    assert Apart(1) == 0x33B0 && Apart(2) == 0xB5B8 && Apart(3) == 0x3976;
    assert Apart(4) == 0x1688;
  }

  /** The check sequence of a register, and that of the register after the low octet of its own check. */
  function Inverted(f: bv16): bv16 {
    !f
  }

  function InvertedAfterLow(f: bv16): bv16 {
    !OctetStep(f, Lo(!f))
  }

  lemma XorDiffers(a: bv16, b: bv16)
    ensures Xor(a, b) != 0 ==> Inverted(a) != Inverted(b)
    ensures Xor(a, b) == 0x0856 ==> InvertedAfterLow(a) != InvertedAfterLow(b)
  {}

  /** A frame with the same numbers and payload to another logical address. */
  function Elsewhere(f: HdlcFrame): HdlcFrame {
    f.(logicalAddress := f.logicalAddress ^ 0x80)
  }

  /** Headers that differ in one bit of the first address octet. */
  predicate Flipped(s: bytes, t: bytes) {
    |s| == |t| == 8 && s[..2] == t[..2] && t[2] == s[2] ^ 2 && s[3..] == t[3..]
  }

  lemma ElsewhereHeader(f: HdlcFrame)
    ensures Flipped(Header(f), Header(Elsewhere(f)))
  {
    FlipAddress(f.logicalAddress);
    hide FormatOctet, Oct, HighSeven, LowSeven, LastSeven, ClientOctet, ControlOctet;
  }

  lemma HeadersApart(s: bytes, t: bytes, m: nat)
    requires Flipped(s, t) && 3 <= m <= 8
    ensures |s| == |t| == 8 && Xor(Feed(0xFFFF, s[..m]), Feed(0xFFFF, t[..m])) == Apart(m - 3)
  {
    hide Feed, Xor, Apart;
    var u, v := s[2..], t[2..];
    assert forall i :: 1 <= i < 6 ==> u[i] == s[3..][i - 1] && v[i] == t[3..][i - 1];
    assert s[..m] == s[..2] + u[..m - 2] && t[..m] == s[..2] + v[..m - 2];
    FeedAppend(0xFFFF, s[..2], u[..m - 2]);
    FeedAppend(0xFFFF, s[..2], v[..m - 2]);
    FeedApart(Feed(0xFFFF, s[..2]), u, v, m - 3);
  }

  lemma ChecksDiffer(f: HdlcFrame)
    requires 3 <= Checked(f) <= 9
    ensures FinalFcs(Elsewhere(f)) != FinalFcs(f)
  {
    hide *;
    SameChecked(f);
    ElsewhereHeader(f);
    TruncatedCheck(f);
    TruncatedCheck(Elsewhere(f));
    var s, t, k := Header(f), Header(Elsewhere(f)), if Checked(f) == 9 then 8 else Checked(f);
    HeadersApart(s, t, k);
    ApartValues(k - 3);
    XorDiffers(Feed(0xFFFF, s[..k]), Feed(0xFFFF, t[..k]));
  }

  lemma SameChecked(f: HdlcFrame)
    ensures Checked(Elsewhere(f)) == Checked(f) && SameKind(f, Elsewhere(f))
  {}

  /** With three to nine octets checked, another address gives another check, for every frame. */
  lemma HeaderShows(f: HdlcFrame)
    requires f.payload != [] && 3 <= Checked(f) <= 9
    ensures SameKind(f, Elsewhere(f)) && Ending(Elsewhere(f)) != Ending(f)
  {
    hide Feed, Ending, Header, Lo, Hi, Checked, FinalFcs, SameKind;
    SameChecked(f);
    FinalCheck(f);
    FinalCheck(Elsewhere(f));
    ChecksDiffer(f);
    SameHalves(FinalFcs(f), FinalFcs(Elsewhere(f)));
  }

  lemma TruncatedCheck(f: HdlcFrame)
    requires 3 <= Checked(f) <= 9
    ensures |Header(f)| == 8
    ensures Checked(f) <= 8 ==> FinalFcs(f) == Inverted(Feed(0xFFFF, Header(f)[..Checked(f)]))
    ensures Checked(f) == 9 ==> FinalFcs(f) == InvertedAfterLow(Feed(0xFFFF, Header(f)[..8]))
  {
    hide *;
    HeaderLength(f);
    TruncatedIs(f);
    var h, m := Header(f), Checked(f);
    SealedIs(h);
    if m == 9 {
      assert h[..8] == h;
      assert Sealed(h)[..9] == h + [Lo(CheckSequence(h))];
      CheckAfterLow(h);
    } else {
      assert Sealed(h)[..m] == h[..m];
      CheckInverts(h[..m]);
    }
  }

  lemma TruncatedIs(f: HdlcFrame)
    requires Checked(f) <= 9
    ensures Checked(f) <= |Sealed(Header(f))| && FinalFcs(f) == CheckSequence(Sealed(Header(f))[..Checked(f)])
  {
    hide CheckSequence, Header, Sealed, Checked, Feed;
    HeaderLength(f);
    SealedIs(Header(f));
  }

  lemma CheckInverts(s: bytes)
    ensures CheckSequence(s) == Inverted(Feed(0xFFFF, s))
  {
    hide Feed;
  }

  lemma CheckAfterLow(s: bytes)
    ensures CheckSequence(s + [Lo(CheckSequence(s))]) == InvertedAfterLow(Feed(0xFFFF, s))
  {
    hide *;
    var r := Feed(0xFFFF, s);
    CheckInverts(s);
    CheckInverts(s + [Lo(CheckSequence(s))]);
    FeedLast(0xFFFF, s, Lo(CheckSequence(s)));
    InvertedParts(r);
  }

  lemma InvertedParts(r: bv16)
    ensures InvertedAfterLow(r) == Inverted(OctetStep(r, Lo(Inverted(r))))
  {
    hide OctetStep, Lo;
  }

  lemma SameHalves(a: bv16, b: bv16)
    ensures Lo(a) == Lo(b) && Hi(a) == Hi(b) ==> a == b
  {}

  /**
   * Frames of the same kind and payload end alike, whatever their addresses, numbers and length, iff
   * the final check does not come to cover three to nine octets; that takes a payload near a multiple
   * of 65536, whose length the sixteen bits of the size lose.
   */
  lemma HeaderIndependence(f: HdlcFrame)
    requires f.payload != []
    ensures (forall g :: SameKind(f, g) ==> Ending(g) == Ending(f)) <==> Checked(f) <= 2 || 10 <= Checked(f)
  {
    hide Ending, Checked;
    if Checked(f) <= 2 || 10 <= Checked(f) {
      forall g | SameKind(f, g)
        ensures Ending(g) == Ending(f)
      {
        SameEnding(f, g);
      }
    } else {
      HeaderShows(f);
    }
  }
}
