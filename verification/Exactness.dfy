/** With the intended header check the parser accepts conformant responses and nothing else. */
module Exactness {
  import opened Octets
  import opened Results
  import opened Fcs
  import opened HdlcFrame
  import opened Mirror

  // ---------- octets are determined by what is read from them ----------

  lemma FormatUnique(format: byte, low: byte)
    requires FormatType3(format)
    ensures format == FormatOctet(LengthOf(format, low)) && low == Oct(LengthOf(format, low))
  {
    hide Val, Oct, FormatType3, FormatOctet;
    OctVal(low);
    HighNibble(format);
    TwelveBits(Val(format & 0x0F), Val(low));
    OctRemainder(Val(low), LengthOf(format, low));
    FormatOfNibble(LengthOf(format, low), Val(format & 0x0F));
    hide LengthOf;
  }

  lemma TwelveBits(h: nat, l: nat)
    requires h < 16 && l < 256
    ensures (h * 256 + l) / 256 % 16 == h && (h * 256 + l) % 256 == l
  {}

  lemma OctRemainder(k: nat, n: nat)
    requires n % 256 == k
    ensures Oct(n) == Oct(k)
  {
    assert k % 256 == k;
  }

  lemma FormatOfNibble(n: nat, h: nat)
    requires n / 256 % 16 == h
    ensures FormatOctet(n) == 0xA0 | Oct(h)
  {
    hide Oct;
  }

  lemma HighNibble(format: byte)
    requires FormatType3(format)
    ensures 0xA0 | Oct(Val(format & 0x0F)) == format && Val(format & 0x0F) < 16
  {
    OctVal(format & 0x0F);
    hide Oct;
  }

  lemma ClientUnique(o: byte)
    requires Extension(o)
    ensures ClientOctet(o >> 1) == o && o >> 1 < 0x80
  {}

  lemma ControlUnique(control: byte)
    requires PollFinal(control)
    ensures
      var cmd, nr, ns := CommandOf(control), ReceiveNumber(control), SendNumber(control);
      && Command(cmd) && nr < 8 && ns < 8 && (cmd != RESPONSE_I ==> nr == 0 && ns == 0)
      && ResponseControl(cmd, nr, ns) == control
  {}

  lemma SealedUnique(s: bytes, lo: byte, hi: byte)
    requires Join(hi, lo) == CheckSequence(s)
    ensures s + [lo, hi] == Sealed(s)
  {
    JoinInjective(hi, lo, CheckSequence(s));
    hide Feed, Join, Lo, Hi;
  }

  // ---------- the frame is determined by its parts ----------

  // Below, `h` is the position of the control octet, behind two or four address octets.

  lemma OpeningUnique(b: bytes, h: nat, info: bytes)
    requires 4 <= h && h + 4 <= |b| && FrameLength([b[3]], b[4..h], info) == |b| - 2
    requires b[1] == FormatOctet(|b| - 2) && b[2] == Oct(|b| - 2)
    ensures Opening([b[3]], b[4..h], b[h], info) == b[1..h + 1]
  {
    hide FormatOctet, Oct;
    assert b[1..h + 1] == [b[1], b[2]] + [b[3]] + b[4..h] + [b[h]];
  }

  lemma ContentsUnique(b: bytes, h: nat, info: bytes)
    requires h + 4 <= |b|
    requires Join(b[h + 2], b[h + 1]) == CheckSequence(b[1..h + 1])
    requires Join(b[|b| - 2], b[|b| - 3]) == CheckSequence(b[1..|b| - 3])
    requires if |b| == h + 4 then info == [] else h + 7 <= |b| && info == b[h + 3..|b| - 3]
    ensures Contents(b[1..h + 1], info) == b[1..|b| - 1]
  {
    hide Join, CheckSequence, Sealed;
    SealedUnique(b[1..h + 1], b[h + 1], b[h + 2]);
    assert b[1..h + 1] + [b[h + 1], b[h + 2]] == b[1..h + 3];
    if |b| != h + 4 {
      SealedUnique(b[1..|b| - 3], b[|b| - 3], b[|b| - 2]);
      assert b[1..|b| - 3] == b[1..h + 3] + info;
      assert b[1..|b| - 1] == b[1..|b| - 3] + [b[|b| - 3], b[|b| - 2]];
    }
  }

  lemma LengthUnique(b: bytes, h: nat, info: bytes)
    requires 4 <= h && h + 4 <= |b|
    requires if |b| == h + 4 then info == [] else h + 7 <= |b| && info == b[h + 3..|b| - 3] != []
    ensures FrameLength([b[3]], b[4..h], info) == |b| - 2
  {}

  lemma FrameFrom(b: bytes, h: nat, info: bytes)
    requires 4 <= h && h + 4 <= |b| && b[0] == FLAG && b[|b| - 1] == FLAG
    requires Opening([b[3]], b[4..h], b[h], info) == b[1..h + 1] && Contents(b[1..h + 1], info) == b[1..|b| - 1]
    ensures b == Frame([b[3]], b[4..h], b[h], info)
  {
    hide Opening, Contents;
    assert b == [b[0]] + b[1..|b| - 1] + [b[|b| - 1]];
  }

  /** A buffer that passes both intended checks is the standard layout around its own parts. */
  lemma FrameUnique(b: bytes)
    requires ValidFrameIntended(b)
    ensures Framed(b)
    ensures var h := AddressOffset(b, 0) + 5; h + 4 <= |b| && b == Frame([b[3]], b[4..h], b[h], Information(b))
  {
    hide *;
    HeaderRight(b);
    FramedParts(b);
    var h := AddressOffset(b, 0) + 5;
    FormatUnique(b[1], b[2]);
    LengthUnique(b, h, Information(b));
    OpeningUnique(b, h, Information(b));
    ContentsUnique(b, h, Information(b));
    FrameFrom(b, h, Information(b));
  }

  lemma HeaderRight(b: bytes)
    requires ValidFrameIntended(b)
    ensures Framed(b)
    ensures var h := AddressOffset(b, 0) + 5; h + 4 <= |b| && Join(b[h + 2], b[h + 1]) == CheckSequence(b[1..h + 1])
  {
    hide Join, Feed, FormatType3, LengthOf, Extension, PollFinal;
  }

  lemma FramedParts(b: bytes)
    requires Framed(b)
    ensures b[0] == FLAG && b[|b| - 1] == FLAG
    ensures FormatType3(b[1]) && LengthOf(b[1], b[2]) == |b| - 2
    ensures
      var h := AddressOffset(b, 0) + 5;
      && h in {6, 8} && h + 4 <= |b|
      && Join(b[|b| - 2], b[|b| - 3]) == CheckSequence(b[1..|b| - 3])
      && (if |b| == h + 4 then Information(b) == []
          else h + 7 <= |b| && Information(b) == b[h + 3..|b| - 3] != [])
      && HasInformation(b) == (|b| != h + 4)
      && Control(b) == b[h] && PollFinal(b[h]) && Extension(b[3])
  {
    hide Join, Feed, FormatType3, LengthOf, Extension, PollFinal;
  }

  // ---------- the LLC octets are never completed by the frame check ----------

  lemma LlcChecks()
    ensures Lo(!OctetStep(RESIDUE, 0xE6)) == 0xF4
    ensures Lo(!OctetStep(OctetStep(RESIDUE, 0xE6), 0xE7)) == 0x26
  {}

  /** The low octet of the frame check behind a right header check and the first one or two LLC octets. */
  lemma CheckOfShort(b: bytes, h: nat)
    requires 4 <= h && h + 7 <= |b| <= h + 8
    requires Join(b[h + 2], b[h + 1]) == CheckSequence(b[1..h + 1])
    requires Join(b[|b| - 2], b[|b| - 3]) == CheckSequence(b[1..|b| - 3])
    requires b[h + 3] == 0xE6 && (|b| == h + 8 ==> b[h + 4] == 0xE7)
    ensures b[|b| - 3] == if |b| == h + 7 then 0xF4 else 0x26
  {
    LlcChecks();
    hide Join, Feed, Sealed, Lo, Hi, OctetStep;
    var s, info := b[1..h + 1], b[h + 3..|b| - 3];
    SealedUnique(s, b[h + 1], b[h + 2]);
    assert b[1..|b| - 3] == s + [b[h + 1], b[h + 2]] + info;
    CheckBehindHeader(s, info);
    FeedSingle(RESIDUE, 0xE6);
    if |b| == h + 7 {
      assert info == [0xE6];
    } else {
      assert info == [0xE6] + [0xE7];
      FeedLast(RESIDUE, [0xE6], 0xE7);
    }
    JoinInjective(b[|b| - 2], b[|b| - 3], CheckSequence(b[1..|b| - 3]));
  }

  /** An I frame with right checks that opens with the LLC octets has them in its information field. */
  lemma LlcInside(b: bytes)
    requires ValidFrameIntended(b) && OpensWithLlc(b, AddressOffset(b, 0) + 8)
    ensures Framed(b) && 3 <= |Information(b)|
  {
    hide ValidFrameIntended, Framed, Information, AddressOffset, CheckSequence, Join, FormatType3, LengthOf, Extension,
         PollFinal, Control;
    HeaderRight(b);
    FramedParts(b);
    var h := AddressOffset(b, 0) + 5;
    if h + 7 <= |b| <= h + 8 {
      CheckOfShort(b, h);
    }
  }

  // ---------- the intended parser accepts conformant responses and nothing else ----------

  /** Whatever the intended parser reads as `r` is the conformant response that says `r`. */
  lemma ParsedIsConformant(b: bytes)
    requires ParseIntended(b).Ok?
    ensures Framed(b) && 10 <= |b|
    ensures
      var wide := AddressOffset(b, 0) == 3;
      Conformant(wide, ParseIntended(b).value) && Response(wide, ParseIntended(b).value) == b
  {
    hide *;
    ParsedDecodes(b);
    DecodedFields(b);
    ParsedInformation(b);
    FrameUnique(b);
    Assembled(b, AddressOffset(b, 0) == 3, ParseIntended(b).value);
  }

  lemma Assembled(b: bytes, wide: bool, r: HdlcFrame)
    requires Framed(b) && AddressOffset(b, 0) == AddressSize(wide) - 1 && 8 + AddressSize(wide) <= |b| <= MAX_LENGTH + 2
    requires
      var h := AddressOffset(b, 0) + 5;
      && [ClientOctet(r.clientAddress)] == [b[3]]
      && AddressOctets(wide, r.logicalAddress, r.physicalAddress) == b[4..h]
      && ResponseControl(r.cmd, r.rrr, r.sss) == b[h]
      && b == Frame([b[3]], b[4..h], b[h], Information(b))
    requires ResponseInformation(r.cmd, r.payload) == Information(b)
    requires |b| == 8 + AddressSize(wide) ==> Information(b) == []
    requires Widths(wide, r)
    ensures Conformant(wide, r) && Response(wide, r) == b
  {
    hide Framed, ClientOctet, AddressOctets, ResponseControl, ResponseInformation, Information, Frame, Opening,
         Contents, Sealed, FormatOctet, Oct, Widths, AddressOffset;
    var h := AddressOffset(b, 0) + 5;
    FrameParts([b[3]], b[4..h], b[h], Information(b));
  }

  lemma ParsedDecodes(b: bytes)
    requires ParseIntended(b).Ok?
    ensures ValidFrameIntended(b) && Framed(b) && DecodeIntended(b) == ParseIntended(b)
  {
    hide Framed, DecodeIntended, HeaderCheckIntended, HasInformation;
  }

  lemma DecodedSizes(b: bytes)
    requires Framed(b)
    ensures AddressOffset(b, 0) in {1, 3}
    ensures
      var wide := AddressOffset(b, 0) == 3;
      && AddressOffset(b, 0) == AddressSize(wide) - 1 && 8 + AddressSize(wide) <= |b| <= MAX_LENGTH + 2
      && (|b| == 8 + AddressSize(wide) ==> Information(b) == [])
  {
    hide Framed, Information, AddressOffset, HasInformation;
    FramedParts(b);
    FramedLength(b);
  }

  lemma AddressBetween(b: bytes)
    requires Framed(b)
    ensures AddressOffset(b, 0) + 5 < |b|
    ensures var s := b[4..AddressOffset(b, 0) + 5]; |s| == AddressOffset(b, 0) + 1 && AddressForm(s)
    ensures AddressOffset(b, 0) == 1 || AddressOffset(b, 0) == 3
  {
    FramedAddress(b);
    hide Framed, AddressOffset, AddressForm;
    assert 4 + (AddressOffset(b, 0) + 1) == AddressOffset(b, 0) + 5;
  }

  lemma DecodedUnique(b: bytes)
    requires Framed(b) && DecodeIntended(b).Ok?
    ensures AddressOffset(b, 0) + 5 < |b|
    ensures
      var r, h, wide := DecodeIntended(b).value, AddressOffset(b, 0) + 5, AddressOffset(b, 0) == 3;
      && Widths(wide, r)
      && [ClientOctet(r.clientAddress)] == [b[3]]
      && AddressOctets(wide, r.logicalAddress, r.physicalAddress) == b[4..h]
      && ResponseControl(r.cmd, r.rrr, r.sss) == b[h]
      && Payload(b) == Ok(r.payload)
  {
    hide *;
    AddressBetween(b);
    DecodedParts(b);
    FramedParts(b);
    var a := AddressOffset(b, 0);
    FieldsUnique(b[3], b[4..a + 5], b[a + 5], DecodeIntended(b).value);
  }

  /** Whatever a framed buffer decodes to says its addresses and its control octet. */
  lemma DecodedFields(b: bytes)
    requires Framed(b) && DecodeIntended(b).Ok?
    ensures AddressOffset(b, 0) in {1, 3}
    ensures
      var r, h, wide := DecodeIntended(b).value, AddressOffset(b, 0) + 5, AddressOffset(b, 0) == 3;
      && AddressOffset(b, 0) == AddressSize(wide) - 1 && 8 + AddressSize(wide) <= |b| <= MAX_LENGTH + 2
      && (|b| == 8 + AddressSize(wide) ==> Information(b) == [])
      && Widths(wide, r)
      && [ClientOctet(r.clientAddress)] == [b[3]]
      && AddressOctets(wide, r.logicalAddress, r.physicalAddress) == b[4..h]
      && ResponseControl(r.cmd, r.rrr, r.sss) == b[h]
      && Payload(b) == Ok(r.payload)
  {
    hide *;
    DecodedSizes(b);
    DecodedUnique(b);
  }

  /** Fields read from a client octet, address octets in form and a control octet say those octets. */
  lemma FieldsUnique(client: byte, address: bytes, control: byte, r: HdlcFrame)
    requires Extension(client) && |address| in {2, 4} && AddressForm(address) && PollFinal(control)
    requires r.cmd == CommandOf(control) && r.rrr == ReceiveNumber(control) && r.sss == SendNumber(control)
    requires r.clientAddress == client >> 1
    requires
      var word := BigEndian(address);
      if |address| == 4 then r.logicalAddress == LogicalOf(word) && r.physicalAddress == PhysicalOf(word)
      else r.logicalAddress == ShortLogicalOf(word) && r.physicalAddress == ShortPhysicalOf(word)
    ensures
      var wide := |address| == 4;
      && Widths(wide, r)
      && ClientOctet(r.clientAddress) == client
      && AddressOctets(wide, r.logicalAddress, r.physicalAddress) == address
      && ResponseControl(r.cmd, r.rrr, r.sss) == control
  {
    hide ResponseControl, CommandOf, ReceiveNumber, SendNumber, ClientOctet, AddressOctets, LogicalOf, PhysicalOf,
         ShortLogicalOf, ShortPhysicalOf, BigEndian, Extension, PollFinal, Command, AddressForm;
    ClientUnique(client);
    ControlUnique(control);
    AddressUnique(address);
  }

  lemma AddressUnique(s: bytes)
    requires |s| in {2, 4} && AddressForm(s)
    ensures
      var w := BigEndian(s);
      if |s| == 4 then
        LogicalOf(w) < 0x4000 && PhysicalOf(w) < 0x4000 && AddressOctets(true, LogicalOf(w), PhysicalOf(w)) == s
      else
        && ShortLogicalOf(w) < 0x80 && ShortPhysicalOf(w) < 0x80
        && AddressOctets(false, ShortLogicalOf(w), ShortPhysicalOf(w)) == s
  {
    hide BigEndian, LogicalOf, PhysicalOf, ShortLogicalOf, ShortPhysicalOf, ServerAddress, LowSeven, LastSeven,
         Extension;
    if |s| == 4 {
      AddressSplitJoin(s);
    } else {
      ShortSplitJoin(s);
    }
  }

  lemma DecodedParts(b: bytes)
    requires Framed(b) && DecodeIntended(b).Ok?
    ensures AddressOffset(b, 0) in {1, 3} && AddressOffset(b, 0) + 9 <= |b|
    ensures
      var r, a := DecodeIntended(b).value, AddressOffset(b, 0);
      var word := BigEndian(b[4..a + 5]);
      && r.cmd == CommandOf(b[a + 5]) && r.rrr == ReceiveNumber(b[a + 5]) && r.sss == SendNumber(b[a + 5])
      && r.clientAddress == b[3] >> 1
      && (if a == 3 then r.logicalAddress == LogicalOf(word) && r.physicalAddress == PhysicalOf(word)
          else r.logicalAddress == ShortLogicalOf(word) && r.physicalAddress == ShortPhysicalOf(word))
      && Payload(b) == Ok(r.payload)
  {
    hide Framed, BigEndian, LogicalOf, PhysicalOf, ShortLogicalOf, ShortPhysicalOf, CommandOf, ReceiveNumber,
         SendNumber, Payload, AddressOffset, Control, HasInformation;
    FramedSize(b);
  }

  lemma ParsedInformation(b: bytes)
    requires ParseIntended(b).Ok?
    ensures Framed(b)
    ensures ResponseInformation(ParseIntended(b).value.cmd, ParseIntended(b).value.payload) == Information(b)
  {
    hide Framed, ParseIntended, DecodeIntended, ValidFrameIntended, ReceiveNumber, SendNumber, LogicalOf, PhysicalOf,
         ShortLogicalOf, ShortPhysicalOf, BigEndian, Information, CommandOf, AddressOffset, Control;
    ParsedDecodes(b);
    DecodedParts(b);
    FramedSize(b);
    PayloadCases(b);
    if CommandOf(Control(b)) == RESPONSE_I {
      LlcInside(b);
    }
    InformationParsed(b);
  }

  lemma InformationParsed(b: bytes)
    requires Framed(b) && Payload(b).Ok?
    requires CommandOf(Control(b)) == RESPONSE_I ==> 3 <= |Information(b)|
    ensures ResponseInformation(CommandOf(Control(b)), Payload(b).value) == Information(b)
  {
    hide Framed, CommandOf, Control, AddressOffset, Information;
    FramedInformation(b);
    LlcOpens(Information(b));
    assert [] + Information(b) == Information(b);
  }

  /** The intended parser reads a buffer as `r` iff it is the response that says `r`, in one of the two widths. */
  lemma ParsesIff(b: bytes, r: HdlcFrame)
    ensures ParseIntended(b) == Ok(r) <==> exists wide :: Conformant(wide, r) && b == Response(wide, r)
  {
    hide Conformant, Response, ParseIntended, Framed, AddressOffset;
    if ParseIntended(b) == Ok(r) {
      ParsedIsConformant(b);
      assert b == Response(AddressOffset(b, 0) == 3, r);
    }
    if wide :| Conformant(wide, r) && b == Response(wide, r) {
      ResponseRoundTrip(wide, r);
    }
  }
}
