/** The header check as written: how far its verdicts are the intended ones, and what the code accepts by it. */
module AsWritten {
  import opened Octets
  import opened Results
  import opened Fcs
  import opened HdlcFrame
  import opened Mirror
  import opened Exactness

  /** The header check of the octets before it. */
  function HeaderCheckOf(b: bytes): bv16
    requires 10 <= |b|
  {
    CheckSequence(b[1..AddressOffset(b, 0) + 6])
  }

  /**
   * The code's header check gives the intended verdict iff the low octet received is right and just
   * one of two octets is the high octet of the check: the one received for it, or the control octet.
   */
  lemma HeaderChecksAgree(b: bytes)
    requires Framed(b) && HasInformation(b)
    ensures
      var a, check := AddressOffset(b, 0), HeaderCheckOf(b);
      && a + 12 <= |b|
      && ((ValidFrame(b) <==> ValidFrameIntended(b))
          <==> b[a + 6] == Lo(check) && ((b[a + 7] == Hi(check)) != (b[a + 5] == Hi(check))))
  {
    hide Framed, Information, AddressOffset, CheckSequence, Join, Lo, Hi;
    FramedInformation(b);
    FramedSize(b);
    var a, check := AddressOffset(b, 0), HeaderCheckOf(b);
    JoinInjective(b[a + 5], b[a + 6], check);
    JoinInjective(b[a + 7], b[a + 6], check);
  }

  // ---------- frames with any header check ----------

  function OpeningOf(wide: bool, r: HdlcFrame, info: bytes): bytes {
    Opening([ClientOctet(r.clientAddress)], AddressOctets(wide, r.logicalAddress, r.physicalAddress),
            ResponseControl(r.cmd, r.rrr, r.sss), info)
  }

  /** A frame with any information field and any two octets for its header check, its frame check being right. */
  function CheckedFrame(wide: bool, r: HdlcFrame, info: bytes, lo: byte, hi: byte): bytes {
    [FLAG] + Sealed(OpeningOf(wide, r, info) + [lo, hi] + info) + [FLAG]
  }

  /** A response with any two octets in place of its header check. */
  function WithHeaderCheck(wide: bool, r: HdlcFrame, lo: byte, hi: byte): bytes {
    CheckedFrame(wide, r, ResponseInformation(r.cmd, r.payload), lo, hi)
  }

  predicate Fits(wide: bool, r: HdlcFrame, info: bytes) {
    Widths(wide, r) && info != [] && 8 + AddressSize(wide) + |info| <= MAX_LENGTH
  }

  /** The check as written passes: the control octet and the low octet do not make up the right one. */
  predicate Passes(wide: bool, r: HdlcFrame, info: bytes, lo: byte) {
    var check := CheckSequence(OpeningOf(wide, r, info));
    !(ResponseControl(r.cmd, r.rrr, r.sss) == Hi(check) && lo == Lo(check))
  }

  lemma CheckedParts(wide: bool, r: HdlcFrame, info: bytes, lo: byte, hi: byte)
    ensures
      var b, h := CheckedFrame(wide, r, info, lo, hi), 4 + AddressSize(wide);
      && |b| == h + 6 + |info| && b[0] == FLAG && b[|b| - 1] == FLAG
      && b[1..h + 1] == OpeningOf(wide, r, info) && b[h + 1] == lo && b[h + 2] == hi
      && b[h + 3..|b| - 3] == info
      && b[1..|b| - 1] == Sealed(b[1..|b| - 3])
  {
    hide CheckSequence, Lo, Hi, HighSeven, LowSeven, LastSeven, FormatOctet, Oct;
    assert |OpeningOf(wide, r, info)| == 4 + AddressSize(wide);
    hide OpeningOf;
    var s := OpeningOf(wide, r, info) + [lo, hi] + info;
    Flagged(s, Sealed(s));
    ThreePieces(OpeningOf(wide, r, info), lo, hi, info);
    PrefixPieces(CheckedFrame(wide, r, info, lo, hi), s, 4 + AddressSize(wide));
  }

  lemma Flagged(s: bytes, sealed: bytes)
    requires |sealed| == |s| + 2 && sealed[..|s|] == s
    ensures var b := [FLAG] + sealed + [FLAG];
      && |b| == |s| + 4 && b[0] == FLAG && b[|b| - 1] == FLAG && b[1..|b| - 1] == sealed && b[1..|b| - 3] == s
  {}

  lemma ThreePieces(opening: bytes, lo: byte, hi: byte, info: bytes)
    ensures var s, n := opening + [lo, hi] + info, |opening|;
      |s| == n + 2 + |info| && s[..n] == opening && s[n] == lo && s[n + 1] == hi && s[n + 2..] == info
  {}

  lemma PrefixPieces(b: bytes, s: bytes, n: nat)
    requires n + 2 <= |s| && |b| == |s| + 4 && b[1..|b| - 3] == s
    ensures b[1..n + 1] == s[..n] && b[n + 1] == s[n] && b[n + 2] == s[n + 1] && b[n + 3..|b| - 3] == s[n + 2..]
  {}

  /** Such a frame is framed, and bears what it was made of. */
  lemma CheckedBears(wide: bool, r: HdlcFrame, info: bytes, lo: byte, hi: byte)
    requires Fits(wide, r, info)
    ensures
      var b, h := CheckedFrame(wide, r, info, lo, hi), 4 + AddressSize(wide);
      && Bears(b, wide, r, info) && HasInformation(b) && AddressOffset(b, 0) == h - 5
      && HeaderCheckOf(b) == CheckSequence(OpeningOf(wide, r, info))
      && b[h] == ResponseControl(r.cmd, r.rrr, r.sss) && b[h + 1] == lo && b[h + 2] == hi
  {
    hide LengthOf, Extension, PollFinal, FormatType3, FormatOctet, Oct, Feed, Sealed, Join, Lo, Hi, Frame, Framed,
         CheckedFrame, ResponseControl, ClientOctet, AddressOctets, AddressForm, AddressOffset, Command, Control;
    var b := CheckedFrame(wide, r, info, lo, hi);
    var address := AddressOctets(wide, r.logicalAddress, r.physicalAddress);
    CheckedParts(wide, r, info, lo, hi);
    AddressOctetsForm(wide, r.logicalAddress, r.physicalAddress);
    ControlRoundTrip(r.cmd, r.rrr, r.sss);
    ClientRoundTrip(r.clientAddress);
    CheckedHeader(b, wide, r, info);
    hide OpeningOf;
    OffsetOf(b, address, 0);
    FormatRoundTrip(|b| - 2);
    SealedResidue(b[1..|b| - 3]);
    ClosingCheck(b, b[1..|b| - 1]);
    FramedFrom(b, AddressSize(wide) - 1);
  }

  lemma CheckedHeader(b: bytes, wide: bool, r: HdlcFrame, info: bytes)
    requires info != []
    requires var h := 4 + AddressSize(wide); |b| == h + 6 + |info| && b[1..h + 1] == OpeningOf(wide, r, info)
    ensures b[1] == FormatOctet(|b| - 2) && b[2] == Oct(|b| - 2) && b[3] == ClientOctet(r.clientAddress)
    ensures b[4..4 + AddressSize(wide)] == AddressOctets(wide, r.logicalAddress, r.physicalAddress)
    ensures b[4 + AddressSize(wide)] == ResponseControl(r.cmd, r.rrr, r.sss)
  {
    hide FormatOctet, Oct, ResponseControl, ClientOctet, AddressOctets;
    var address := AddressOctets(wide, r.logicalAddress, r.physicalAddress);
    AddressOctetsForm(wide, r.logicalAddress, r.physicalAddress);
    OpeningParts([ClientOctet(r.clientAddress)], address, ResponseControl(r.cmd, r.rrr, r.sss), info);
    hide Opening;
    SliceParts(b, 4 + AddressSize(wide));
  }

  lemma SliceParts(b: bytes, h: nat)
    requires 5 <= h < |b|
    ensures var s := b[1..h + 1];
      s[0] == b[1] && s[1] == b[2] && s[2..3] == [b[3]] && s[3..h - 1] == b[4..h] && s[h - 1] == b[h]
  {
    SliceOf(b, 1, h + 1, 2, 3);
    SliceOf(b, 1, h + 1, 3, h - 1);
    assert b[1..h + 1][h - 1] == b[1 + (h - 1)];
  }

  lemma SliceOf(b: bytes, i: nat, j: nat, p: nat, q: nat)
    requires i <= j <= |b| && p <= q <= j - i
    ensures b[i..j][p..q] == b[i + p..i + q]
  {
    var s := b[i..j];
    assert |s[p..q]| == |b[i + p..i + q]|;
    forall k | 0 <= k < q - p
      ensures s[p..q][k] == b[i + p..i + q][k]
    {
      assert s[p..q][k] == s[p + k] == b[i + (p + k)];
    }
  }

  /** The verdicts of both header checks on such a frame. */
  lemma CheckedVerdicts(wide: bool, r: HdlcFrame, info: bytes, lo: byte, hi: byte)
    requires Fits(wide, r, info)
    ensures
      var b, check := CheckedFrame(wide, r, info, lo, hi), CheckSequence(OpeningOf(wide, r, info));
      && Bears(b, wide, r, info)
      && (ValidFrame(b) <==> Passes(wide, r, info, lo))
      && (ValidFrameIntended(b) <==> hi == Hi(check) && lo == Lo(check))
  {
    hide CheckedFrame, CheckSequence, OpeningOf, ResponseControl, Framed, Join, Lo, Hi, ClientOctet, AddressOctets,
         Fits, AddressOffset, Information, Control;
    var b, h := CheckedFrame(wide, r, info, lo, hi), 4 + AddressSize(wide);
    var check := CheckSequence(OpeningOf(wide, r, info));
    CheckedBears(wide, r, info, lo, hi);
    FramedSize(b);
    JoinInjective(b[h], lo, check);
    JoinInjective(hi, lo, check);
  }

  /**
   * As written, a response is read with any header check at all, unless its control octet and the low
   * octet received make up the right one; the intended check reads it with the right one only.
   */
  lemma AnyHeaderCheck(wide: bool, r: HdlcFrame, lo: byte, hi: byte)
    requires Conformant(wide, r) && ResponseInformation(r.cmd, r.payload) != []
    ensures
      var b, check := WithHeaderCheck(wide, r, lo, hi), CheckSequence(ResponseOpening(wide, r));
      var control := ResponseControl(r.cmd, r.rrr, r.sss);
      && Parse(b) == (if control == Hi(check) && lo == Lo(check) then Err(InvalidHdlcFrame) else Ok(AsRead(wide, r)))
      && ParseIntended(b) == (if hi == Hi(check) && lo == Lo(check) then Ok(r) else Err(InvalidHdlcFrame))
  {
    hide CheckedFrame, CheckSequence, ResponseControl, ResponseInformation, Decode, DecodeIntended, Lo, Hi,
         ClientOctet, AddressOctets, Widths, AsRead, Opening, ValidFrame, ValidFrameIntended, Bears;
    CheckedVerdicts(wide, r, ResponseInformation(r.cmd, r.payload), lo, hi);
    SaidDecodes(WithHeaderCheck(wide, r, lo, hi), wide, r);
  }

  // ---------- exactly what the code accepts ----------

  /**
   * The information field carries the payload: it is the response's own, or it is shorter than the LLC
   * octets of an I frame, and the frame check happens to complete them.
   */
  predicate Carries(b: bytes, wide: bool, r: HdlcFrame, info: bytes) {
    || info == ResponseInformation(r.cmd, r.payload)
    || (r.cmd == RESPONSE_I && r.payload == [] && |info| < 3 && OpensWithLlc(b, 7 + AddressSize(wide)))
  }

  /** A conformant response without information field, which has one check only. */
  ghost predicate Bare(b: bytes, f: HdlcFrame) {
    exists wide, r ::
      && Conformant(wide, r) && ResponseInformation(r.cmd, r.payload) == []
      && b == Response(wide, r) && f == AsRead(wide, r)
  }

  /** A frame with any header check that passes the test as written. */
  ghost predicate Passed(b: bytes, f: HdlcFrame) {
    exists wide, r, info, lo, hi ::
      && Fits(wide, r, info) && b == CheckedFrame(wide, r, info, lo, hi) && Passes(wide, r, info, lo)
      && Carries(b, wide, r, info) && f == AsRead(wide, r)
  }

  lemma BareParses(b: bytes, f: HdlcFrame)
    requires Bare(b, f)
    ensures Parse(b) == Ok(f)
  {
    hide Conformant, ResponseInformation, Response, AsRead, Parse;
    var wide, r :| Conformant(wide, r) && ResponseInformation(r.cmd, r.payload) == []
                   && b == Response(wide, r) && f == AsRead(wide, r);
    ResponseRoundTripAsWritten(wide, r);
  }

  lemma CarriedPayload(b: bytes, wide: bool, r: HdlcFrame, info: bytes)
    requires Widths(wide, r) && Bears(b, wide, r, info) && Carries(b, wide, r, info)
    ensures Payload(b) == Ok(r.payload)
  {
    hide Framed, Control, Information, AddressOffset, ResponseControl, CommandOf, ClientOctet, AddressOctets;
    if info == ResponseInformation(r.cmd, r.payload) {
      SaidPayload(b, wide, r);
    } else {
      ControlRoundTrip(r.cmd, r.rrr, r.sss);
    }
  }

  lemma PassedParses(b: bytes, f: HdlcFrame)
    requires Passed(b, f)
    ensures Parse(b) == Ok(f)
  {
    hide Fits, CheckedFrame, Passes, Carries, AsRead, ValidFrame, ValidFrameIntended, Decode, Bears;
    var wide, r, info, lo, hi :| Fits(wide, r, info) && b == CheckedFrame(wide, r, info, lo, hi)
                                 && Passes(wide, r, info, lo) && Carries(b, wide, r, info) && f == AsRead(wide, r);
    FitsWidths(wide, r, info);
    CheckedVerdicts(wide, r, info, lo, hi);
    CarriedPayload(b, wide, r, info);
    BorneDecodes(b, wide, r, info);
  }

  lemma FitsWidths(wide: bool, r: HdlcFrame, info: bytes)
    requires Fits(wide, r, info)
    ensures Widths(wide, r)
  {
    hide Widths;
  }

  lemma ParsesBare(b: bytes, f: HdlcFrame)
    requires Parse(b) == Ok(f) && Framed(b) && !HasInformation(b)
    ensures Bare(b, f)
  {
    hide Framed, Response, AsRead, Conformant, HasInformation, Information, ResponseInformation, AddressOffset;
    FramedSize(b);
    BareIntended(b, f);
    var wide, r := AddressOffset(b, 0) == 3, DecodeIntended(b).value;
    ParsedIsConformant(b);
    ParsedInformation(b);
    FramedParts(b);
    ResponseRoundTripAsWritten(wide, r);
    hide Parse, ParseIntended;
  }

  lemma BareIntended(b: bytes, f: HdlcFrame)
    requires Parse(b) == Ok(f) && Framed(b) && !HasInformation(b)
    ensures ParseIntended(b).Ok? && ParseIntended(b) == DecodeIntended(b)
  {
    hide Framed, HasInformation, Decode, AddressOffset;
  }

  lemma ParsesPassed(b: bytes, f: HdlcFrame)
    requires Parse(b) == Ok(f) && Framed(b) && HasInformation(b)
    ensures Passed(b, f)
  {
    hide *;
    WrittenDecodes(b, f);
    FramedSize(b);
    InformationHad(b);
    var wide, r, info, h := AddressOffset(b, 0) == 3, DecodeIntended(b).value, Information(b), AddressOffset(b, 0) + 5;
    DecodedFields(b);
    FramedParts(b);
    FramedBears(b, wide, r);
    CheckedUnique(b, wide, r);
    DecodedFits(b, wide, r);
    CheckedVerdicts(wide, r, info, b[h + 1], b[h + 2]);
    DecodedCarries(b, wide, r);
    DecodedAsRead(b, wide, r, info);
    PassedBy(b, f, wide, r, info, b[h + 1], b[h + 2]);
  }

  lemma PassedBy(b: bytes, f: HdlcFrame, wide: bool, r: HdlcFrame, info: bytes, lo: byte, hi: byte)
    requires Fits(wide, r, info) && b == CheckedFrame(wide, r, info, lo, hi) && Passes(wide, r, info, lo)
    requires Carries(b, wide, r, info) && f == AsRead(wide, r)
    ensures Passed(b, f)
  {
    hide Fits, CheckedFrame, Passes, Carries, AsRead;
  }

  lemma WrittenDecodes(b: bytes, f: HdlcFrame)
    requires Parse(b) == Ok(f)
    ensures Framed(b) && ValidFrame(b) && Decode(b) == Ok(f) && DecodeIntended(b).Ok?
  {
    hide Framed, Decode, HasInformation, HeaderCheckAsWritten, AddressOffset;
  }

  lemma DecodedAsRead(b: bytes, wide: bool, r: HdlcFrame, info: bytes)
    requires Widths(wide, r) && Bears(b, wide, r, info) && Payload(b) == Ok(r.payload)
    ensures Framed(b) && Decode(b) == Ok(AsRead(wide, r))
  {
    BorneDecodes(b, wide, r, info);
    hide *;
  }

  lemma FramedBears(b: bytes, wide: bool, r: HdlcFrame)
    requires Framed(b) && AddressOffset(b, 0) == AddressSize(wide) - 1 && 8 + AddressSize(wide) <= |b|
    requires
      var h := AddressOffset(b, 0) + 5;
      && [ClientOctet(r.clientAddress)] == [b[3]]
      && AddressOctets(wide, r.logicalAddress, r.physicalAddress) == b[4..h]
      && ResponseControl(r.cmd, r.rrr, r.sss) == b[h]
    ensures Bears(b, wide, r, Information(b))
  {
    hide Framed, ClientOctet, AddressOctets, ResponseControl, Information, AddressOffset;
    FramedSize(b);
  }

  /** A framed buffer with an information field is such a frame around its own parts. */
  lemma CheckedUnique(b: bytes, wide: bool, r: HdlcFrame)
    requires HasInfo(b) && Bears(b, wide, r, Information(b))
    ensures
      var h := AddressOffset(b, 0) + 5;
      h + 7 <= |b| && b == CheckedFrame(wide, r, Information(b), b[h + 1], b[h + 2])
  {
    hide *;
    BearsParts(b, wide, r);
    FramedSize(b);
    var h, info := AddressOffset(b, 0) + 5, Information(b);
    FramedParts(b);
    FormatUnique(b[1], b[2]);
    LengthUnique(b, h, info);
    OpeningUnique(b, h, info);
    OpeningOfParts(b, h, wide, r, info);
    SealedUnique(b[1..|b| - 3], b[|b| - 3], b[|b| - 2]);
    CheckedFrom(b, h, wide, r, info);
  }

  predicate HasInfo(b: bytes) {
    Framed(b) && HasInformation(b)
  }

  lemma InformationHad(b: bytes)
    requires Framed(b)
    ensures 8 <= |b| && (HasInfo(b) <==> HasInformation(b))
  {
    hide HasInformation;
  }

  lemma BearsParts(b: bytes, wide: bool, r: HdlcFrame)
    requires HasInfo(b) && Bears(b, wide, r, Information(b))
    ensures Framed(b) && HasInformation(b) && AddressOffset(b, 0) == AddressSize(wide) - 1
    ensures
      var h := AddressOffset(b, 0) + 5;
      && b[3] == ClientOctet(r.clientAddress) && h < |b|
      && b[4..h] == AddressOctets(wide, r.logicalAddress, r.physicalAddress)
      && b[h] == ResponseControl(r.cmd, r.rrr, r.sss)
  {
    hide Framed, ClientOctet, AddressOctets, ResponseControl, Information, AddressOffset, HasInformation;
    FramedSize(b);
  }

  lemma OpeningOfParts(b: bytes, h: nat, wide: bool, r: HdlcFrame, info: bytes)
    requires 4 <= h < |b| && b[3] == ClientOctet(r.clientAddress)
    requires b[4..h] == AddressOctets(wide, r.logicalAddress, r.physicalAddress)
    requires b[h] == ResponseControl(r.cmd, r.rrr, r.sss)
    ensures OpeningOf(wide, r, info) == Opening([b[3]], b[4..h], b[h], info)
  {
    hide Opening, ClientOctet, AddressOctets, ResponseControl;
  }

  lemma CheckedFrom(b: bytes, h: nat, wide: bool, r: HdlcFrame, info: bytes)
    requires 4 <= h && h + 7 <= |b| && b[0] == FLAG && b[|b| - 1] == FLAG && info == b[h + 3..|b| - 3]
    requires OpeningOf(wide, r, info) == b[1..h + 1]
    requires b[1..|b| - 3] + [b[|b| - 3], b[|b| - 2]] == Sealed(b[1..|b| - 3])
    ensures b == CheckedFrame(wide, r, info, b[h + 1], b[h + 2])
  {
    hide OpeningOf, Sealed;
    assert b[1..|b| - 3] == b[1..h + 1] + [b[h + 1], b[h + 2]] + info;
    assert b == [b[0]] + (b[1..|b| - 3] + [b[|b| - 3], b[|b| - 2]]) + [b[|b| - 1]];
  }

  lemma DecodedFits(b: bytes, wide: bool, r: HdlcFrame)
    requires HasInfo(b) && Widths(wide, r) && AddressOffset(b, 0) == AddressSize(wide) - 1 && |b| <= MAX_LENGTH + 2
    ensures Fits(wide, r, Information(b))
  {
    hide Framed, Widths, Information, AddressOffset;
    FramedParts(b);
  }

  lemma DecodedCarries(b: bytes, wide: bool, r: HdlcFrame)
    requires HasInfo(b) && Widths(wide, r) && Bears(b, wide, r, Information(b)) && Payload(b) == Ok(r.payload)
    ensures Carries(b, wide, r, Information(b))
  {
    hide Framed, Control, Information, AddressOffset, ResponseControl, CommandOf, ClientOctet, AddressOctets,
         HasInformation;
    ControlRoundTrip(r.cmd, r.rrr, r.sss);
    FramedSize(b);
    if r.cmd != RESPONSE_I || 3 <= |Information(b)| {
      InformationParsed(b);
    }
  }

  lemma ParseErrors(b: bytes)
    ensures Parse(b).Err? ==> Parse(b) == Err(InvalidHdlcFrame)
  {
    hide ValidFrame, LogicalOf, PhysicalOf, CommandOf, ReceiveNumber, SendNumber, BigEndian, Information, Framed;
  }

  /**
   * As written, a buffer is read as `f` iff it is a conformant response without information field, or a
   * frame whose octets for the header check pass the test as written and whose information field
   * carries a payload.  Everything else is refused with the same error.
   */
  lemma ParsesAsWrittenIff(b: bytes, f: HdlcFrame)
    ensures Parse(b) == Ok(f) <==> Bare(b, f) || Passed(b, f)
    ensures Parse(b).Err? ==> Parse(b) == Err(InvalidHdlcFrame)
  {
    hide *;
    ParseErrors(b);
    if Bare(b, f) {
      BareParses(b, f);
    }
    if Passed(b, f) {
      PassedParses(b, f);
    }
    if Parse(b) == Ok(f) {
      WrittenDecodes(b, f);
      FramedSize(b);
      if HasInformation(b) {
        ParsesPassed(b, f);
      } else {
        ParsesBare(b, f);
      }
    }
  }
}
