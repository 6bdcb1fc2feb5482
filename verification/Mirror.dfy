/**
 * The other end of the link, for stating what the codec does: frames as the standard lays them
 * out, a server that writes responses, and a server that reads requests.
 *
 * `Frame` is the layout of ISO/IEC 13239 section H.4 with extended addresses (section 4.7.1).
 */
module Mirror {
  import opened Octets
  import opened Results
  import opened Fcs
  import opened HdlcFrame

  const MAX_LENGTH: nat := 4095

  // ---------- the layout ----------

  function FrameLength(destination: bytes, source: bytes, info: bytes): nat {
    2 + |destination| + |source| + 1 + 2 + (if info == [] then 0 else |info| + 2)
  }

  function Opening(destination: bytes, source: bytes, control: byte, info: bytes): bytes {
    var n := FrameLength(destination, source, info);
    [FormatOctet(n), Oct(n)] + destination + source + [control]
  }

  function Contents(opening: bytes, info: bytes): bytes {
    if info == [] then Sealed(opening) else Sealed(Sealed(opening) + info)
  }

  function Frame(destination: bytes, source: bytes, control: byte, info: bytes): bytes {
    [FLAG] + Contents(Opening(destination, source, control, info), info) + [FLAG]
  }

  lemma ContentsLength(opening: bytes, info: bytes)
    ensures |Contents(opening, info)| == |opening| + 2 + (if info == [] then 0 else |info| + 2)
    ensures Contents(opening, info)[..|opening|] == opening
    ensures Contents(opening, info)[..|opening| + 2] == Sealed(opening)
    ensures info != [] ==> Contents(opening, info)[|opening| + 2..|opening| + 2 + |info|] == info
  {
    hide CheckSequence, Lo, Hi;
  }

  lemma ContentsResidue(opening: bytes, info: bytes)
    ensures Feed(0xFFFF, Contents(opening, info)) == RESIDUE
  {
    hide Feed, Sealed;
    SealedResidue(if info == [] then opening else Sealed(opening) + info);
  }

  /** The length octets carry the low twelve bits of a length. */
  lemma FormatRoundTrip(n: nat)
    ensures FormatType3(FormatOctet(n))
    ensures LengthOf(FormatOctet(n), Oct(n)) == n % 4096
  {
    Nibble(n / 256 % 16);
    ValOct(n);
    assert FormatOctet(n) == 0xA0 | Oct(n / 256 % 16);
    LowTwelve(n);
    hide Val, Oct, FormatType3;
  }

  lemma LowTwelve(n: nat)
    ensures n / 256 % 16 * 256 + n % 256 == n % 4096
  {}

  lemma Nibble(k: nat)
    requires k < 16
    ensures Val((0xA0 | Oct(k)) & 0x0F) == k
    ensures FormatType3(0xA0 | Oct(k))
  {}

  // ---------- what the client's parser sees in a frame ----------

  /** An address of one or more octets: the extension bit is set on the last octet only. */
  predicate AddressForm(s: bytes) {
    && s != []
    && Extension(s[|s| - 1])
    && forall i :: 0 <= i < |s| - 1 ==> !Extension(s[i])
  }

  lemma {:induction false} OffsetOf(b: bytes, address: bytes, k: nat)
    requires 1 <= |address| <= 4 && k < |address| && AddressForm(address)
    requires 8 <= |b| && 4 + |address| <= |b| && b[4..4 + |address|] == address
    ensures AddressOffset(b, k) == |address| - 1
    decreases |address| - k
  {
    hide Extension;
    assert b[4 + k] == b[4..4 + |address|][k];
    if k < |address| - 1 {
      OffsetOf(b, address, k + 1);
    }
  }

  /** The octets of a frame, by position. */
  lemma FrameParts(destination: bytes, source: bytes, control: byte, info: bytes)
    ensures
      var b := Frame(destination, source, control, info);
      var n := FrameLength(destination, source, info);
      var h := 1 + 2 + |destination| + |source|;
      && |b| == n + 2
      && b[0] == FLAG && b[|b| - 1] == FLAG
      && b[1] == FormatOctet(n) && b[2] == Oct(n)
      && b[3..3 + |destination|] == destination
      && b[3 + |destination|..h] == source
      && b[h] == control
      && b[1..h + 1] == Opening(destination, source, control, info)
      && b[1..h + 3] == Sealed(Opening(destination, source, control, info))
      && b[1..|b| - 1] == Contents(Opening(destination, source, control, info), info)
      && (info != [] ==> b[h + 3..|b| - 3] == info)
  {
    hide CheckSequence, FormatOctet, Oct, Contents, Sealed;
    var opening := Opening(destination, source, control, info);
    ContentsLength(opening, info);
    FrameAround(Contents(opening, info), opening, info);
    OpeningParts(destination, source, control, info);
    var b := Frame(destination, source, control, info);
    var h := 1 + 2 + |destination| + |source|;
    hide Frame, Opening;
    assert b[1] == b[1..h + 1][0] && b[2] == b[1..h + 1][1] && b[h] == b[1..h + 1][h - 1];
    assert b[3..3 + |destination|] == b[1..h + 1][2..2 + |destination|];
    assert b[3 + |destination|..h] == b[1..h + 1][2 + |destination|..h - 1];
  }

  lemma FrameAround(contents: bytes, opening: bytes, info: bytes)
    requires |opening| + 2 <= |contents| && contents[..|opening|] == opening
    requires |contents| == |opening| + 2 + (if info == [] then 0 else |info| + 2)
    ensures var b := [FLAG] + contents + [FLAG];
      && |b| == |contents| + 2 && b[0] == FLAG && b[|b| - 1] == FLAG
      && b[1..|opening| + 1] == opening
      && b[1..|opening| + 3] == contents[..|opening| + 2]
      && b[1..|b| - 1] == contents
      && (info != [] ==> b[|opening| + 3..|b| - 3] == contents[|opening| + 2..|opening| + 2 + |info|])
  {
    BetweenFlags(contents, 0, |opening|);
    BetweenFlags(contents, 0, |opening| + 2);
    BetweenFlags(contents, 0, |contents|);
    if info != [] {
      BetweenFlags(contents, |opening| + 2, |opening| + 2 + |info|);
    }
  }

  lemma BetweenFlags(contents: bytes, i: nat, j: nat)
    requires i <= j <= |contents|
    ensures ([FLAG] + contents + [FLAG])[i + 1..j + 1] == contents[i..j]
  {}

  lemma OpeningParts(destination: bytes, source: bytes, control: byte, info: bytes)
    ensures
      var s := Opening(destination, source, control, info);
      var n := FrameLength(destination, source, info);
      var d := 2 + |destination|;
      && |s| == d + |source| + 1
      && s[0] == FormatOctet(n) && s[1] == Oct(n)
      && s[2..d] == destination && s[d..d + |source|] == source && s[|s| - 1] == control
  {
    hide FormatOctet, Oct, FrameLength;
    var n := FrameLength(destination, source, info);
    FourPieces([FormatOctet(n), Oct(n)], destination, source, [control]);
  }

  lemma FourPieces(a: bytes, b: bytes, c: bytes, d: bytes)
    ensures
      var s, i, j := a + b + c + d, |a| + |b|, |a| + |b| + |c|;
      |s| == j + |d| && s[..|a|] == a && s[|a|..i] == b && s[i..j] == c && s[j..] == d
  {}

  /** Every conformant frame from a server to this client is framed, and read part by part. */
  lemma ResponseFramed(client: byte, address: bytes, control: byte, info: bytes)
    requires Extension(client) && PollFinal(control)
    requires |address| in {2, 4} && AddressForm(address)
    requires FrameLength([client], address, info) <= MAX_LENGTH
    ensures
      var b := Frame([client], address, control, info);
      && Framed(b)
      && AddressOffset(b, 0) == |address| - 1
      && b[3] == client && b[4..4 + |address|] == address
      && Control(b) == control
      && Information(b) == info
      && HasInformation(b) == (info != [])
  {
    hide LengthOf, Extension, PollFinal, FormatType3, FormatOctet, Oct, Feed, Sealed, Join, Lo, Hi, Opening, Contents,
         Frame, Framed;
    var b := Frame([client], address, control, info);
    var n := FrameLength([client], address, info);
    var opening := Opening([client], address, control, info);
    FrameParts([client], address, control, info);
    assert b[3] == b[3..3 + 1][0];
    assert 3 + |[client]| == 4;
    OffsetOf(b, address, 0);
    FormatRoundTrip(n);
    ClosingCheck(b, Contents(opening, info));
    ContentsResidue(opening, info);
    FramedFrom(b, |address| - 1);
  }

  /** The conditions of the validator, one by one. */
  lemma FramedFrom(b: bytes, a: nat)
    requires 10 <= |b| && b[0] == FLAG && b[|b| - 1] == FLAG
    requires FormatType3(b[1]) && LengthOf(b[1], b[2]) == |b| - 2
    requires Join(b[|b| - 2], b[|b| - 3]) == CheckSequence(b[1..|b| - 3])
    requires Extension(b[3]) && AddressOffset(b, 0) == a && a in {1, 3}
    requires |b| == a + 9 || a + 12 <= |b|
    requires PollFinal(b[a + 5])
    ensures Framed(b) && Control(b) == b[a + 5]
    ensures HasInformation(b) == (|b| != a + 9)
    ensures Information(b) == if |b| == a + 9 then [] else b[a + 8..|b| - 3]
  {
    hide FormatType3, LengthOf, Join, CheckSequence, Extension, PollFinal;
  }

  /** The residue says the last two octets before the flag are the check sequence of the rest. */
  lemma ClosingCheck(b: bytes, contents: bytes)
    requires 5 <= |b| && b[1..|b| - 1] == contents
    ensures Feed(0xFFFF, contents) == RESIDUE <==> Join(b[|b| - 2], b[|b| - 3]) == CheckSequence(b[1..|b| - 3])
  {
    hide Feed, Join, Lo, Hi;
    var s := b[1..|b| - 3];
    var lo, hi := b[|b| - 3], b[|b| - 2];
    assert contents == s + [lo, hi];
    ResidueIffSealed(s, lo, hi);
    JoinInjective(hi, lo, CheckSequence(s));
    if s + [lo, hi] == Sealed(s) {
      assert (s + [lo, hi])[|s|] == Sealed(s)[|s|];
      assert (s + [lo, hi])[|s| + 1] == Sealed(s)[|s| + 1];
    }
  }

  // ---------- responses ----------

  /** The commands of the protocol: the I command, or an odd octet without the poll/final bit. */
  predicate Command(cmd: byte) {
    cmd == 0x00 || (cmd & 1 == 1 && cmd & 0x10 == 0)
  }

  function ResponseControl(cmd: byte, nr: byte, ns: byte): byte {
    if cmd == RESPONSE_I then (nr << 5) | 0x10 | (ns << 1) else cmd | 0x10
  }

  function ResponseInformation(cmd: byte, payload: bytes): bytes {
    (if cmd == 0x00 then [0xE6, 0xE7, 0x00] else []) + payload
  }

  /** A server address in four octets, fourteen bits of each part, or in two, seven bits of each. */
  function AddressOctets(wide: bool, logical: bv16, physical: bv16): bytes {
    if wide then ServerAddress(logical, physical) else [LowSeven(logical), LastSeven(physical)]
  }

  function AddressSize(wide: bool): nat {
    if wide then 4 else 2
  }

  /** A server's response. */
  function Response(wide: bool, r: HdlcFrame): bytes {
    Frame([ClientOctet(r.clientAddress)], AddressOctets(wide, r.logicalAddress, r.physicalAddress),
          ResponseControl(r.cmd, r.rrr, r.sss), ResponseInformation(r.cmd, r.payload))
  }

  function ResponseOpening(wide: bool, r: HdlcFrame): bytes {
    Opening([ClientOctet(r.clientAddress)], AddressOctets(wide, r.logicalAddress, r.physicalAddress),
            ResponseControl(r.cmd, r.rrr, r.sss), ResponseInformation(r.cmd, r.payload))
  }

  function ThreeBits(b: byte): byte {
    b & 7
  }

  function SevenBits(b: byte): byte {
    b & 0x7F
  }

  function FourteenBits(w: bv16): bv16 {
    w & 0x3FFF
  }

  /** Field widths: seven client bits, fourteen or seven bits of each server address, three of N(R) and N(S). */
  predicate Widths(wide: bool, r: HdlcFrame) {
    && Command(r.cmd)
    && r.clientAddress < 0x80
    && (if wide then r.logicalAddress < 0x4000 && r.physicalAddress < 0x4000
        else r.logicalAddress < 0x80 && r.physicalAddress < 0x80)
    && r.rrr < 8 && r.sss < 8
    && (r.cmd != RESPONSE_I ==> r.rrr == 0 && r.sss == 0)
  }

  predicate Conformant(wide: bool, r: HdlcFrame) {
    Widths(wide, r) && 6 + AddressSize(wide) + 2 + |ResponseInformation(r.cmd, r.payload)| <= MAX_LENGTH
  }

  lemma ControlRoundTrip(cmd: byte, nr: byte, ns: byte)
    requires Command(cmd) && nr < 8 && ns < 8 && (cmd != RESPONSE_I ==> nr == 0 && ns == 0)
    ensures var c := ResponseControl(cmd, nr, ns);
      PollFinal(c) && CommandOf(c) == cmd && ReceiveNumber(c) == nr && SendNumber(c) == ns
  {}

  lemma ClientRoundTrip(client: byte)
    ensures Extension(ClientOctet(client)) && ClientOctet(client) >> 1 == SevenBits(client)
  {}

  lemma ServerAddressForm(logical: bv16, physical: bv16)
    ensures |ServerAddress(logical, physical)| == 4 && AddressForm(ServerAddress(logical, physical))
  {}

  lemma AddressOctetsForm(wide: bool, logical: bv16, physical: bv16)
    ensures var s := AddressOctets(wide, logical, physical); |s| == AddressSize(wide) && AddressForm(s)
  {}

  lemma BigEndianFour(s: bytes)
    requires |s| == 4
    ensures BigEndian(s) == Grow(Grow(Grow(Grow(0, s[0]), s[1]), s[2]), s[3])
  {
    hide Grow;
    assert s[..3][..2] == s[..2] && s[..2][..1] == s[..1] && s[..1][..0] == [];
    assert BigEndian(s[..1]) == Grow(0, s[0]);
    assert BigEndian(s[..2]) == Grow(Grow(0, s[0]), s[1]);
    assert BigEndian(s[..3]) == Grow(Grow(Grow(0, s[0]), s[1]), s[2]);
  }

  lemma BigEndianTwo(s: bytes)
    requires |s| == 2
    ensures BigEndian(s) == Grow(Grow(0, s[0]), s[1])
  {
    hide Grow;
    assert s[..1][..0] == [];
    assert BigEndian(s[..1]) == Grow(0, s[0]);
  }

  /** Splitting two 14-bit addresses over four octets and joining them again. */
  lemma AddressRoundTrip(logical: bv16, physical: bv16)
    ensures var w := BigEndian(ServerAddress(logical, physical));
      LogicalOf(w) == FourteenBits(logical) && PhysicalOf(w) == FourteenBits(physical)
  {
    BigEndianFour(ServerAddress(logical, physical));
    SplitLogical(logical, LowSeven(logical), HighSeven(physical), LastSeven(physical));
    SplitPhysical(HighSeven(logical), LowSeven(logical), physical);
    hide Grow, HighSeven, LowSeven, LastSeven, LogicalOf, PhysicalOf, BigEndian;
  }

  /** Splitting two 7-bit addresses over two octets: the intended join, and the one the code does. */
  lemma ShortRoundTrip(logical: bv16, physical: bv16)
    requires logical < 0x80 && physical < 0x80
    ensures
      var w := BigEndian(AddressOctets(false, logical, physical));
      && ShortLogicalOf(w) == logical && ShortPhysicalOf(w) == physical
      && LogicalOf(w) == 0 && PhysicalOf(w) == SevenAndSeven(logical, physical)
  {
    BigEndianTwo(AddressOctets(false, logical, physical));
    SplitShort(logical, physical);
    hide Grow, LowSeven, LastSeven, LogicalOf, PhysicalOf, ShortLogicalOf, ShortPhysicalOf, BigEndian;
  }

  lemma SplitShort(logical: bv16, physical: bv16)
    requires logical < 0x80 && physical < 0x80
    ensures var w := Grow(Grow(0, LowSeven(logical)), LastSeven(physical));
      && ShortLogicalOf(w) == logical && ShortPhysicalOf(w) == physical
      && LogicalOf(w) == 0 && PhysicalOf(w) == SevenAndSeven(logical, physical)
  {
    ShortOctets(logical, physical);
    JoinTwo(LowSeven(logical), LastSeven(physical));
    hide *;
  }

  lemma ShortOctets(logical: bv16, physical: bv16)
    requires logical < 0x80 && physical < 0x80
    ensures Above(LowSeven(logical)) == logical && Above(LastSeven(physical)) == physical
    ensures !Extension(LowSeven(logical))
    ensures var w := Grow(Grow(0, LowSeven(logical)), LastSeven(physical));
      ShortLogicalOf(w) == logical && ShortPhysicalOf(w) == physical
  {
    OctetAbove(logical, physical);
    JoinAbove(LowSeven(logical), LastSeven(physical));
    hide *;
  }

  lemma OctetAbove(logical: bv16, physical: bv16)
    requires logical < 0x80 && physical < 0x80
    ensures Above(LowSeven(logical)) == logical && Above(LastSeven(physical)) == physical
    ensures !Extension(LowSeven(logical))
  {}

  lemma JoinAbove(a: byte, b: byte)
    ensures var w := Grow(Grow(0, a), b); ShortLogicalOf(w) == Above(a) && ShortPhysicalOf(w) == Above(b)
  {}

  lemma SplitLogical(logical: bv16, b: byte, c: byte, d: byte)
    requires b == LowSeven(logical)
    ensures LogicalOf(Grow(Grow(Grow(Grow(0, HighSeven(logical)), b), c), d)) == FourteenBits(logical)
  {}

  lemma SplitPhysical(a: byte, b: byte, physical: bv16)
    ensures PhysicalOf(Grow(Grow(Grow(Grow(0, a), b), HighSeven(physical)), LastSeven(physical)))
         == FourteenBits(physical)
  {}

  /** The other direction: any four address octets in form are the split of what they join to. */
  lemma AddressSplitJoin(s: bytes)
    requires |s| == 4 && AddressForm(s)
    ensures var w := BigEndian(s);
      LogicalOf(w) < 0x4000 && PhysicalOf(w) < 0x4000 && ServerAddress(LogicalOf(w), PhysicalOf(w)) == s
  {
    BigEndianFour(s);
    JoinFour(s[0], s[1], s[2], s[3]);
    hide Grow, LogicalOf, PhysicalOf, HighSeven, LowSeven, LastSeven, Extension;
  }

  lemma JoinFour(a: byte, b: byte, c: byte, d: byte)
    requires !Extension(a) && !Extension(b) && !Extension(c) && Extension(d)
    ensures var w := Grow(Grow(Grow(Grow(0, a), b), c), d);
      && LogicalOf(w) < 0x4000 && PhysicalOf(w) < 0x4000
      && HighSeven(LogicalOf(w)) == a && LowSeven(LogicalOf(w)) == b
      && HighSeven(PhysicalOf(w)) == c && LastSeven(PhysicalOf(w)) == d
  {}

  /** Any two address octets in form are the split of what they are meant to join to. */
  lemma ShortSplitJoin(s: bytes)
    requires |s| == 2 && AddressForm(s)
    ensures
      var w := BigEndian(s);
      var logical, physical := ShortLogicalOf(w), ShortPhysicalOf(w);
      logical < 0x80 && physical < 0x80 && AddressOctets(false, logical, physical) == s
  {
    BigEndianTwo(s);
    JoinShort(s[0], s[1]);
    hide Grow, ShortLogicalOf, ShortPhysicalOf, LowSeven, LastSeven, Extension;
  }

  lemma JoinShort(a: byte, b: byte)
    requires !Extension(a) && Extension(b)
    ensures var w := Grow(Grow(0, a), b);
      && ShortLogicalOf(w) < 0x80 && ShortPhysicalOf(w) < 0x80
      && LowSeven(ShortLogicalOf(w)) == a && LastSeven(ShortPhysicalOf(w)) == b
  {}

  /** The seven address bits of an octet. */
  function Above(b: byte): bv16 {
    (b >> 1) as bv16
  }

  function SevenAndSeven(high: bv16, low: bv16): bv16 {
    128 * high + low
  }

  /** A two-octet address (L, P) is read as logical 0 and physical 128 * L + P, rightly iff L is 0. */
  lemma TwoOctetAddress(b: bytes)
    requires Framed(b) && AddressOffset(b, 0) == 1 && Decode(b).Ok?
    ensures var f := Decode(b).value;
      && f.logicalAddress == 0
      && f.physicalAddress == SevenAndSeven(Above(b[4]), Above(b[5]))
      && (f.logicalAddress == Above(b[4]) && f.physicalAddress == Above(b[5]) <==> Above(b[4]) == 0)
  {
    hide Above, SevenAndSeven;
    AddressEnds(b, 0);
    DecodedAddress(b);
    hide Framed, Decode, Grow, LogicalOf, PhysicalOf, Extension;
    BigEndianTwo(b[4..6]);
    JoinTwo(b[4], b[5]);
  }

  lemma DecodedAddress(b: bytes)
    requires Framed(b) && Decode(b).Ok?
    ensures AddressOffset(b, 0) + 9 <= |b|
    ensures var word := BigEndian(b[4..AddressOffset(b, 0) + 5]);
      Decode(b).value.logicalAddress == LogicalOf(word) && Decode(b).value.physicalAddress == PhysicalOf(word)
  {
    hide CheckSequence, Join, Length12, FormatType3, Extension, PollFinal, LogicalOf, PhysicalOf, BigEndian;
  }

  lemma JoinTwo(a: byte, b: byte)
    requires !Extension(a)
    ensures var w := Grow(Grow(0, a), b);
      && LogicalOf(w) == 0
      && PhysicalOf(w) == SevenAndSeven(Above(a), Above(b))
      && (LogicalOf(w) == Above(a) && PhysicalOf(w) == Above(b) <==> Above(a) == 0)
  {}

  // ---------- the parser undoes the mirror encoder ----------

  lemma ResponseParts(wide: bool, r: HdlcFrame)
    requires Conformant(wide, r)
    ensures
      var b, n := Response(wide, r), AddressSize(wide);
      && Says(b, wide, r)
      && HasInformation(b) == (ResponseInformation(r.cmd, r.payload) != [])
      && b[4 + n] == Control(b)
      && b[1..5 + n] == ResponseOpening(wide, r)
      && b[1..7 + n] == Sealed(ResponseOpening(wide, r))
  {
    hide Feed, ClientOctet, AddressOctets, ResponseControl, ResponseInformation, Framed, Opening, Contents, Sealed,
         Control;
    AddressOctetsForm(wide, r.logicalAddress, r.physicalAddress);
    ControlRoundTrip(r.cmd, r.rrr, r.sss);
    ClientRoundTrip(r.clientAddress);
    var client := [ClientOctet(r.clientAddress)];
    var address := AddressOctets(wide, r.logicalAddress, r.physicalAddress);
    var control, info := ResponseControl(r.cmd, r.rrr, r.sss), ResponseInformation(r.cmd, r.payload);
    ResponseFramed(ClientOctet(r.clientAddress), address, control, info);
    FrameParts(client, address, control, info);
    hide Frame, HasInformation, Information, AddressForm;
  }

  /** A framed buffer whose parts are those of a response, but for its information field. */
  predicate Bears(b: bytes, wide: bool, r: HdlcFrame, info: bytes) {
    && Framed(b)
    && AddressOffset(b, 0) == AddressSize(wide) - 1 && 8 + AddressSize(wide) <= |b|
    && b[3] == ClientOctet(r.clientAddress)
    && b[4..4 + AddressSize(wide)] == AddressOctets(wide, r.logicalAddress, r.physicalAddress)
    && Control(b) == ResponseControl(r.cmd, r.rrr, r.sss)
    && Information(b) == info
  }

  predicate Says(b: bytes, wide: bool, r: HdlcFrame) {
    Bears(b, wide, r, ResponseInformation(r.cmd, r.payload))
  }

  lemma SaidPayload(b: bytes, wide: bool, r: HdlcFrame)
    requires Widths(wide, r) && Says(b, wide, r)
    ensures Payload(b) == Ok(r.payload)
  {
    hide ClientOctet, AddressOctets, ResponseControl, CommandOf, Framed, Control, AddressOffset, Information;
    ControlRoundTrip(r.cmd, r.rrr, r.sss);
    FramedInformation(b);
    if r.cmd == RESPONSE_I {
      var start := AddressOffset(b, 0) + 8;
      var info := ResponseInformation(r.cmd, r.payload);
      assert b[start..|b| - 3] == info;
      assert b[start] == info[0] && b[start + 1] == info[1] && b[start + 2] == info[2];
      assert info[3..] == r.payload;
    } else {
      assert ResponseInformation(r.cmd, r.payload) == r.payload;
    }
  }

  /** A response as the code reads it: a two-octet address (L, P) becomes logical 0 and physical 128 * L + P. */
  function AsRead(wide: bool, r: HdlcFrame): HdlcFrame {
    if wide then r
    else r.(logicalAddress := 0, physicalAddress := SevenAndSeven(r.logicalAddress, r.physicalAddress))
  }

  /** Decoding what bears a response gives back every field, but for the misread two-octet address. */
  lemma BorneDecodes(b: bytes, wide: bool, r: HdlcFrame, info: bytes)
    requires Widths(wide, r) && Bears(b, wide, r, info) && Payload(b) == Ok(r.payload)
    ensures Framed(b) && Decode(b) == Ok(AsRead(wide, r)) && DecodeIntended(b) == Ok(r)
  {
    hide Framed, ResponseControl, Payload, Information, LogicalOf, PhysicalOf, ShortLogicalOf, ShortPhysicalOf,
         BigEndian, AddressOctets, CommandOf, ReceiveNumber, SendNumber, ClientOctet, SevenBits, FourteenBits,
         SevenAndSeven, Control;
    FramedSize(b);
    ControlRoundTrip(r.cmd, r.rrr, r.sss);
    ClientRoundTrip(r.clientAddress);
    SmallAddresses(wide, r);
    AddressesRead(wide, r);
  }

  lemma SaidDecodes(b: bytes, wide: bool, r: HdlcFrame)
    requires Widths(wide, r) && Says(b, wide, r)
    ensures Framed(b) && Decode(b) == Ok(AsRead(wide, r)) && DecodeIntended(b) == Ok(r)
  {
    hide Bears, Decode, DecodeIntended, Framed, ResponseInformation, Widths, AsRead;
    SaidPayload(b, wide, r);
    BorneDecodes(b, wide, r, ResponseInformation(r.cmd, r.payload));
  }

  lemma AddressesRead(wide: bool, r: HdlcFrame)
    requires Widths(wide, r)
    ensures
      var w := BigEndian(AddressOctets(wide, r.logicalAddress, r.physicalAddress));
      && LogicalOf(w) == AsRead(wide, r).logicalAddress && PhysicalOf(w) == AsRead(wide, r).physicalAddress
      && (!wide ==> ShortLogicalOf(w) == r.logicalAddress && ShortPhysicalOf(w) == r.physicalAddress)
  {
    hide BigEndian, LogicalOf, PhysicalOf, ShortLogicalOf, ShortPhysicalOf, SevenAndSeven, FourteenBits, ServerAddress;
    if wide {
      SmallAddresses(wide, r);
      AddressRoundTrip(r.logicalAddress, r.physicalAddress);
    } else {
      ShortRoundTrip(r.logicalAddress, r.physicalAddress);
    }
  }

  lemma SmallAddresses(wide: bool, r: HdlcFrame)
    requires Widths(wide, r)
    ensures SevenBits(r.clientAddress) == r.clientAddress
    ensures FourteenBits(r.logicalAddress) == r.logicalAddress && FourteenBits(r.physicalAddress) == r.physicalAddress
  {}

  function HeaderCheckHigh(wide: bool, r: HdlcFrame): byte {
    Hi(CheckSequence(ResponseOpening(wide, r)))
  }

  /** A response that the header check as written loses: what a server could test before sending it. */
  predicate Lost(wide: bool, r: HdlcFrame) {
    && ResponseInformation(r.cmd, r.payload) != []
    && ResponseControl(r.cmd, r.rrr, r.sss) == HeaderCheckHigh(wide, r)
  }

  lemma ResponseHeaderChecks(wide: bool, r: HdlcFrame)
    requires Conformant(wide, r) && ResponseInformation(r.cmd, r.payload) != []
    ensures
      var b := Response(wide, r);
      && 12 <= |b| && HeaderCheckIntended(b)
      && (HeaderCheckAsWritten(b) <==> !Lost(wide, r))
  {
    hide CheckSequence, Lo, Hi, Join, ResponseControl, ResponseInformation, AddressOctets, ClientOctet, Framed,
         Response, Conformant, Control, Information;
    var b, n := Response(wide, r), AddressSize(wide);
    ResponseParts(wide, r);
    FramedInformation(b);
    var opening := ResponseOpening(wide, r);
    assert |opening| == n + 4;
    hide ResponseOpening;
    var fcs := CheckSequence(opening);
    assert b[5 + n] == b[1..7 + n][n + 4] == Lo(fcs);
    assert b[6 + n] == b[1..7 + n][n + 5] == Hi(fcs);
    JoinInjective(b[6 + n], b[5 + n], fcs);
    JoinInjective(b[4 + n], b[5 + n], fcs);
    hide Sealed;
  }

  /** The intended parser reads back every conformant response exactly. */
  lemma ResponseRoundTrip(wide: bool, r: HdlcFrame)
    requires Conformant(wide, r)
    ensures ParseIntended(Response(wide, r)) == Ok(r)
  {
    hide Framed, Decode, Response, ResponseInformation, HeaderCheckIntended, DecodeIntended, Information, Control,
         Widths, AddressOctets, ClientOctet, ResponseControl, Lost, ResponseOpening, Sealed, Says, HasInformation;
    ResponseParts(wide, r);
    SaysFramed(Response(wide, r), wide, r);
    SaidDecodes(Response(wide, r), wide, r);
    if ResponseInformation(r.cmd, r.payload) != [] {
      ResponseHeaderChecks(wide, r);
    }
  }

  lemma SaysFramed(b: bytes, wide: bool, r: HdlcFrame)
    requires Says(b, wide, r)
    ensures Framed(b)
  {
    hide Framed;
  }

  /**
   * As written, a conformant response is read back as `AsRead` says, exactly if its address has four
   * octets or logical part 0, unless it has an information field and its control octet happens to
   * equal the high octet of its header check; then it is rejected.
   */
  lemma ResponseRoundTripAsWritten(wide: bool, r: HdlcFrame)
    requires Conformant(wide, r)
    ensures Parse(Response(wide, r)) == if Lost(wide, r) then Err(InvalidHdlcFrame) else Ok(AsRead(wide, r))
    ensures AsRead(wide, r) == r <==> wide || r.logicalAddress == 0
  {
    AsReadRight(wide, r);
    hide Framed, Decode, Response, HeaderCheckAsWritten, DecodeIntended, Information, Control, Widths, HasInformation,
         AddressOctets, ClientOctet, ResponseControl, HeaderCheckHigh, ResponseOpening, Sealed, Says, AsRead;
    ResponseParts(wide, r);
    SaysFramed(Response(wide, r), wide, r);
    SaidDecodes(Response(wide, r), wide, r);
    if ResponseInformation(r.cmd, r.payload) != [] {
      ResponseHeaderChecks(wide, r);
    }
    hide ResponseInformation;
  }

  lemma AsReadRight(wide: bool, r: HdlcFrame)
    requires Widths(wide, r)
    ensures AsRead(wide, r) == r <==> wide || r.logicalAddress == 0
  {}

  /** Acknowledgements without information from any two-octet address are accepted, and misread. */
  lemma ShortAddressMisread(logical: bv16, physical: bv16)
    requires logical < 0x80 && physical < 0x80
    ensures
      var r := HdlcFrame(0x63, 1, 0, 0, physical, logical, []);
      && Response(false, r) == Frame([0x03], [LowSeven(logical), LastSeven(physical)], 0x73, [])
      && Parse(Response(false, r)) == Ok(r.(logicalAddress := 0, physicalAddress := SevenAndSeven(logical, physical)))
      && ParseIntended(Response(false, r)) == Ok(r)
  {
    var r := HdlcFrame(0x63, 1, 0, 0, physical, logical, []);
    assert ClientOctet(1) == 0x03 && ResponseControl(0x63, 0, 0) == 0x73;
    assert Conformant(false, r) && !Lost(false, r);
    ResponseRoundTrip(false, r);
    ResponseRoundTripAsWritten(false, r);
    hide Frame, Conformant, Lost, LowSeven, LastSeven, ClientOctet, ResponseControl, Parse, ParseIntended,
         SevenAndSeven;
  }

  /** A conformant response that the code rejects: any twelve octets sent to client 1 in this I frame. */
  lemma LostResponse(payload: bytes)
    requires |payload| == 12
    ensures var r := HdlcFrame(RESPONSE_I, 1, 1, 0, 0x11, 1, payload);
      Conformant(true, r) && Parse(Response(true, r)) == Err(InvalidHdlcFrame)
  {
    var r := HdlcFrame(RESPONSE_I, 1, 1, 0, 0x11, 1, payload);
    LostOctets();
    assert Conformant(true, r);
    hide Response, Parse, ResponseControl, ServerAddress, ClientOctet, FormatOctet, Oct, Conformant;
    assert ResponseOpening(true, r) == [0xA0, 0x1B, 0x03, 0x00, 0x02, 0x00, 0x23, 0x30];
    LostHeaderCheck();
    ResponseRoundTripAsWritten(true, r);
  }

  lemma LostOctets()
    ensures ResponseControl(RESPONSE_I, 1, 0) == 0x30
    ensures ServerAddress(1, 0x11) == [0x00, 0x02, 0x00, 0x23]
    ensures ClientOctet(1) == 0x03 && FormatOctet(27) == 0xA0 && Oct(27) == 0x1B
  {
    LostLength();
    hide Oct, FormatOctet;
  }

  lemma LostLength()
    ensures FormatOctet(27) == 0xA0 && Oct(27) == 0x1B
  {
    hide *;
    SmallFormat(0x1B, 27);
  }

  /** The format octets of a length below 256. */
  lemma SmallFormat(low: byte, n: nat)
    requires low as int == n
    ensures FormatOctet(n) == 0xA0 && Oct(n) == low
  {
    OctVal(low);
    OctVal(0);
    FormatOfZero();
    assert n / 256 % 16 == 0;
    hide Oct;
  }

  lemma FormatOfZero()
    ensures Oct(0) == 0 && 0xA0 | 0 == 0xA0 as byte
  {}

  lemma LostHeaderCheck()
    ensures Hi(CheckSequence([0xA0, 0x1B, 0x03, 0x00, 0x02, 0x00, 0x23, 0x30])) == 0x30
  {
    assert OctetStep(0xFFFF, 0xA0) == 0xAA8D && OctetStep(0xAA8D, 0x1B) == 0xF115
        && OctetStep(0xF115, 0x03) == 0x7546 && OctetStep(0x7546, 0x00) == 0x2747
        && OctetStep(0x2747, 0x02) == 0x158E && OctetStep(0x158E, 0x00) == 0x6D63
        && OctetStep(0x6D63, 0x23) == 0x4269 && OctetStep(0x4269, 0x30) == 0xCF06;
    hide OctetStep, Feed;
    FeedIsSteps(0xFFFF, [0xA0, 0x1B, 0x03, 0x00, 0x02, 0x00, 0x23, 0x30]);
    assert Steps(0x2747, [0x02, 0x00, 0x23, 0x30]) == 0xCF06;
    assert Steps(0xFFFF, [0xA0, 0x1B, 0x03, 0x00, 0x02, 0x00, 0x23, 0x30])
        == Steps(0x2747, [0x02, 0x00, 0x23, 0x30]);
  }

  // ---------- what the parser returns, for every octet string ----------

  /** Whatever the buffer: if it parses, its address has two or four octets in form, within its size. */
  lemma ParsedAddress(b: bytes)
    requires Parse(b).Ok?
    ensures Framed(b) && 10 <= |b| <= MAX_LENGTH + 2
    ensures var n := AddressOffset(b, 0) + 1; n in {2, 4} && n + 8 <= |b| && AddressForm(b[4..4 + n])
  {
    hide *;
    CommandParsed(b);
    FramedSize(b);
    FramedLength(b);
    FramedAddress(b);
  }

  lemma FramedAddress(b: bytes)
    requires Framed(b)
    ensures var n := AddressOffset(b, 0) + 1; n in {2, 4} && n + 8 <= |b| && AddressForm(b[4..4 + n])
  {
    hide Framed, Extension, AddressOffset, AddressForm;
    FramedSize(b);
    FramedLength(b);
    AddressEnds(b, 0);
    EndsInForm(b, AddressOffset(b, 0));
  }

  lemma EndsInForm(b: bytes, a: nat)
    requires 4 + a < |b| && Extension(b[4 + a]) && forall i :: 4 <= i < 4 + a ==> !Extension(b[i])
    ensures AddressForm(b[4..4 + (a + 1)])
  {
    hide Extension;
  }

  /**
   * Whatever the buffer: if it parses, the payload is the information field, which for an I frame is
   * present and opens with the LLC octets; a shorter one gives no payload.
   */
  lemma ParsedPayload(b: bytes)
    requires Parse(b).Ok?
    ensures Framed(b)
    ensures
      var payload, info := Parse(b).value.payload, Information(b);
      if Parse(b).value.cmd != 0x00 then payload == info
      else info != [] && if |info| < 3 then payload == [] else info == [0xE6, 0xE7, 0x00] + payload
  {
    hide Framed, Parse, CommandOf, Control, AddressOffset, Information;
    CommandParsed(b);
    FramedInformation(b);
    LlcOpens(Information(b));
  }

  lemma LlcOpens(info: bytes)
    ensures 3 <= |info| ==> info == [info[0], info[1], info[2]] + info[3..]
  {}

  lemma CommandParsed(b: bytes)
    requires Parse(b).Ok?
    ensures Framed(b) && Parse(b).value.cmd == CommandOf(Control(b)) && Payload(b) == Ok(Parse(b).value.payload)
  {
    hide Framed, HeaderCheckAsWritten, BigEndian, LogicalOf, PhysicalOf, ReceiveNumber, SendNumber, CommandOf, Payload,
         Control, HasInformation;
  }

  lemma FramedLength(b: bytes)
    requires Framed(b)
    ensures 10 <= |b| <= MAX_LENGTH + 2
  {
    hide CheckSequence, Join, LengthOf, FormatType3, Extension, PollFinal;
  }
}
