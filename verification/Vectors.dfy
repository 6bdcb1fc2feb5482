/** Whole frames and requests in literal octets: those the repository's own tests expect, and others like them. */
module Vectors {
  import opened Octets
  import opened Fcs
  import opened HdlcFrame
  import opened Hdlc
  import Aarq
  import Client
  import Cosem
  import Mirror
  import Server

  const DEFAULTS: HdlcParameters := HdlcParameters(1, 1, 0x3FFF, 128, 128)

  /** The SNRM frame of the default parameters. */
  lemma SnrmVector()
    ensures Client.SnrmFrame(DEFAULTS)
         == [0x7E, 0xA0, 0x0A, 0x00, 0x02, 0xFE, 0xFF, 0x03, 0x93, 0x5E, 0x92, 0x7E]
  {
    NoParameters();
    SnrmHeader();
    SnrmCheck();
    hide Feed, Lo, Hi, Header, SnrmParameters;
    var f := ClientFrame(COMMAND_SNRM, DEFAULTS, []);
    assert Body(f) == Header(f) + [0x5E, 0x92];
  }

  /** The DISC frame of the default parameters. */
  lemma DiscVector()
    ensures Client.DiscFrame(DEFAULTS)
         == [0x7E, 0xA0, 0x0A, 0x00, 0x02, 0xFE, 0xFF, 0x03, 0x53, 0x52, 0x54, 0x7E]
  {
    DiscHeader();
    DiscCheck();
    hide Feed, Lo, Hi, Header;
    var f := ClientFrame(COMMAND_DISC, DEFAULTS, []);
    assert Body(f) == Header(f) + [0x52, 0x54];
  }

  lemma DiscHeader()
    ensures Header(ClientFrame(COMMAND_DISC, DEFAULTS, [])) == [0xA0, 0x0A, 0x00, 0x02, 0xFE, 0xFF, 0x03, 0x53]
  {
    SnrmOctets();
    DiscControl();
    hide FormatOctet, Oct, HighSeven, LowSeven, LastSeven, ClientOctet, ControlOctet;
  }

  lemma DiscControl()
    ensures ControlOctet(COMMAND_DISC, 0, 1) == 0x53
  {}

  lemma DiscCheck()
    ensures var fcs := CheckSequence([0xA0, 0x0A, 0x00, 0x02, 0xFE, 0xFF, 0x03, 0x53]);
      Lo(fcs) == 0x52 && Hi(fcs) == 0x54
  {
    assert OctetStep(0xFFFF, 0xA0) == 0xAA8D && OctetStep(0xAA8D, 0x0A) == 0xF01D
        && OctetStep(0xF01D, 0x00) == 0xCB94 && OctetStep(0xCB94, 0x02) == 0xF174
        && OctetStep(0xF174, 0xFE) == 0x2BA3 && OctetStep(0x2BA3, 0xFF) == 0x98C2
        && OctetStep(0x98C2, 0x03) == 0xD71D && OctetStep(0xD71D, 0x53) == 0xABAD;
    assert Lo(!0xABAD) == 0x52 && Hi(!0xABAD) == 0x54;
    hide OctetStep, Feed;
    FeedIsSteps(0xFFFF, [0xA0, 0x0A, 0x00, 0x02, 0xFE, 0xFF, 0x03, 0x53]);
    assert Steps(0xF174, [0xFE, 0xFF, 0x03, 0x53]) == 0xABAD;
    assert Steps(0xFFFF, [0xA0, 0x0A, 0x00, 0x02, 0xFE, 0xFF, 0x03, 0x53]) == Steps(0xF174, [0xFE, 0xFF, 0x03, 0x53]);
  }

  lemma NoParameters()
    ensures SnrmParameters(DEFAULTS) == []
  {}

  lemma SnrmHeader()
    ensures Header(ClientFrame(COMMAND_SNRM, DEFAULTS, [])) == [0xA0, 0x0A, 0x00, 0x02, 0xFE, 0xFF, 0x03, 0x93]
  {
    SnrmOctets();
    hide FormatOctet, Oct, HighSeven, LowSeven, LastSeven, ClientOctet, ControlOctet;
  }

  lemma SnrmOctets()
    ensures FormatOctet(10) == 0xA0 && Oct(10) == 0x0A
    ensures HighSeven(1) == 0x00 && LowSeven(1) == 0x02 && HighSeven(0x3FFF) == 0xFE && LastSeven(0x3FFF) == 0xFF
    ensures ClientOctet(1) == 0x03 && ControlOctet(COMMAND_SNRM, 0, 1) == 0x93
  {
    SnrmLength();
    hide Oct, FormatOctet;
  }

  lemma SnrmLength()
    ensures FormatOctet(10) == 0xA0 && Oct(10) == 0x0A
  {
    hide *;
    Mirror.SmallFormat(0x0A, 10);
  }

  lemma SnrmCheck()
    ensures var fcs := CheckSequence([0xA0, 0x0A, 0x00, 0x02, 0xFE, 0xFF, 0x03, 0x93]);
      Lo(fcs) == 0x5E && Hi(fcs) == 0x92
  {
    assert OctetStep(0xFFFF, 0xA0) == 0xAA8D && OctetStep(0xAA8D, 0x0A) == 0xF01D
        && OctetStep(0xF01D, 0x00) == 0xCB94 && OctetStep(0xCB94, 0x02) == 0xF174
        && OctetStep(0xF174, 0xFE) == 0x2BA3 && OctetStep(0x2BA3, 0xFF) == 0x98C2
        && OctetStep(0x98C2, 0x03) == 0xD71D && OctetStep(0xD71D, 0x93) == 0x6DA1;
    assert Lo(!0x6DA1) == 0x5E && Hi(!0x6DA1) == 0x92;
    hide OctetStep, Feed;
    FeedIsSteps(0xFFFF, [0xA0, 0x0A, 0x00, 0x02, 0xFE, 0xFF, 0x03, 0x93]);
    assert Steps(0xF174, [0xFE, 0xFF, 0x03, 0x93]) == 0x6DA1;
    assert Steps(0xFFFF, [0xA0, 0x0A, 0x00, 0x02, 0xFE, 0xFF, 0x03, 0x93]) == Steps(0xF174, [0xFE, 0xFF, 0x03, 0x93]);
  }

  /** The frame of a get request for attribute 2 of data object 1.0.1.8.0.255, with the default parameters. */
  lemma GetFrameVector()
    ensures
      var name: Cosem.LogicalName := [1, 0, 1, 8, 0, 255];
      Client.DataFrame(DEFAULTS, Cosem.Apdu(Cosem.GET, Cosem.Request(1, name, 2, [])))
         == [0x7E, 0xA0, 0x1C, 0x00, 0x02, 0xFE, 0xFF, 0x03, 0x50, 0xCD, 0x8B]
          + ([0xE6, 0xE6, 0x00]
             + [0xC0, 0x01, 0xC1, 0x00, 0x01, 0x01, 0x00, 0x01, 0x08, 0x00, 0xFF, 0x02, 0x00])
          + [0xC8, 0xF3, 0x7E]
  {
    GetApdu();
    GetFrameOf(GET_APDU);
    hide *;
  }

  const GET_APDU: bytes := [0xC0, 0x01, 0xC1, 0x00, 0x01, 0x01, 0x00, 0x01, 0x08, 0x00, 0xFF, 0x02, 0x00]

  lemma GetApdu()
    ensures var name: Cosem.LogicalName := [1, 0, 1, 8, 0, 255];
      Cosem.Apdu(Cosem.GET, Cosem.Request(1, name, 2, [])) == GET_APDU
  {
    ClassOctets();
    hide Hi, Lo;
  }

  lemma GetFrameOf(data: bytes)
    requires data == GET_APDU
    ensures Client.DataFrame(DEFAULTS, data)
         == [0x7E, 0xA0, 0x1C, 0x00, 0x02, 0xFE, 0xFF, 0x03, 0x50, 0xCD, 0x8B] + ([0xE6, 0xE6, 0x00] + data)
          + [0xC8, 0xF3, 0x7E]
  {
    GetSealed(data);
    GetEnding(data);
    var f := ClientFrame(COMMAND_I, DEFAULTS, data);
    Server.EveryParts(f);
    hide Header, Serialize, Sealed;
    assert |data| == 13;
    GetPieces(Serialize(f), [0xE6, 0xE6, 0x00] + data);
  }

  lemma GetSealed(data: bytes)
    requires |data| == 13
    ensures Sealed(Header(ClientFrame(COMMAND_I, DEFAULTS, data)))
         == [0xA0, 0x1C, 0x00, 0x02, 0xFE, 0xFF, 0x03, 0x50, 0xCD, 0x8B]
  {
    GetHeader(data);
    GetHeaderCheck();
    SealedIs(Header(ClientFrame(COMMAND_I, DEFAULTS, data)));
    hide CheckSequence, Lo, Hi, Header, Sealed;
  }

  lemma GetPieces(b: bytes, info: bytes)
    requires |b| == 14 + |info| && b[0] == 0x7E && b[11..11 + |info|] == info && b[|b| - 3..] == [0xC8, 0xF3, 0x7E]
    requires b[1..11] == [0xA0, 0x1C, 0x00, 0x02, 0xFE, 0xFF, 0x03, 0x50, 0xCD, 0x8B]
    ensures b == [0x7E, 0xA0, 0x1C, 0x00, 0x02, 0xFE, 0xFF, 0x03, 0x50, 0xCD, 0x8B] + info + [0xC8, 0xF3, 0x7E]
  {
    assert b == [b[0]] + b[1..11] + b[11..11 + |info|] + b[11 + |info|..];
  }

  lemma GetEnding(data: bytes)
    requires data == GET_APDU
    ensures var b := Serialize(ClientFrame(COMMAND_I, DEFAULTS, data));
      3 <= |b| && b[|b| - 3..] == [0xC8, 0xF3, 0x7E]
  {
    hide Feed, Lo, Hi, Serialize, Server.FinalFcs;
    var f := ClientFrame(COMMAND_I, DEFAULTS, data);
    Server.FinalCheck(f);
    Server.SerializedLength(f);
    GetFinal(f);
  }

  lemma GetFinal(f: HdlcFrame)
    requires f.cmd == 0x00 && f.payload == GET_APDU
    ensures Lo(Server.FinalFcs(f)) == 0xC8 && Hi(Server.FinalFcs(f)) == 0xF3
  {
    GetFeed();
    GetInverted();
    hide Feed, Lo, Hi;
    var info := [0xE6, 0xE6, 0x00] + f.payload;
    assert |info| == 16 && info[..16] == info;
    assert Llc(f.cmd) == [0xE6, 0xE6, 0x00];
  }

  lemma GetInverted()
    ensures Lo(!0x0C37) == 0xC8 && Hi(!0x0C37) == 0xF3
  {}

  lemma GetHeader(data: bytes)
    requires |data| == 13
    ensures Header(ClientFrame(COMMAND_I, DEFAULTS, data)) == [0xA0, 0x1C, 0x00, 0x02, 0xFE, 0xFF, 0x03, 0x50]
  {
    SnrmOctets();
    DataControl();
    GetLength();
    hide FormatOctet, Oct, HighSeven, LowSeven, LastSeven, ClientOctet, ControlOctet;
  }

  lemma DataControl()
    ensures ControlOctet(COMMAND_I, 0, 1) == 0x50
  {}

  lemma GetLength()
    ensures FormatOctet(28) == 0xA0 && Oct(28) == 0x1C
  {
    hide *;
    Mirror.SmallFormat(0x1C, 28);
  }

  lemma GetHeaderCheck()
    ensures var fcs := CheckSequence([0xA0, 0x1C, 0x00, 0x02, 0xFE, 0xFF, 0x03, 0x50]);
      Lo(fcs) == 0xCD && Hi(fcs) == 0x8B
  {
    assert OctetStep(0xFFFF, 0xA0) == 0xAA8D && OctetStep(0xAA8D, 0x1C) == 0x85AA
        && OctetStep(0x85AA, 0x00) == 0x0AD5 && OctetStep(0x0AD5, 0x02) == 0xA238
        && OctetStep(0xA238, 0xFE) == 0xA398 && OctetStep(0xA398, 0xFF) == 0x171A
        && OctetStep(0x171A, 0x03) == 0x8D57 && OctetStep(0x8D57, 0x50) == 0x7432;
    assert Lo(!0x7432) == 0xCD && Hi(!0x7432) == 0x8B;
    hide OctetStep, Feed;
    FeedIsSteps(0xFFFF, [0xA0, 0x1C, 0x00, 0x02, 0xFE, 0xFF, 0x03, 0x50]);
    assert Steps(0xA238, [0xFE, 0xFF, 0x03, 0x50]) == 0x7432;
    assert Steps(0xFFFF, [0xA0, 0x1C, 0x00, 0x02, 0xFE, 0xFF, 0x03, 0x50]) == Steps(0xA238, [0xFE, 0xFF, 0x03, 0x50]);
  }

  lemma GetFeed()
    ensures Feed(RESIDUE, [0xE6, 0xE6, 0x00] + GET_APDU) == 0x0C37
  {
    GetCheckFront();
    GetCheckBack();
    FeedAppend(RESIDUE, GET_FRONT, GET_BACK);
    hide Feed;
    assert [0xE6, 0xE6, 0x00] + GET_APDU == GET_FRONT + GET_BACK;
  }

  const GET_FRONT: bytes := [0xE6, 0xE6, 0x00, 0xC0, 0x01, 0xC1, 0x00, 0x01]
  const GET_BACK: bytes := [0x01, 0x00, 0x01, 0x08, 0x00, 0xFF, 0x02, 0x00]

  lemma GetCheckFront()
    ensures Feed(RESIDUE, GET_FRONT) == 0xF583
  {
    assert OctetStep(0xF0B8, 0xE6) == 0xBB0B && OctetStep(0xBB0B, 0xE6) == 0x3C50
        && OctetStep(0x3C50, 0x00) == 0x52B9 && OctetStep(0x52B9, 0xC0) == 0xEE14
        && OctetStep(0xEE14, 0x01) == 0x47C2 && OctetStep(0x47C2, 0xC1) == 0x32DC
        && OctetStep(0x32DC, 0x00) == 0x1CD3 && OctetStep(0x1CD3, 0x01) == 0xF583;
    hide OctetStep, Feed;
    FeedIsSteps(0xF0B8, GET_FRONT);
    assert Steps(0xEE14, [0x01, 0xC1, 0x00, 0x01]) == 0xF583;
    assert Steps(0xF0B8, [0xE6, 0xE6, 0x00, 0xC0, 0x01, 0xC1, 0x00, 0x01]) == Steps(0xEE14, [0x01, 0xC1, 0x00, 0x01]);
  }

  lemma GetCheckBack()
    ensures Feed(0xF583, GET_BACK) == 0x0C37
  {
    assert OctetStep(0xF583, 0x01) == 0xA7EF && OctetStep(0xA7EF, 0x00) == 0x1F5E
        && OctetStep(0x1F5E, 0x01) == 0xAA6D && OctetStep(0xAA6D, 0x08) == 0x3401
        && OctetStep(0x3401, 0x00) == 0x11BD && OctetStep(0x11BD, 0xFF) == 0x6107
        && OctetStep(0x6107, 0x02) == 0x57CC && OctetStep(0x57CC, 0x00) == 0x0C37;
    hide OctetStep, Feed;
    FeedIsSteps(0xF583, GET_BACK);
    assert Steps(0x3401, [0x00, 0xFF, 0x02, 0x00]) == 0x0C37;
    assert Steps(0xF583, [0x01, 0x00, 0x01, 0x08, 0x00, 0xFF, 0x02, 0x00]) == Steps(0x3401, [0x00, 0xFF, 0x02, 0x00]);
  }

  /** The control octets of the client, for all parameters and data, and the LLC octets of its I frames. */
  lemma ClientControls(params: HdlcParameters, data: bytes)
    ensures 12 <= |Client.SnrmFrame(params)| && Client.SnrmFrame(params)[8] == 0x93
    ensures 12 <= |Client.DiscFrame(params)| && Client.DiscFrame(params)[8] == 0x53
    ensures
      var b := Client.DataFrame(params, data);
      && 15 + |data| <= |b| && b[8] == 0x50
      && b[11..14] == [0xE6, 0xE6, 0x00] && b[14..14 + |data|] == data
  {
    hide *;
    SnrmParts(params);
    DiscParts(params);
    DataParts(params, data);
  }

  lemma SnrmParts(params: HdlcParameters)
    ensures 12 <= |Client.SnrmFrame(params)| && Client.SnrmFrame(params)[8] == 0x93
  {
    ControlAt(ClientFrame(COMMAND_SNRM, params, SnrmParameters(params)));
    SnrmControl();
    hide Serialize, ControlOctet, SnrmParameters, Server.Carried;
  }

  lemma DiscParts(params: HdlcParameters)
    ensures 12 <= |Client.DiscFrame(params)| && Client.DiscFrame(params)[8] == 0x53
  {
    ControlAt(ClientFrame(COMMAND_DISC, params, []));
    DiscControl();
    hide Serialize, ControlOctet, Server.Carried;
  }

  lemma DataParts(params: HdlcParameters, data: bytes)
    ensures
      var b := Client.DataFrame(params, data);
      && 15 + |data| <= |b| && b[8] == 0x50
      && b[11..14] == [0xE6, 0xE6, 0x00] && b[14..14 + |data|] == data
  {
    ControlAt(ClientFrame(COMMAND_I, params, data));
    DataControl();
    hide Serialize, ControlOctet;
    BehindLlc(Client.DataFrame(params, data), data);
  }

  lemma BehindLlc(b: bytes, data: bytes)
    requires 14 + |data| <= |b| && b[11..14 + |data|] == [0xE6, 0xE6, 0x00] + data
    ensures b[11..14] == [0xE6, 0xE6, 0x00] && b[14..14 + |data|] == data
  {
    assert b[11..14] == b[11..14 + |data|][..3] && b[14..14 + |data|] == b[11..14 + |data|][3..];
  }

  lemma SnrmControl()
    ensures ControlOctet(COMMAND_SNRM, 0, 1) == 0x93
  {}

  lemma ControlAt(f: HdlcFrame)
    requires f.cmd in {0x83, 0x43, 0x00}
    ensures
      var b, info := Serialize(f), Server.Carried(f);
      12 + |info| <= |b| && b[8] == ControlOctet(f.cmd, f.rrr, f.sss) && b[11..11 + |info|] == info
  {
    hide Serialize, ControlOctet, Header, Sealed, CheckSequence, Lo, Hi;
    Server.EveryParts(f);
    Server.HeaderParts(f);
    SealedIs(Header(f));
    Server.HeaderSlices(Serialize(f), Header(f), [Lo(CheckSequence(Header(f))), Hi(CheckSequence(Header(f)))]);
  }

  /** The association request of a public client. */
  lemma PublicAarqVector(p: Aarq.CosemParameters)
    requires p.authentication == Aarq.LOWEST && p.security == Aarq.NONE
    ensures Aarq.Aarq(p)
         == [0x60, 0x20]
          + [0x80, 0x02, 0x07, 0x80, 0xA1, 0x09, 0x06, 0x07, 0x60, 0x85, 0x74, 0x05, 0x08, 0x01, 0x01]
          + [0xBE, 0x0F, 0x04, 0x0D, 0x01, 0x00, 0x00, 0x00, 0x06, 0x5F, 0x04, 0x00, 0xB8, 0x38, 0x00, 0xFF, 0xFF]
  {
    OctVectors();
    AarqVector(p);
    hide Oct, Aarq.Aarq;
    assert |HeadVector(p)| == 15;
  }

  /** The association request of a client with a low-level secret. */
  lemma LowLevelAarqVector(p: Aarq.CosemParameters)
    requires p.authentication == Aarq.LLS && p.security == Aarq.NONE
    ensures Aarq.Aarq(p)
         == [0x60, 0x39]
          + [0x80, 0x02, 0x07, 0x80, 0xA1, 0x09, 0x06, 0x07, 0x60, 0x85, 0x74, 0x05, 0x08, 0x01, 0x01]
          + [0x8A, 0x02, 0x07, 0x80, 0x8B, 0x07, 0x60, 0x85, 0x74, 0x05, 0x08, 0x02, 0x01, 0xAC, 0x0A, 0x80, 0x08]
          + p.secret
          + [0xBE, 0x0F, 0x04, 0x0D, 0x01, 0x00, 0x00, 0x00, 0x06, 0x5F, 0x04, 0x00, 0xB8, 0x38, 0x00, 0xFF, 0xFF]
  {
    OctVectors();
    AarqVector(p);
    hide Oct, Aarq.Aarq;
    LowLevelParts(p);
    hide HeadVector, TitleVector, AuthenticationVector;
    assert |p.secret| == 8;
  }

  lemma LowLevelParts(p: Aarq.CosemParameters)
    requires p.authentication == Aarq.LLS && p.security == Aarq.NONE
    ensures HeadVector(p) == [0x80, 0x02, 0x07, 0x80, 0xA1, 0x09, 0x06, 0x07, 0x60, 0x85, 0x74, 0x05, 0x08, 0x01, 0x01]
    ensures TitleVector(p) == []
    ensures AuthenticationVector(p)
         == [0x8A, 0x02, 0x07, 0x80, 0x8B, 0x07, 0x60, 0x85, 0x74, 0x05, 0x08, 0x02, 0x01, 0xAC, 0x0A, 0x80, 0x08]
          + p.secret
  {}

  // ---------- the association request, for all parameters ----------

  /** The octet of each authentication mechanism in its name. */
  function MechanismOctet(mechanism: Aarq.AuthenticationMechanism): byte {
    match mechanism
    case LOWEST => 0x00
    case LLS => 0x01
    case HLS => 0x02
    case HLS_MD5 => 0x03
    case HLS_SHA1 => 0x04
    case HLS_GMAC => 0x05
    case HLS_SHA256 => 0x06
    case HLS_ECDSA => 0x07
  }

  /** Version and context name: without ciphering, or with it. */
  function HeadVector(p: Aarq.CosemParameters): bytes {
    [0x80, 0x02, 0x07, 0x80, 0xA1, 0x09, 0x06, 0x07, 0x60, 0x85, 0x74, 0x05, 0x08, 0x01]
    + (if p.security == Aarq.NONE then [0x01] else [0x03])
  }

  /** The system title, under any security or with GMAC. */
  function TitleVector(p: Aarq.CosemParameters): bytes {
    if p.security == Aarq.NONE && p.authentication != Aarq.HLS_GMAC then []
    else [0xA6, 0x0A, 0x06, 0x08] + p.systemTitle
  }

  /** Requirements, mechanism name, and the secret for LLS or the challenge for the high levels. */
  function AuthenticationVector(p: Aarq.CosemParameters): bytes {
    if p.authentication == Aarq.LOWEST then []
    else
      [0x8A, 0x02, 0x07, 0x80, 0x8B, 0x07, 0x60, 0x85, 0x74, 0x05, 0x08, 0x02, MechanismOctet(p.authentication)]
      + (if p.authentication == Aarq.LLS then [0xAC, 0x0A, 0x80, 0x08] + p.secret
         else [0xAC, Oct(|p.challenge| + 2), 0x80, Oct(|p.challenge|)] + p.challenge)
  }

  const USER_VECTOR: bytes :=
    [0xBE, 0x0F, 0x04, 0x0D, 0x01, 0x00, 0x00, 0x00, 0x06, 0x5F, 0x04, 0x00, 0xB8, 0x38, 0x00, 0xFF, 0xFF]

  /**
   * The association request, octet by octet, for each of the eight mechanisms, under every security,
   * with any title, secret and challenge.
   */
  lemma AarqVector(p: Aarq.CosemParameters)
    ensures
      var content := HeadVector(p) + TitleVector(p) + AuthenticationVector(p) + USER_VECTOR;
      Aarq.Aarq(p) == [0x60, Oct(|content|)] + content
  {
    hide Oct, HeadVector, TitleVector, AuthenticationVector, Aarq.Aarq, Aarq.Content, Aarq.HeadOctets,
         Aarq.TitleOctets, Aarq.AuthenticationOctets;
    Aarq.ContentOctets(p);
    HeadIs(p);
    TitleIs(p);
    AuthenticationIs(p);
    RequestOf(p, |Aarq.Content(p)|);
  }

  lemma HeadIs(p: Aarq.CosemParameters)
    ensures Aarq.HeadOctets(p) == HeadVector(p)
  {}

  lemma TitleIs(p: Aarq.CosemParameters)
    ensures Aarq.TitleOctets(p) == TitleVector(p)
  {
    OctVectors();
    assert |p.systemTitle| == 8;
    hide Oct;
  }

  lemma AuthenticationIs(p: Aarq.CosemParameters)
    ensures Aarq.AuthenticationOctets(p) == AuthenticationVector(p)
  {
    OctVectors();
    MechanismIs(p.authentication);
    assert |p.secret| == 8;
    hide Oct, MechanismOctet;
  }

  lemma MechanismIs(mechanism: Aarq.AuthenticationMechanism)
    ensures mechanism.Code() == MechanismOctet(mechanism)
  {}

  /** A GMAC client with authentication and a challenge of eight octets, in full. */
  lemma GmacAarqVector(p: Aarq.CosemParameters)
    requires p.authentication == Aarq.HLS_GMAC && p.security == Aarq.AUTHENTICATION && |p.challenge| == 8
    ensures Aarq.Aarq(p)
         == [0x60, 0x45]
          + [0x80, 0x02, 0x07, 0x80, 0xA1, 0x09, 0x06, 0x07, 0x60, 0x85, 0x74, 0x05, 0x08, 0x01, 0x03]
          + [0xA6, 0x0A, 0x06, 0x08] + p.systemTitle
          + [0x8A, 0x02, 0x07, 0x80, 0x8B, 0x07, 0x60, 0x85, 0x74, 0x05, 0x08, 0x02, 0x05, 0xAC, 0x0A, 0x80, 0x08]
          + p.challenge
          + [0xBE, 0x0F, 0x04, 0x0D, 0x01, 0x00, 0x00, 0x00, 0x06, 0x5F, 0x04, 0x00, 0xB8, 0x38, 0x00, 0xFF, 0xFF]
  {
    OctVectors();
    AarqVector(p);
    hide Oct, Aarq.Aarq;
    GmacParts(p);
    hide HeadVector, TitleVector, AuthenticationVector;
    assert |p.systemTitle| == 8;
  }

  lemma GmacParts(p: Aarq.CosemParameters)
    requires p.authentication == Aarq.HLS_GMAC && p.security == Aarq.AUTHENTICATION && |p.challenge| == 8
    ensures HeadVector(p) == [0x80, 0x02, 0x07, 0x80, 0xA1, 0x09, 0x06, 0x07, 0x60, 0x85, 0x74, 0x05, 0x08, 0x01, 0x03]
    ensures TitleVector(p) == [0xA6, 0x0A, 0x06, 0x08] + p.systemTitle
    ensures AuthenticationVector(p)
         == [0x8A, 0x02, 0x07, 0x80, 0x8B, 0x07, 0x60, 0x85, 0x74, 0x05, 0x08, 0x02, 0x05, 0xAC, 0x0A, 0x80, 0x08]
          + p.challenge
  {
    OctVectors();
    hide Oct;
  }

  lemma RequestOf(p: Aarq.CosemParameters, n: nat)
    requires |Aarq.Content(p)| == n
    ensures Aarq.Aarq(p) == [0x60, Oct(n)] + Aarq.Content(p)
  {
    hide Oct, Aarq.Content;
  }

  lemma OctVectors()
    ensures Oct(0x20) == 0x20 && Oct(0x39) == 0x39 && Oct(0x45) == 0x45 && Oct(10) == 10 && Oct(8) == 8
  {
    OctVal(0x20);
    OctVal(0x39);
    OctVal(0x45);
    OctVal(10);
    OctVal(8);
    assert Val(0x20) == 0x20 && Val(0x39) == 0x39 && Val(0x45) == 0x45 && Val(10) == 10 && Val(8) == 8;
    hide Oct;
  }

  /** The requests for attribute 2 of data object 1.0.1.8.0.255. */
  lemma RequestVectors(data: bytes)
    ensures var name: Cosem.LogicalName := [1, 0, 1, 8, 0, 255];
      var descriptor := [0xC1, 0x00, 0x01, 0x01, 0x00, 0x01, 0x08, 0x00, 0xFF, 0x02];
      && Cosem.Apdu(Cosem.GET, Cosem.Request(1, name, 2, [])) == [0xC0, 0x01] + descriptor + [0x00]
      && Cosem.Apdu(Cosem.SET, Cosem.Request(1, name, 2, data)) == [0xC1, 0x01] + descriptor + [0x00] + data
      && Cosem.Apdu(Cosem.ACTION, Cosem.Request(1, name, 2, [])) == [0xC3, 0x01] + descriptor + [0x00]
      && (data != [] ==>
            && Cosem.Apdu(Cosem.GET, Cosem.Request(1, name, 2, data)) == [0xC0, 0x01] + descriptor + [0x01] + data
            && Cosem.Apdu(Cosem.ACTION, Cosem.Request(1, name, 2, data)) == [0xC3, 0x01] + descriptor + [0x01] + data)
  {
    ClassOctets();
    hide Hi, Lo;
  }

  lemma ClassOctets()
    ensures Hi(1) == 0 && Lo(1) == 1
  {}
}
