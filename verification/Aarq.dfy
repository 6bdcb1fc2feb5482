/**
 * The association request: nested BER whose outer length is patched in at the end, and a walker of
 * definite-length BER (section 8.1.3 of ITU-T X.690) that takes it apart.
 */
module Aarq {
  import opened Octets
  import opened Results
  import opened DataType

  datatype AuthenticationMechanism =
    LOWEST | LLS | HLS | HLS_MD5 | HLS_SHA1 | HLS_GMAC | HLS_SHA256 | HLS_ECDSA
  {
    function Code(): byte {
      match this
      case LOWEST => 0
      case LLS => 1
      case HLS => 2
      case HLS_MD5 => 3
      case HLS_SHA1 => 4
      case HLS_GMAC => 5
      case HLS_SHA256 => 6
      case HLS_ECDSA => 7
    }
  }

  datatype SecurityContext = NONE | AUTHENTICATION | ENCRYPTION | AUTHENTICATION_ENCRYPTION

  type Octets8 = s: bytes | |s| == 8 witness [0, 0, 0, 0, 0, 0, 0, 0]

  /** `challenge` is what the random generator delivers for the requested size. */
  datatype CosemParameters = CosemParameters(
    authentication: AuthenticationMechanism,
    security: SecurityContext,
    systemTitle: Octets8,
    secret: Octets8,
    challenge: bytes)

  // ---------- the walker ----------

  datatype Tlv = Tlv(tag: byte, value: bytes)

  function LowTag(tag: byte): byte {
    tag & 0x1F
  }

  predicate Constructed(tag: byte) {
    tag & 0x20 != 0
  }

  /** One definite-length value in front of `s`: single-octet tags, short or long form of length. */
  function ReadTlv(s: bytes): Option<(Tlv, bytes)> {
    if |s| < 2 || LowTag(s[0]) == 0x1F then None
    else
      var first := Val(s[1]);
      if first == 0x80 || first == 0xFF then None
      else
        var k := if first < 0x80 then 0 else first - 0x80;
        if |s| < 2 + k then None
        else
          var n := if k == 0 then first else Value(s[2..2 + k]);
          if |s| < 2 + k + n then None
          else Some((Tlv(s[0], s[2 + k..2 + k + n]), s[2 + k + n..]))
  }

  /** The values that `s` consists of, to its last octet. */
  function ReadTlvs(s: bytes): Option<seq<Tlv>>
    decreases |s|
  {
    if s == [] then Some([])
    else
      match ReadTlv(s)
      case None => None
      case Some((tlv, rest)) =>
        match ReadTlvs(rest)
        case None => None
        case Some(tlvs) => Some([tlv] + tlvs)
  }

  /** A value with its length in one octet. */
  function Encode(t: Tlv): bytes {
    [t.tag, Oct(|t.value|)] + t.value
  }

  function EncodeAll(ts: seq<Tlv>): bytes {
    if ts == [] then [] else Encode(ts[0]) + EncodeAll(ts[1..])
  }

  predicate Short(t: Tlv) {
    |t.value| < 0x80 && LowTag(t.tag) != 0x1F
  }

  lemma ReadEncoded(t: Tlv, rest: bytes)
    requires Short(t)
    ensures ReadTlv(Encode(t) + rest) == Some((t, rest))
  {
    hide Oct, Val, LowTag, Value;
    ValOct(|t.value|);
    var s := Encode(t) + rest;
    assert s[2..2 + |t.value|] == t.value && s[2 + |t.value|..] == rest;
  }

  predicate AllShort(ts: seq<Tlv>) {
    forall t <- ts :: Short(t)
  }

  lemma FirstShort(ts: seq<Tlv>)
    requires ts != []
    ensures AllShort(ts) <==> Short(ts[0]) && AllShort(ts[1..])
  {
    hide Short;
    assert ts == [ts[0]] + ts[1..];
  }

  lemma {:induction false} ReadAllEncoded(ts: seq<Tlv>)
    requires AllShort(ts)
    ensures ReadTlvs(EncodeAll(ts)) == Some(ts)
    decreases ts
  {
    hide ReadTlv, Encode, Short;
    if ts != [] {
      FirstShort(ts);
      ReadEncoded(ts[0], EncodeAll(ts[1..]));
      ReadAllEncoded(ts[1..]);
      EncodeNonEmpty(ts[0]);
      assert [ts[0]] + ts[1..] == ts;
    }
  }

  lemma EncodeNonEmpty(t: Tlv)
    ensures Encode(t) != []
  {}

  /** The octets of values with tags and lengths of one octet each. */
  function Size(ts: seq<Tlv>): nat {
    if ts == [] then 0 else 2 + |ts[0].value| + Size(ts[1..])
  }

  lemma {:induction false} EncodedSize(ts: seq<Tlv>)
    ensures |EncodeAll(ts)| == Size(ts)
    decreases ts
  {
    if ts != [] {
      EncodedSize(ts[1..]);
    }
  }

  /** Reading a value takes two octets more than it has, or still more if its length is in long form. */
  lemma ReadSpends(s: bytes)
    requires ReadTlv(s).Some?
    ensures var (t, rest) := ReadTlv(s).value;
      && 2 + |t.value| + |rest| <= |s|
      && (|s| == 2 + |t.value| + |rest| ==> Short(t))
  {
    hide LowTag, Value;
  }

  lemma {:induction false} ReadAllSpends(s: bytes)
    requires ReadTlvs(s).Some?
    ensures var ts := ReadTlvs(s).value; Size(ts) <= |s| && (|s| == Size(ts) ==> AllShort(ts))
    decreases |s|
  {
    hide ReadTlv, Short;
    if s != [] {
      var ts := ReadTlvs(s).value;
      ReadSpends(s);
      ReadAllSpends(ReadTlv(s).value.1);
      assert ts[1..] == ReadTlvs(ReadTlv(s).value.1).value;
      FirstShort(ts);
      hide AllShort;
    }
  }

  /** The walker recovers a list of values from its encoding iff each of them fits the short form. */
  lemma ReadAllIff(ts: seq<Tlv>)
    ensures ReadTlvs(EncodeAll(ts)) == Some(ts) <==> AllShort(ts)
  {
    hide ReadTlvs, EncodeAll, Size, AllShort;
    if AllShort(ts) {
      ReadAllEncoded(ts);
    }
    if ReadTlvs(EncodeAll(ts)) == Some(ts) {
      ReadAllSpends(EncodeAll(ts));
      EncodedSize(ts);
    }
  }

  /**
   * A value behind the length code of `DataType` is one definite-length value of section 8.1.3 of
   * ITU-T X.690, whatever its size but one: 0x80, whose code there announces an indefinite length.
   */
  lemma SizeCodeIsBer(tag: byte, value: bytes)
    requires LowTag(tag) != 0x1F && |value| <= MAX_SIZE
    ensures ReadTlv([tag] + SizeOctets(|value|) + value) == Some((Tlv(tag, value), [])) <==> |value| != 0x80
    ensures |value| == 0x80 ==> ReadTlv([tag] + SizeOctets(|value|) + value) == None
  {
    hide LowTag, Oct, Val, Value, BigEndianOctets;
    var n := |value|;
    var s := [tag] + SizeOctets(n) + value;
    ValOct(n);
    if n <= 0x80 {
      assert s[1] == Oct(n);
      assert s[2..2 + n] == value && s[2 + n..] == [];
    } else {
      var k := Width(n);
      WidthFits(n);
      ValueOfOctets(n, k);
      assert s[1] == Oct(0x80 + k);
      assert s[2..2 + k] == BigEndianOctets(n, k);
      assert s[2 + k..2 + k + n] == value && s[2 + k + n..] == [];
    }
  }

  // ---------- the fields ----------

  const OBJECT_IDENTIFIER: byte := 0x06
  const CONTEXT: byte := 0x80

  function ContextName(p: CosemParameters): Tlv {
    Tlv(OBJECT_IDENTIFIER, [0x60, 0x85, 0x74, 0x05, 0x08, 0x01, if p.security == NONE then 0x01 else 0x03])
  }

  predicate HasTitle(p: CosemParameters) {
    p.security != NONE || p.authentication == HLS_GMAC
  }

  predicate HasAuthentication(p: CosemParameters) {
    p.authentication != LOWEST
  }

  /** The authentication value: the secret for LLS, the challenge for the high levels. */
  function AuthenticationValue(p: CosemParameters): Tlv {
    Tlv(CONTEXT, if p.authentication == LLS then p.secret else p.challenge)
  }

  const INITIATE_REQUEST: bytes :=
    [0x01, 0x00, 0x00, 0x00, 0x06, 0x5F, 0x04, 0x00, 0xB8, 0x38, 0x00, 0xFF, 0xFF]

  function TitleFields(p: CosemParameters): seq<Tlv> {
    if HasTitle(p) then [Tlv(0xA6, Encode(Tlv(OBJECT_IDENTIFIER, p.systemTitle)))] else []
  }

  function AuthenticationFields(p: CosemParameters): seq<Tlv> {
    if HasAuthentication(p) then
      [Tlv(0x8A, [0x07, 0x80]),
       Tlv(0x8B, [0x60, 0x85, 0x74, 0x05, 0x08, 0x02, p.authentication.Code()]),
       Tlv(0xAC, Encode(AuthenticationValue(p)))]
    else []
  }

  function Fields(p: CosemParameters): seq<Tlv> {
    [Tlv(0x80, [0x07, 0x80]), Tlv(0xA1, Encode(ContextName(p)))]
    + TitleFields(p) + AuthenticationFields(p)
    + [Tlv(0xBE, Encode(Tlv(0x04, INITIATE_REQUEST)))]
  }

  function Content(p: CosemParameters): bytes {
    EncodeAll(Fields(p))
  }

  /** The request, its outer length cut to eight bits. */
  function Aarq(p: CosemParameters): bytes {
    Encode(Tlv(0x60, Content(p)))
  }

  // ---------- the serializer ----------

  lemma {:induction false} EncodeAllAppend(a: seq<Tlv>, b: seq<Tlv>)
    ensures EncodeAll(a + b) == EncodeAll(a) + EncodeAll(b)
    decreases a
  {
    hide Encode;
    if a == [] {
      assert a + b == b;
    } else {
      assert (a + b)[1..] == a[1..] + b;
      EncodeAllAppend(a[1..], b);
    }
  }

  lemma EncodeOne(t: Tlv)
    ensures EncodeAll([t]) == Encode(t)
  {
    assert [t][1..] == [];
  }

  /** Adding one field to what is already encoded. */
  lemma EncodeLast(a: seq<Tlv>, t: Tlv)
    ensures EncodeAll(a + [t]) == EncodeAll(a) + Encode(t)
  {
    EncodeAllAppend(a, [t]);
    EncodeOne(t);
  }

  // The encoded fields as the serializer pushes them.

  function HeadOctets(p: CosemParameters): bytes {
    [0x80, 2, 7, 0x80, 0xA1, 9, 0x06, 7, 0x60, 0x85, 0x74, 0x05, 0x08, 0x01, if p.security == NONE then 0x01 else 0x03]
  }

  function TitleOctets(p: CosemParameters): bytes {
    if HasTitle(p) then [0xA6, Oct(|p.systemTitle| + 2), 0x06, Oct(|p.systemTitle|)] + p.systemTitle else []
  }

  function AuthenticationOctets(p: CosemParameters): bytes {
    if HasAuthentication(p) then
      var value := AuthenticationValue(p).value;
      [0x8A, 2, 7, 0x80, 0x8B, 7, 0x60, 0x85, 0x74, 0x05, 0x08, 0x02, p.authentication.Code(),
       0xAC, Oct(|value| + 2), CONTEXT, Oct(|value|)] + value
    else []
  }

  const USER_OCTETS: bytes := [0xBE, 15, 0x04, 13] + INITIATE_REQUEST

  lemma SmallOct()
    ensures Oct(2) == 2 && Oct(7) == 7 && Oct(9) == 9 && Oct(13) == 13 && Oct(15) == 15
  {
    OctVal(2);
    OctVal(7);
    OctVal(9);
    OctVal(13);
    OctVal(15);
    assert Val(2) == 2 && Val(7) == 7 && Val(9) == 9 && Val(13) == 13 && Val(15) == 15;
    hide Oct;
  }

  lemma ContentOctets(p: CosemParameters)
    ensures Content(p) == HeadOctets(p) + TitleOctets(p) + AuthenticationOctets(p) + USER_OCTETS
  {
    SmallOct();
    hide Oct, EncodeAll;
    var head := [Tlv(0x80, [0x07, 0x80]), Tlv(0xA1, Encode(ContextName(p)))];
    var user := [Tlv(0xBE, Encode(Tlv(0x04, INITIATE_REQUEST)))];
    EncodeAllAppend(head + TitleFields(p) + AuthenticationFields(p), user);
    EncodeAllAppend(head + TitleFields(p), AuthenticationFields(p));
    EncodeAllAppend(head, TitleFields(p));
    HeadEncoded(p);
    TitleEncoded(p);
    AuthenticationEncoded(p);
    EncodeOne(user[0]);
    assert EncodeAll(user) == USER_OCTETS;
    hide HeadOctets, TitleOctets, AuthenticationOctets, TitleFields, AuthenticationFields, Encode;
  }

  lemma HeadEncoded(p: CosemParameters)
    ensures EncodeAll([Tlv(0x80, [0x07, 0x80]), Tlv(0xA1, Encode(ContextName(p)))]) == HeadOctets(p)
  {
    SmallOct();
    hide Oct, EncodeAll;
    var a, b := Tlv(0x80, [0x07, 0x80]), Tlv(0xA1, Encode(ContextName(p)));
    EncodeLast([a], b);
    EncodeOne(a);
    assert [a] + [b] == [a, b];
  }

  lemma TitleEncoded(p: CosemParameters)
    ensures EncodeAll(TitleFields(p)) == TitleOctets(p)
  {
    if HasTitle(p) {
      EncodeOne(TitleFields(p)[0]);
      hide Oct, EncodeAll;
    }
  }

  lemma AuthenticationEncoded(p: CosemParameters)
    ensures EncodeAll(AuthenticationFields(p)) == AuthenticationOctets(p)
  {
    if HasAuthentication(p) {
      hide Oct, Encode, EncodeAll, AuthenticationValue;
      var fs := AuthenticationFields(p);
      ThreeEncoded(fs[0], fs[1], fs[2]);
      AuthenticationParts(p);
    }
  }

  lemma AuthenticationParts(p: CosemParameters)
    requires HasAuthentication(p)
    ensures
      var fs, value := AuthenticationFields(p), AuthenticationValue(p).value;
      && Encode(fs[0]) == [0x8A, 2, 7, 0x80]
      && Encode(fs[1]) == [0x8B, 7, 0x60, 0x85, 0x74, 0x05, 0x08, 0x02, p.authentication.Code()]
      && Encode(fs[2]) == [0xAC, Oct(|value| + 2), CONTEXT, Oct(|value|)] + value
  {
    SmallOct();
    AuthenticationTag(p);
    hide Oct, AuthenticationValue;
  }

  lemma AuthenticationTag(p: CosemParameters)
    ensures AuthenticationValue(p).tag == CONTEXT
  {}

  lemma ThreeEncoded(a: Tlv, b: Tlv, c: Tlv)
    ensures EncodeAll([a, b, c]) == Encode(a) + Encode(b) + Encode(c)
  {
    hide EncodeAll, Encode;
    EncodeLast([a, b], c);
    EncodeLast([a], b);
    EncodeOne(a);
    assert [a] + [b] == [a, b];
    assert [a, b] + [c] == [a, b, c];
  }

  method SerializeAarq(p: CosemParameters) returns (buffer: bytes)
    ensures buffer == Aarq(p)
  {
    hide Oct, HeadOctets, TitleOctets, AuthenticationOctets, Content;
    buffer := [0x20 | 0x40];
    buffer := buffer + [0];  // the length, patched in below
    var part := WriteHead(p);
    buffer := buffer + part;
    part := WriteTitle(p);
    buffer := buffer + part;
    part := WriteAuthentication(p);
    buffer := buffer + part;
    part := WriteUserInformation();
    buffer := buffer + part;
    ContentOctets(p);
    assert buffer == [0x60, 0] + Content(p);
    buffer := buffer[1 := Oct(|buffer| - 2)];
  }

  method WriteHead(p: CosemParameters) returns (buffer: bytes)
    ensures buffer == HeadOctets(p)
  {
    buffer := [];
    buffer := buffer + [0x80 | 0];
    buffer := buffer + [2];
    buffer := buffer + [7];
    buffer := buffer + [0x80];
    buffer := buffer + [0x80 | 0x20 | 1];
    buffer := buffer + [9];
    buffer := buffer + [OBJECT_IDENTIFIER];
    buffer := buffer + [7];
    if p.security == NONE {
      buffer := buffer + [0x60, 0x85, 0x74, 0x05, 0x08, 0x01, 0x01];
    } else {
      buffer := buffer + [0x60, 0x85, 0x74, 0x05, 0x08, 0x01, 0x03];
    }
  }

  method WriteTitle(p: CosemParameters) returns (buffer: bytes)
    ensures buffer == TitleOctets(p)
  {
    hide Oct;
    buffer := [];
    if p.security != NONE || p.authentication == HLS_GMAC {
      buffer := buffer + [0x80 | 0x20 | 6];
      buffer := buffer + [Oct(|p.systemTitle| + 2)];
      buffer := buffer + [OBJECT_IDENTIFIER];
      buffer := buffer + [Oct(|p.systemTitle|)];
      buffer := buffer + p.systemTitle;
    }
  }

  method WriteAuthentication(p: CosemParameters) returns (buffer: bytes)
    ensures buffer == AuthenticationOctets(p)
  {
    hide Oct;
    buffer := [];
    if p.authentication != LOWEST {
      buffer := buffer + [0x80 | 10];
      buffer := buffer + [2];
      buffer := buffer + [0x03 | 0x04];
      buffer := buffer + [0x80];
      buffer := buffer + [0x80 | 11];
      buffer := buffer + [7];
      buffer := buffer + [0x60, 0x85, 0x74, 0x05, 0x08, 0x02];
      buffer := buffer + [p.authentication.Code()];
      assert buffer == [0x8A, 2, 7, 0x80, 0x8B, 7, 0x60, 0x85, 0x74, 0x05, 0x08, 0x02, p.authentication.Code()];
      buffer := buffer + [0x80 | 0x20 | 12];
      if p.authentication == LLS {
        buffer := buffer + [Oct(|p.secret| + 2)];
        buffer := buffer + [CONTEXT];
        buffer := buffer + [Oct(|p.secret|)];
        buffer := buffer + p.secret;
      } else {
        buffer := buffer + [Oct(|p.challenge| + 2)];
        buffer := buffer + [CONTEXT];
        buffer := buffer + [Oct(|p.challenge|)];
        buffer := buffer + p.challenge;
      }
    }
  }

  method WriteUserInformation() returns (buffer: bytes)
    ensures buffer == USER_OCTETS
  {
    var conformance: bv32 := 0;
    conformance := conformance | (1 << 19);  // get
    conformance := conformance | (1 << 20);  // set
    conformance := conformance | (1 << 23);  // action
    conformance := conformance | (1 << 21);  // selective access
    conformance := conformance | (1 << 11);  // block transfer with get or read
    conformance := conformance | (1 << 12);  // block transfer with set or write
    conformance := conformance | (1 << 13);  // block transfer with action
    assert conformance == 0x00B8_3800;
    buffer := [0x80 | 0x20 | 30];
    buffer := buffer + [15];
    buffer := buffer + [0x04];
    buffer := buffer + [13];
    buffer := buffer + [1, 0, 0, 0, 6, 95, 4];
    buffer := buffer + [((conformance >> 24) & 0xFF) as byte];
    buffer := buffer + [((conformance >> 16) & 0xFF) as byte];
    buffer := buffer + [((conformance >> 8) & 0xFF) as byte];
    buffer := buffer + [(conformance & 0xFF) as byte];
    buffer := buffer + [0xFF];
    buffer := buffer + [0xFF];
  }

  // ---------- what the request is ----------

  function ContentSize(p: CosemParameters): nat {
    32 + (if HasTitle(p) then 12 else 0)
    + (if HasAuthentication(p) then 17 + |AuthenticationValue(p).value| else 0)
  }

  lemma ContentLength(p: CosemParameters)
    ensures |Content(p)| == ContentSize(p)
  {
    hide Oct, Content;
    ContentOctets(p);
  }

  /** What a caller can check beforehand: only a long challenge makes the request too long. */
  predicate ChallengeWithin(p: CosemParameters, limit: nat) {
    HasAuthentication(p) && p.authentication != LLS ==>
      |p.challenge| <= if HasTitle(p) then limit else limit + 12
  }

  lemma WithinIff(p: CosemParameters)
    ensures ContentSize(p) <= 0x7F <==> ChallengeWithin(p, 66)
    ensures ContentSize(p) <= 0xFF <==> ChallengeWithin(p, 194)
  {}

  /** The walker sees the request as one value holding the content iff the challenge is short enough. */
  lemma OuterLevel(p: CosemParameters)
    ensures ReadTlvs(Aarq(p)) == Some([Tlv(0x60, Content(p))]) <==> ChallengeWithin(p, 66)
  {
    hide Content, ReadTlvs, EncodeAll, ContentSize, ChallengeWithin, Encode;
    ContentLength(p);
    WithinIff(p);
    var t := Tlv(0x60, Content(p));
    ReadAllIff([t]);
    EncodeOne(t);
    FirstShort([t]);
    TagBits();
    hide LowTag;
  }

  /** A challenge of at most `n` octets, if there is one. */
  predicate ChallengeAtMost(p: CosemParameters, n: nat) {
    HasAuthentication(p) && p.authentication != LLS ==> |p.challenge| <= n
  }

  /** The walker sees exactly the fields in the content, to its last octet, iff the challenge has at most 125. */
  lemma FieldLevel(p: CosemParameters)
    ensures ReadTlvs(Content(p)) == Some(Fields(p)) <==> ChallengeAtMost(p, 125)
  {
    hide ReadTlvs, Fields, EncodeAll, AllShort, ChallengeAtMost;
    ReadAllIff(Fields(p));
    FieldsShort(p);
  }

  lemma FieldsShort(p: CosemParameters)
    ensures AllShort(Fields(p)) <==> ChallengeAtMost(p, 125)
  {
    TagBits();
    hide Oct, LowTag;
    var fs, ts, us := Fields(p), TitleFields(p), AuthenticationFields(p);
    assert AllShort(ts);
    assert AllShort(us) <==> ChallengeAtMost(p, 125) by {
      if HasAuthentication(p) {
        assert us[2] in us;
        assert forall f <- us :: f == us[0] || f == us[1] || f == us[2];
      }
    }
    assert forall f <- us :: f in fs;
    assert Short(fs[0]) && Short(fs[1]) && Short(fs[|fs| - 1]);
    hide TitleFields, AuthenticationFields, Short, Encode;
    assert forall f <- fs :: f == fs[0] || f == fs[1] || f in ts || f in us || f == fs[|fs| - 1];
  }

  lemma TagBits()
    ensures LowTag(0x80) == 0 && LowTag(0xA1) == 1 && LowTag(0xA6) == 6 && LowTag(0x8A) == 10
    ensures LowTag(0x8B) == 11 && LowTag(0xAC) == 12 && LowTag(0xBE) == 30
    ensures LowTag(0x06) == 6 && LowTag(0x04) == 4 && LowTag(0x60) == 0
    ensures Constructed(0xA1) && Constructed(0xA6) && Constructed(0xAC) && Constructed(0xBE)
    ensures !Constructed(0x80) && !Constructed(0x8A) && !Constructed(0x8B)
  {}

  /** The value nested in a constructed field. */
  function Nested(p: CosemParameters, tag: byte): Tlv {
    if tag == 0xA1 then ContextName(p)
    else if tag == 0xA6 then Tlv(OBJECT_IDENTIFIER, p.systemTitle)
    else if tag == 0xAC then AuthenticationValue(p)
    else Tlv(0x04, INITIATE_REQUEST)
  }

  /** Every constructed field holds exactly one value, consumed to its last octet, iff the challenge has at most 127. */
  lemma NestedLevel(p: CosemParameters)
    ensures (forall f <- Fields(p) :: Constructed(f.tag) ==> ReadTlvs(f.value) == Some([Nested(p, f.tag)]))
      <==> ChallengeAtMost(p, 127)
  {
    forall f <- Fields(p) | Constructed(f.tag)
      ensures ReadTlvs(f.value) == Some([Nested(p, f.tag)]) <==> Short(Nested(p, f.tag))
    {
      hide *;
      NestedEncoded(p, f);
      ReadAllIff([Nested(p, f.tag)]);
      EncodeOne(Nested(p, f.tag));
      FirstShort([Nested(p, f.tag)]);
      assert AllShort([Nested(p, f.tag)][1..]) by { NoneShort(); }
    }
    NestedShort(p);
    hide ReadTlvs, Fields, Nested, Short, Constructed, ChallengeAtMost;
  }

  lemma NoneShort()
    ensures AllShort([])
  {}

  lemma NestedEncoded(p: CosemParameters, f: Tlv)
    requires f in Fields(p) && Constructed(f.tag)
    ensures f.value == Encode(Nested(p, f.tag))
  {
    hide Encode, LowTag, Constructed;
    TagBits();
  }

  lemma NestedShort(p: CosemParameters)
    ensures (forall f <- Fields(p) :: Constructed(f.tag) ==> Short(Nested(p, f.tag))) <==> ChallengeAtMost(p, 127)
  {
    TagBits();
    hide Encode, LowTag, Constructed;
    var fs := Fields(p);
    assert HasAuthentication(p) ==> fs[|fs| - 2].tag == 0xAC && fs[|fs| - 2] in fs;
    assert !HasAuthentication(p) ==> forall f <- fs :: f.tag != 0xAC;
  }

  /** Context tags strictly increase from field to field. */
  lemma TagsIncrease(p: CosemParameters)
    ensures forall i, j :: 0 <= i < j < |Fields(p)| ==> LowTag(Fields(p)[i].tag) < LowTag(Fields(p)[j].tag)
  {
    hide Encode, LowTag;
    TagBits();
    var fs := Fields(p);
    assert fs[0].tag == 0x80 && fs[1].tag == 0xA1 && fs[|fs| - 1].tag == 0xBE;
    assert HasTitle(p) ==> fs[2].tag == 0xA6;
    assert HasAuthentication(p) ==>
      fs[|fs| - 4].tag == 0x8A && fs[|fs| - 3].tag == 0x8B && fs[|fs| - 2].tag == 0xAC;
    assert |fs| == 3 + (if HasTitle(p) then 1 else 0) + (if HasAuthentication(p) then 3 else 0);
    hide Fields, HasTitle, HasAuthentication;
  }

  /** The optional fields are those the parameters select. */
  lemma FieldsSelected(p: CosemParameters)
    ensures (exists f <- Fields(p) :: f.tag == 0xA6) <==> p.security != NONE || p.authentication == HLS_GMAC
    ensures forall tag <- [0x8A, 0x8B, 0xAC] ::
      (exists f <- Fields(p) :: f.tag == tag) <==> p.authentication != LOWEST
    ensures forall tag <- [0x80, 0xA1, 0xBE] :: exists f <- Fields(p) :: f.tag == tag
    ensures forall f <- Fields(p) :: f.tag in {0x80, 0xA1, 0xA6, 0x8A, 0x8B, 0xAC, 0xBE}
  {
    hide Encode;
    var fs := Fields(p);
    assert fs[0].tag == 0x80 && fs[1].tag == 0xA1 && fs[|fs| - 1].tag == 0xBE;
    assert HasTitle(p) ==> fs[2].tag == 0xA6;
    assert HasAuthentication(p) ==>
      fs[|fs| - 4].tag == 0x8A && fs[|fs| - 3].tag == 0x8B && fs[|fs| - 2].tag == 0xAC;
  }

  /** The octet patched in is the length of what follows exactly up to 194 challenge octets beside a title. */
  lemma PatchExact(p: CosemParameters)
    ensures Val(Aarq(p)[1]) == |Aarq(p)| - 2 <==> ChallengeWithin(p, 194)
  {
    hide Oct, Val, Content, ContentSize, ChallengeWithin;
    ContentLength(p);
    WithinIff(p);
    ValOct(|Content(p)|);
    assert Aarq(p)[1] == Oct(|Content(p)|);
    ModExact(|Content(p)|);
  }

  lemma ModExact(n: nat)
    ensures n % 256 == n <==> n <= 0xFF
  {}
}
