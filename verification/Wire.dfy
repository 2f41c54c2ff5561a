/**
 What goes on the wire, in octets: the tags, lengths and contents of section 8 of X.690 and sections 3 and 8 of
 RFC 3416 and RFC 3417 as figures, which messages can be encoded, and which come back.
 */
module WireForm {
  import opened GoTypes
  import opened Integers
  import opened Headers
  import opened ObjectIdentifiers
  import opened Messages
  import opened RoundTrip
  import opened Exactness

  // ---------------------------------------------------------------------------
  // Numbers in octets

  lemma LengthInOctets(l: nat)
    requires l <= 0xFFFF
    ensures l < 127 ==> LengthOctets(l) == [l]
    ensures 127 <= l <= 0xFF ==> LengthOctets(l) == [0x81, l]
    ensures l > 0xFF ==> LengthOctets(l) == [0x82, l / 256, l % 256]
  {
    assert Pow256(1) == 256;
    if 127 <= l <= 0xFF {
      assert BigEndian(l, 1) == [l];
    } else if l > 0xFF {
      assert LengthLen(l / 256) == 1;
      assert BigEndian(l, 2) == [l / 256, l % 256];
    }
  }

  lemma IntegerInOctets(v: int)
    requires -0x8000 <= v <= 0x7FFF
    ensures -128 <= v <= 127 ==> IntBytes(v) == [v % 256]
    ensures !(-128 <= v <= 127) ==> IntBytes(v) == [(v / 256) % 256, v % 256]
  {
    assert Pow256(1) == 256;
    if -128 <= v <= 127 {
      assert BigEndian(v, 1) == [v % 256];
    } else {
      assert IntLen(v / 256) == 1;
      assert BigEndian(v, 2) == [(v / 256) % 256, v % 256];
    }
  }

  lemma ArcInOctets(v: nat)
    requires v < 16384
    ensures v < 128 ==> Base128(v) == [v]
    ensures v >= 128 ==> Base128(v) == [128 + v / 128, v % 128]
  {
    assert Pow128(1) == 128 && Pow128(0) == 1;
    if 0 < v < 128 {
      assert Base128Len(v / 128) == 0;
      assert Groups(v, 1) == [v];
    } else if v >= 128 {
      assert Base128Len(v / 128) == 1;
      assert Groups(v, 2) == [128 + v / 128, v % 128];
    }
  }

  // ---------------------------------------------------------------------------
  // Values, varbinds and messages in octets

  /** Tag and content of every value that can be encoded. */
  lemma ValueOnTheWire(v: Value)
    requires EncodeValue(v).Ok?
    ensures var e := EncodeValue(v).value;
            match v
            case Integer(i) => e == Block(0x02, IntBytes(i))
            case Bits(b) => e == Block(0x03, [(-b.bitLength) % 8] + b.octets)
            case Octets(b) => e == Block(0x04, b)
            case Null => e == [0x05, 0x00]
            case ObjectId(id) => |id| >= 2 && e == Block(0x06, [((id[0] as int) * 40 + id[1]) % 256] + Arcs(id[2..]))
            case IpAddress(ip) => |ip| <= 16 && e == [0x40, |ip|] + ip
            case NoSuchObject => e == [0x80, 0x00]
            case NoSuchInstance => e == [0x81, 0x00]
            case EndOfMibView => e == [0x82, 0x00]
            case NilBits => false
  {
    hide IntBytes, Arcs, LengthLen, BigEndian;
    LengthInOctets(0);
    match v
    case Bits(b) => PaddingIsEuclidean(b.bitLength);
    case IpAddress(ip) => LengthInOctets(|ip|);
    case _ =>
  }

  lemma VarbindOnTheWire(vb: Varbind)
    requires EncodeVarbind(vb).Ok?
    ensures |vb.oid| >= 2 && EncodeValue(vb.value).Ok?
    ensures EncodeVarbind(vb).value
            == Block(0x30, Block(0x06, [((vb.oid[0] as int) * 40 + vb.oid[1]) % 256] + Arcs(vb.oid[2..])) + EncodeValue(vb.value).value)
  {
    hide EncodeValue, Arcs, LengthOctets, HeaderOctets;
  }

  /** The varbinds follow one another in their order. */
  lemma {:induction false} ListOnTheWire(a: seq<Varbind>, b: seq<Varbind>)
    requires EncodeVarbinds(a).Ok? && EncodeVarbinds(b).Ok?
    ensures EncodeVarbinds(a + b) == Ok(EncodeVarbinds(a).value + EncodeVarbinds(b).value)
  {
    hide EncodeVarbind;
    if a == [] {
      assert a + b == b && EncodeVarbinds(a).value + EncodeVarbinds(b).value == EncodeVarbinds(b).value;
    } else {
      assert (a + b)[0] == a[0] && (a + b)[1..] == a[1..] + b;
      ListOnTheWire(a[1..], b);
      var first := EncodeVarbind(a[0]).value;
      assert first + (EncodeVarbinds(a[1..]).value + EncodeVarbinds(b).value)
             == first + EncodeVarbinds(a[1..]).value + EncodeVarbinds(b).value;
    }
  }

  /** The whole message: SEQUENCE of version, community and PDU, the PDU of request id, error value, error
      index and the SEQUENCE of varbinds. */
  lemma MessageOnTheWire(m: Message)
    requires EncodeMessage(m).Ok?
    ensures EncodeVarbinds(m.varbinds).Ok?
    ensures var pdu := Block(0x02, IntBytes(m.requestId)) + Block(0x02, IntBytes(m.errorVal)) + Block(0x02, IntBytes(m.errorIdx))
                       + Block(0x30, EncodeVarbinds(m.varbinds).value);
            EncodeMessage(m).value
            == Block(0x30, Block(0x02, IntBytes(m.version)) + Block(0x04, m.community) + Block(m.pduType, pdu))
  {
    hide IntBytes, LengthOctets;
  }

  lemma ShortBlock(tag: byte, content: bytes)
    requires |content| < 127
    ensures Block(tag, content) == [tag, |content|] + content
  {
    LengthInOctets(|content|);
  }

  /** Values octet by octet. */
  lemma IntegersInOctets()
    ensures EncodeValue(Integer(0)) == Ok([0x02, 0x01, 0x00])
    ensures EncodeValue(Integer(-129)) == Ok([0x02, 0x02, 0xFF, 0x7F])
    ensures EncodeValue(Integer(256)) == Ok([0x02, 0x02, 0x01, 0x00])
  {
    hide Block, IntBytes;
    ShortInteger(0);
    ShortInteger(-129);
    ShortInteger(256);
  }

  lemma StringsInOctets()
    ensures EncodeValue(Bits(BitString([0x80, 0x40], 10))) == Ok([0x03, 0x03, 0x06, 0x80, 0x40])
    ensures EncodeValue(Octets([0x61, 0x62])) == Ok([0x04, 0x02, 0x61, 0x62])
  {
    hide Block;
    assert PaddingBits(10) == 6;
    assert BitStringContent(BitString([0x80, 0x40], 10)) == [0x06, 0x80, 0x40];
    ShortBlock(0x03, [0x06, 0x80, 0x40]);
    assert [0x03, 0x03] + [0x06, 0x80, 0x40] == [0x03, 0x03, 0x06, 0x80, 0x40];
    ShortBlock(0x04, [0x61, 0x62]);
    assert [0x04, 0x02] + [0x61, 0x62] == [0x04, 0x02, 0x61, 0x62];
  }

  lemma IdentifierInOctets()
    ensures EncodeValue(ObjectId([1, 3, 6, 1, 4, 1, 311])) == Ok([0x06, 0x07, 0x2B, 0x06, 0x01, 0x04, 0x01, 0x82, 0x37])
  {
    hide Block, Arcs;
    var oid: Oid := [1, 3, 6, 1, 4, 1, 311];
    ArcsInOctets([6, 1, 4, 1], 311);
    assert oid[2..] == [6, 1, 4, 1] + [311];
    assert OidContent(oid) == [0x2B, 0x06, 0x01, 0x04, 0x01, 0x82, 0x37];
    ShortBlock(0x06, OidContent(oid));
    assert [0x06, 0x07] + OidContent(oid) == [0x06, 0x07, 0x2B, 0x06, 0x01, 0x04, 0x01, 0x82, 0x37];
  }

  lemma AddressesInOctets()
    ensures EncodeValue(IpAddress([10, 0, 0, 1])) == Ok([0x40, 0x04, 0x0A, 0x00, 0x00, 0x01])
    ensures EncodeValue(IpAddress([0, 0, 0, 0, 0, 0, 0, 0, 0, 0, 0xFF, 0xFF, 10, 0, 0, 1]))
            == Ok([0x40, 0x10, 0, 0, 0, 0, 0, 0, 0, 0, 0, 0, 0xFF, 0xFF, 0x0A, 0x00, 0x00, 0x01])
  {
    hide Block;
    ShortBlock(0x40, [10, 0, 0, 1]);
    assert [0x40, 0x04] + [10, 0, 0, 1] == [0x40, 0x04, 0x0A, 0x00, 0x00, 0x01];
    var long: bytes := [0, 0, 0, 0, 0, 0, 0, 0, 0, 0, 0xFF, 0xFF, 10, 0, 0, 1];
    assert long[..12] == V4_IN_V6_PREFIX;
    ShortBlock(0x40, long);
    assert [0x40, 0x10] + long == [0x40, 0x10, 0, 0, 0, 0, 0, 0, 0, 0, 0, 0, 0xFF, 0xFF, 0x0A, 0x00, 0x00, 0x01];
  }

  lemma ShortInteger(v: int32)
    requires -0x8000 <= v <= 0x7FFF
    ensures Block(0x02, IntBytes(v)) == if -128 <= v <= 127 then [0x02, 0x01, v % 256] else [0x02, 0x02, (v / 256) % 256, v % 256]
  {
    hide IntBytes, Block;
    IntegerInOctets(v);
    ShortBlock(0x02, IntBytes(v));
  }

  /** Small arcs are their own octets; the last may take two. */
  lemma {:induction false} ArcsInOctets(a: Oid, last: uint32)
    requires (forall i | 0 <= i < |a| :: a[i] < 128) && last < 16384
    ensures (forall i | 0 <= i < |a| :: 0 <= a[i] < 256) && Arcs(a + [last]) == a + if last < 128 then [last] else [128 + last / 128, last % 128]
  {
    hide Base128;
    if a == [] {
      ArcInOctets(last);
      assert [last][1..] == [];
      assert a + [last] == [last];
    } else {
      ArcInOctets(a[0]);
      assert (a + [last])[1..] == a[1..] + [last];
      ArcsInOctets(a[1..], last);
    }
  }

  // ---------------------------------------------------------------------------
  // A GET request for sysName.0, octet by octet

  const SYS_NAME: Oid := [1, 3, 6, 1, 2, 1, 1, 5, 0]
  const PUBLIC: bytes := [0x70, 0x75, 0x62, 0x6C, 0x69, 0x63]

  lemma NameInOctets()
    ensures EncodeOid(SYS_NAME) == Ok([0x06, 0x08, 0x2B, 0x06, 0x01, 0x02, 0x01, 0x01, 0x05, 0x00])
  {
    hide Block, Arcs;
    ArcsInOctets([6, 1, 2, 1, 1, 5], 0);
    assert SYS_NAME[2..] == [6, 1, 2, 1, 1, 5] + [0];
    var content: bytes := [0x2B, 0x06, 0x01, 0x02, 0x01, 0x01, 0x05, 0x00];
    assert OidContent(SYS_NAME) == content;
    ShortBlock(0x06, content);
    assert [0x06, 0x08] + content == [0x06, 0x08, 0x2B, 0x06, 0x01, 0x02, 0x01, 0x01, 0x05, 0x00];
  }

  lemma NullVarbindInOctets()
    ensures EncodeVarbind(Varbind(SYS_NAME, Null))
            == Ok([0x30, 0x0C, 0x06, 0x08, 0x2B, 0x06, 0x01, 0x02, 0x01, 0x01, 0x05, 0x00, 0x05, 0x00])
  {
    hide Block, EncodeOid;
    NameInOctets();
    ShortBlock(0x05, []);
    var both: bytes := [0x06, 0x08, 0x2B, 0x06, 0x01, 0x02, 0x01, 0x01, 0x05, 0x00, 0x05, 0x00];
    assert EncodeOid(SYS_NAME).value + ([0x05, 0x00] + []) == both;
    ShortBlock(0x30, both);
    assert [0x30, 0x0C] + both == [0x30, 0x0C, 0x06, 0x08, 0x2B, 0x06, 0x01, 0x02, 0x01, 0x01, 0x05, 0x00, 0x05, 0x00];
  }

  function GetSysName(pduType: byte): Message {
    Message(1, PUBLIC, pduType, 1, 0, 0, [Varbind(SYS_NAME, Null)])
  }

  const PDU_OCTETS: bytes :=
    [0x02, 0x01, 0x01, 0x02, 0x01, 0x00, 0x02, 0x01, 0x00,
     0x30, 0x0E, 0x30, 0x0C, 0x06, 0x08, 0x2B, 0x06, 0x01, 0x02, 0x01, 0x01, 0x05, 0x00, 0x05, 0x00]

  lemma PduInOctets(pduType: byte)
    ensures EncodeVarbinds(GetSysName(pduType).varbinds).Ok?
    ensures PduContent(GetSysName(pduType), EncodeVarbinds(GetSysName(pduType).varbinds).value) == PDU_OCTETS
  {
    hide Block, EncodeVarbind, EncodeVarbinds, IntBytes;
    NullVarbindInOctets();
    SingleVarbind(Varbind(SYS_NAME, Null));
    ShortInteger(0);
    ShortInteger(1);
    var list: bytes := [0x30, 0x0C, 0x06, 0x08, 0x2B, 0x06, 0x01, 0x02, 0x01, 0x01, 0x05, 0x00, 0x05, 0x00];
    ShortBlock(0x30, list);
    var one: bytes, zero: bytes := [0x02, 0x01, 0x01], [0x02, 0x01, 0x00];
    assert PduContent(GetSysName(pduType), list) == one + zero + zero + ([0x30, 0x0E] + list);
    PduPieces(one, zero, list);
  }

  lemma PduPieces(one: bytes, zero: bytes, list: bytes)
    requires one == [0x02, 0x01, 0x01] && zero == [0x02, 0x01, 0x00]
    requires list == [0x30, 0x0C, 0x06, 0x08, 0x2B, 0x06, 0x01, 0x02, 0x01, 0x01, 0x05, 0x00, 0x05, 0x00]
    ensures one + zero + zero + ([0x30, 0x0E] + list) == PDU_OCTETS
  {
  }

  /** Any type of PDU. */
  lemma RequestInOctets(pduType: byte)
    ensures EncodeMessage(GetSysName(pduType))
            == Ok([0x30, 0x26] + [0x02, 0x01, 0x01] + [0x04, 0x06, 0x70, 0x75, 0x62, 0x6C, 0x69, 0x63] + [pduType, 0x19] + PDU_OCTETS)
  {
    hide Block, EncodeVarbinds, IntBytes, PduContent;
    PduInOctets(pduType);
    ShortInteger(1);
    ShortBlock(0x04, PUBLIC);
    ShortBlock(pduType, PDU_OCTETS);
    var community: bytes := [0x04, 0x06, 0x70, 0x75, 0x62, 0x6C, 0x69, 0x63];
    assert [0x04, 0x06] + PUBLIC == community;
    var content: bytes := [0x02, 0x01, 0x01] + community + ([pduType, 0x19] + PDU_OCTETS);
    assert MessageContent(GetSysName(pduType), EncodeVarbinds(GetSysName(pduType).varbinds).value) == content;
    ShortBlock(0x30, content);
    assert [0x30, 0x26] + content == [0x30, 0x26] + [0x02, 0x01, 0x01] + community + [pduType, 0x19] + PDU_OCTETS;
  }

  /** A GET request of version 2c for sysName.0 under the community "public" with request id 1. */
  lemma GetRequestInOctets()
    ensures EncodeMessage(Message(1, [0x70, 0x75, 0x62, 0x6C, 0x69, 0x63], 0xA0, 1, 0, 0, [Varbind([1, 3, 6, 1, 2, 1, 1, 5, 0], Null)]))
            == Ok([0x30, 0x26] + [0x02, 0x01, 0x01] + [0x04, 0x06, 0x70, 0x75, 0x62, 0x6C, 0x69, 0x63]
                  + [0xA0, 0x19]
                  + [0x02, 0x01, 0x01, 0x02, 0x01, 0x00, 0x02, 0x01, 0x00,
                     0x30, 0x0E, 0x30, 0x0C, 0x06, 0x08, 0x2B, 0x06, 0x01, 0x02, 0x01, 0x01, 0x05, 0x00, 0x05, 0x00])
  {
    hide EncodeMessage;
    RequestInOctets(0xA0);
  }

  // ---------------------------------------------------------------------------
  // Which messages can be encoded

  predicate HasFirstOctet(oid: Oid) {
    |oid| >= 2 && oid[0] <= 6 && oid[1] < 40
  }

  /** Four octets, or sixteen of which ten are 0x00 and the next two 0xFF. */
  predicate IsIPv4(ip: bytes) {
    |ip| == 4 || (|ip| == 16 && (forall k | 0 <= k < 10 :: ip[k] == 0) && ip[10] == 0xFF && ip[11] == 0xFF)
  }

  predicate Sendable(vb: Varbind) {
    HasFirstOctet(vb.oid) &&
    match vb.value
    case ObjectId(id) => HasFirstOctet(id)
    case IpAddress(ip) => IsIPv4(ip)
    case NilBits => false
    case _ => true
  }

  lemma IPv4HasTo4(ip: bytes)
    ensures HasTo4(ip) <==> IsIPv4(ip)
  {
    if |ip| == 16 {
      assert forall k | 0 <= k < 12 :: ip[..12][k] == ip[k];
    }
  }

  lemma VarbindEncodedExactly(vb: Varbind)
    ensures EncodeVarbind(vb).Ok? <==> Sendable(vb)
    ensures EncodeVarbind(vb).Panic? <==> HasFirstOctet(vb.oid) && vb.value == NilBits
  {
    hide Block;
    if vb.value.IpAddress? { IPv4HasTo4(vb.value.ip); }
  }

  lemma {:induction false} VarbindsEncodedExactly(vbs: seq<Varbind>)
    ensures EncodeVarbinds(vbs).Ok? <==> forall i | 0 <= i < |vbs| :: Sendable(vbs[i])
    ensures forall i | 0 <= i < |vbs| && (forall j | 0 <= j < i :: Sendable(vbs[j])) && !Sendable(vbs[i]) ::
              if HasFirstOctet(vbs[i].oid) && vbs[i].value == NilBits then EncodeVarbinds(vbs) == Panic else EncodeVarbinds(vbs) == Err
  {
    hide EncodeVarbind, Sendable, HasFirstOctet;
    if vbs != [] {
      VarbindEncodedExactly(vbs[0]);
      VarbindsEncodedExactly(vbs[1..]);
      assert forall i | 1 <= i < |vbs| :: vbs[i] == vbs[1..][i - 1];
      if Sendable(vbs[0]) {
        forall i | 0 <= i < |vbs| && (forall j | 0 <= j < i :: Sendable(vbs[j])) && !Sendable(vbs[i])
          ensures if HasFirstOctet(vbs[i].oid) && vbs[i].value == NilBits then EncodeVarbinds(vbs) == Panic else EncodeVarbinds(vbs) == Err
        {
          assert forall j | 0 <= j < i - 1 :: vbs[1..][j] == vbs[j + 1];
          assert !Sendable(vbs[1..][i - 1]);
        }
      }
    }
  }

  /** Main result: a message is encoded exactly when all its varbinds have identifiers whose first two arcs fit
      the first octet, as names and as values, IPv4 addresses, and no nil bit string. Otherwise the first
      varbind that does not decides: a nil bit string under a good name panics, the others are errors. */
  lemma EncodedExactly(m: Message)
    ensures EncodeMessage(m).Ok? <==> forall i | 0 <= i < |m.varbinds| :: Sendable(m.varbinds[i])
    ensures forall i | 0 <= i < |m.varbinds| && (forall j | 0 <= j < i :: Sendable(m.varbinds[j])) && !Sendable(m.varbinds[i]) ::
              if HasFirstOctet(m.varbinds[i].oid) && m.varbinds[i].value == NilBits then EncodeMessage(m) == Panic else EncodeMessage(m) == Err
  {
    hide EncodeVarbinds, Sendable, HasFirstOctet, Block;
    VarbindsEncodedExactly(m.varbinds);
  }

  // ---------------------------------------------------------------------------
  // Which messages come back

  /** The heads that are decoded to a request or a response, in figures. */
  predicate Decodable(version: int, pduType: int, errorVal: int) {
    && (version == 0 || version == 1)
    && (pduType == 0xA0 || pduType == 0xA1 || pduType == 0xA2 || pduType == 0xA3 || (pduType == 0xA5 && version == 1))
    && errorVal <= 18
  }

  lemma HeadInFigures(m: Message)
    ensures HeadReadable(m) <==> Decodable(m.version, m.pduType, m.errorVal)
  {
  }

  /** Main result: every request or response of version 1 or 2c with a non-empty list of varbinds that can be
      sent and read comes back, in both readings, as long as its length can be read. */
  lemma RequestsAndResponsesComeBack(rd: Reading, m: Message)
    requires Decodable(m.version, m.pduType, m.errorVal) && m.varbinds != []
    requires forall i | 0 <= i < |m.varbinds| :: Sendable(m.varbinds[i]) && VarbindReadable(rd, m.varbinds[i])
    requires EncodeMessage(m).Ok? ==> |EncodeMessage(m).value| <= if rd.AsWritten? then 128 else MAX_INT64
    ensures EncodeMessage(m).Ok? && DecodeMsg(rd, EncodeMessage(m).value) == Done(Pdu(MessageAsDecoded(m)), [])
  {
    hide DecodeMsg, VarbindReadable, Sendable, MessageContent, AsDecoded, EncodeVarbinds;
    HeadInFigures(m);
    VarbindsEncodedExactly(m.varbinds);
    var list := EncodeVarbinds(m.varbinds).value;
    BlockIsLonger(0x30, MessageContent(m, list));
    MessageRoundTrip(rd, m, list);
  }

  lemma BlockIsLonger(tag: byte, content: bytes)
    ensures |Block(tag, content)| >= |content| + 2
  {
    assert |LengthOctets(|content|)| >= 1;
  }

  /** The identifiers and values that the decoder as written gives back, in figures. */
  predicate ReadableOid(oid: Oid) {
    && |oid| >= 3 && oid[1] < 40 && (oid[0] as int) * 40 + oid[1] <= 255
    && forall i | 2 <= i < |oid| :: oid[i] < 0x1000_0000
  }

  predicate Readable(vb: Varbind) {
    ReadableOid(vb.oid) &&
    match vb.value
    case Integer(_) => false
    case Bits(b) => 8 * |b.octets| - 8 < b.bitLength <= 8 * |b.octets|
    case NilBits => false
    case ObjectId(id) => ReadableOid(id)
    case IpAddress(ip) => |ip| == 4
    case _ => true
  }

  lemma ReadableInFigures(vb: Varbind)
    ensures VarbindReadable(AsWritten, vb) <==> Readable(vb)
  {
    OidInFigures(vb.oid);
    if vb.value.ObjectId? { OidInFigures(vb.value.id); }
    hide OidReadable, ReadableOid;
  }

  lemma OidInFigures(oid: Oid)
    ensures OidReadable(AsWritten, oid) <==> ReadableOid(oid)
  {
    hide ArcReadable;
    forall i | 2 <= i < |oid| ensures ArcReadable(AsWritten, oid[i]) <==> oid[i] < 0x1000_0000 {
      ArcInFigures(oid[i]);
    }
  }

  lemma ArcInFigures(v: nat)
    ensures ArcReadable(AsWritten, v) <==> v < 0x1000_0000
  {
  }

  /** Main result for the code as written, in figures: what can be encoded comes back if and only if its head
      is one of these, it has a varbind, all of them are readable, and it is no longer than 128 octets. */
  lemma ComesBackExactly(m: Message)
    requires EncodeMessage(m).Ok? && |EncodeMessage(m).value| <= MAX_INT64
    ensures DecodeMsg(AsWritten, EncodeMessage(m).value) == Done(Pdu(MessageAsDecoded(m)), [])
            <==> Decodable(m.version, m.pduType, m.errorVal) && m.varbinds != []
                 && (forall i | 0 <= i < |m.varbinds| :: Readable(m.varbinds[i]))
                 && |EncodeMessage(m).value| <= 128
  {
    hide DecodeMsg, VarbindReadable, Readable, MessageContent, AsDecoded, EncodeVarbinds, Block;
    HeadInFigures(m);
    forall i | 0 <= i < |m.varbinds| ensures VarbindReadable(AsWritten, m.varbinds[i]) <==> Readable(m.varbinds[i]) {
      ReadableInFigures(m.varbinds[i]);
    }
    var list := EncodeVarbinds(m.varbinds).value;
    ShortMessage(MessageContent(m, list));
    MessageReadBackExactly(m, list);
  }

  lemma ShortMessage(content: bytes)
    ensures |Block(0x30, content)| <= 128 <==> |content| < 127
    ensures |content| < |Block(0x30, content)|
  {
    if |content| < 127 { LengthInOctets(|content|); }
  }

  /** Nothing else comes out of the decoder as a request or a response, from any octets; a trap is of
      version 1. */
  lemma OnlyRequestsAndResponses(s: bytes)
    requires DecodeMsg(AsWritten, s).Done?
    ensures match DecodeMsg(AsWritten, s).value
            case Pdu(m) => Decodable(m.version, m.pduType, m.errorVal) && m.varbinds != []
            case Trap(version, _) => version == 0
  {
    hide DecodeMsg, AllReturned;
    DecoderImage(s);
    match DecodeMsg(AsWritten, s).value
    case Pdu(m) => HeadInFigures(m);
    case Trap(_, _) =>
  }

  /** A SET request, for one, and every other type. */
  lemma EveryTypeComesBack(pduType: byte)
    requires Decodable(1, pduType, 0)
    ensures EncodeMessage(GetSysName(pduType)).Ok?
    ensures DecodeMsg(AsWritten, EncodeMessage(GetSysName(pduType)).value) == Done(Pdu(GetSysName(pduType)), [])
  {
    hide DecodeMsg, EncodeMessage;
    var m := GetSysName(pduType);
    RequestInOctets(pduType);
    assert VarbindReadable(AsWritten, m.varbinds[0]) && Sendable(m.varbinds[0]);
    RequestsAndResponsesComeBack(AsWritten, m);
    assert AsDecoded(m.varbinds) == m.varbinds;
  }
}
