/**
 Decoding undoes encoding: for both readings of the decoder, every message in the reading's domain
 comes back from its own encoding.
 */
module RoundTrip {
  import opened GoTypes
  import opened Integers
  import opened Headers
  import opened ObjectIdentifiers
  import opened Messages

  // ---------------------------------------------------------------------------
  // The domain

  predicate WellFormedBits(b: BitString) {
    8 * |b.octets| - 8 < b.bitLength <= 8 * |b.octets|
  }

  predicate ValueReadable(rd: Reading, v: Value) {
    match v
    case Integer(_) => rd.PerStandard?
    case Bits(b) => WellFormedBits(b)
    case NilBits => false
    case ObjectId(id) => OidReadable(rd, id)
    case IpAddress(ip) => |ip| == 4
    case _ => true
  }

  predicate VarbindReadable(rd: Reading, vb: Varbind) {
    OidReadable(rd, vb.oid) && ValueReadable(rd, vb.value)
  }

  predicate HeadReadable(m: Message) {
    && (m.version == VERSION_1 || m.version == VERSION_2C)
    && PduSupported(m.version, m.pduType)
    && m.errorVal <= MAX_ERROR
  }

  /** The fields and varbinds that come back, whatever the lengths. */
  predicate FieldsReadable(rd: Reading, m: Message) {
    && HeadReadable(m)
    && m.varbinds != []
    && forall i | 0 <= i < |m.varbinds| :: VarbindReadable(rd, m.varbinds[i])
  }

  /** The decoder returns every IPv4 address in its sixteen-byte form. */
  function ValueAsDecoded(v: Value): Value {
    match v
    case IpAddress(ip) => if |ip| == 4 then IpAddress(V4_IN_V6_PREFIX + ip) else v
    case _ => v
  }

  function AsDecoded(vbs: seq<Varbind>): (r: seq<Varbind>)
    ensures |r| == |vbs|
    ensures forall i | 0 <= i < |vbs| :: r[i] == vbs[i].(value := ValueAsDecoded(vbs[i].value))
  {
    seq(|vbs|, i requires 0 <= i < |vbs| => vbs[i].(value := ValueAsDecoded(vbs[i].value)))
  }

  function MessageAsDecoded(m: Message): Message {
    m.(varbinds := AsDecoded(m.varbinds))
  }

  // ---------------------------------------------------------------------------
  // Values

  lemma IntegerRoundTrip(rd: Reading, v: int64, rest: bytes)
    ensures DecodeIntegerWithHeader(rd, EncodeInteger(v) + rest) == Done(v, rest)
  {
    hide IntBytes, SignedValue, DecodeHeader, Block, IntLen;
    var content := IntBytes(v);
    Int64UsesAtMostEightOctets(v);
    HeaderRoundTrip(rd, INTEGER, content, rest);
    SignedValueInverts(v);
    assert (content + rest)[..|content|] == content && (content + rest)[|content|..] == rest;
  }

  lemma OctetStringRoundTrip(rd: Reading, b: bytes, rest: bytes)
    requires LengthReadable(rd, |b|)
    ensures DecodeOctetStringWithHeader(rd, Block(OCTET_STRING, b) + rest) == Done(b, rest)
  {
    hide DecodeHeader, Block;
    HeaderRoundTrip(rd, OCTET_STRING, b, rest);
    assert (b + rest)[..|b|] == b && (b + rest)[|b|..] == rest;
  }

  /** The encoder's two truncating remainders are one Euclidean one. */
  lemma PaddingIsEuclidean(bitLength: int)
    ensures PaddingBits(bitLength) == (-bitLength) % 8
  {
  }

  /** A bit string comes back exactly when its octets are as many as its bits need. */
  lemma BitStringReadBackExactly(b: BitString, rest: bytes)
    ensures DecodeBitString(|BitStringContent(b)|, BitStringContent(b) + rest) == Done(b, rest)
            <==> WellFormedBits(b)
  {
    hide PaddingBits, WellFormedBits;
    var content := BitStringContent(b);
    var s := content + rest;
    var bitLength := 8 * |b.octets| - PaddingBits(b.bitLength);
    PaddingIsEuclidean(b.bitLength);
    assert s[1..|content|] == b.octets && s[|content|..] == rest;
    assert DecodeBitString(|content|, s) == Done(BitString(b.octets, bitLength), rest);
    PaddingDeterminesLength(b);
  }

  lemma PaddingDeterminesLength(b: BitString)
    ensures 8 * |b.octets| - (-b.bitLength) % 8 == b.bitLength <==> WellFormedBits(b)
  {
  }

  lemma ContentRoundTrip(rd: Reading, tag: byte, content: bytes, rest: bytes)
    requires LengthReadable(rd, |content|)
    ensures DecodeValue(rd, Block(tag, content) + rest)
            == DecodeContent(rd, Header(tag, |content|), content + rest)
  {
    hide DecodeHeader, Block, DecodeContent;
    HeaderRoundTrip(rd, tag, content, rest);
  }

  lemma ValueRoundTrip(rd: Reading, v: Value, rest: bytes)
    requires ValueReadable(rd, v) && EncodeValue(v).Ok?
    requires LengthReadable(rd, |EncodeValue(v).value|)
    ensures DecodeValue(rd, EncodeValue(v).value + rest) == Done(Known(ValueAsDecoded(v)), rest)
  {
    hide DecodeValue, DecodeOid, OidContent, OidReadable, IntBytes, DecodeHeader, BitStringContent, DecodeBitString, SignedValue;
    match v
    case Integer(i) =>
      var content := IntBytes(i);
      ContentRoundTrip(rd, INTEGER, content, rest);
      SignedValueInverts(i);
      assert (content + rest)[..|content|] == content && (content + rest)[|content|..] == rest;
    case Bits(b) =>
      ContentRoundTrip(rd, BIT_STRING, BitStringContent(b), rest);
      BitStringReadBackExactly(b, rest);
    case Octets(b) =>
      ContentRoundTrip(rd, OCTET_STRING, b, rest);
      assert (b + rest)[..|b|] == b && (b + rest)[|b|..] == rest;
    case ObjectId(id) =>
      ContentRoundTrip(rd, OBJECT_IDENTIFIER, OidContent(id), rest);
      OidRoundTrip(rd, id, rest);
    case IpAddress(ip) =>
      ContentRoundTrip(rd, IP_ADDRESS, ip, rest);
      assert (ip + rest)[..4] == ip && (ip + rest)[4..] == rest;
    case Null => EmptyContent(rd, NULL, rest);
    case NoSuchObject => EmptyContent(rd, NO_SUCH_OBJECT, rest);
    case NoSuchInstance => EmptyContent(rd, NO_SUCH_INSTANCE, rest);
    case EndOfMibView => EmptyContent(rd, END_OF_MIB_VIEW, rest);
  }

  lemma EmptyContent(rd: Reading, tag: byte, rest: bytes)
    ensures DecodeValue(rd, Block(tag, []) + rest) == DecodeContent(rd, Header(tag, 0), rest)
  {
    hide DecodeValue, DecodeContent, Block;
    ContentRoundTrip(rd, tag, [], rest);
    assert [] + rest == rest;
  }

  // ---------------------------------------------------------------------------
  // Varbinds

  lemma VarbindRoundTrip(rd: Reading, vb: Varbind, rest: bytes)
    requires VarbindReadable(rd, vb) && EncodeVarbind(vb).Ok?
    requires LengthReadable(rd, |EncodeVarbind(vb).value|)
    ensures DecodeVarbind(rd, EncodeVarbind(vb).value + rest)
            == Done(vb.(value := ValueAsDecoded(vb.value)), rest)
  {
    hide DecodeHeader, DecodeOidWithHeader, DecodeValue, EncodeValue, OidContent, OidReadable, ValueReadable, ValueAsDecoded, LengthOctets;
    var name := Block(OBJECT_IDENTIFIER, OidContent(vb.oid));
    var value := EncodeValue(vb.value).value;
    var tail := value + rest;
    HeaderRoundTrip(rd, SEQUENCE, name + value, rest);
    assert (name + value) + rest == name + tail;
    OidBlockRoundTrip(rd, vb.oid, tail);
    ValueRoundTrip(rd, vb.value, rest);
  }

  lemma {:induction false} VarbindListRoundTrip(rd: Reading, acc: seq<Varbind>, vbs: seq<Varbind>)
    requires vbs != [] && (forall i | 0 <= i < |vbs| :: VarbindReadable(rd, vbs[i]))
    requires EncodeVarbinds(vbs).Ok? && LengthReadable(rd, |EncodeVarbinds(vbs).value|)
    ensures DecodeVarbindList(rd, acc, EncodeVarbinds(vbs).value) == Done(acc + AsDecoded(vbs), [])
    decreases |vbs|
  {
    hide DecodeVarbind, EncodeVarbind, VarbindReadable, AsDecoded;
    var first := EncodeVarbind(vbs[0]).value;
    var more := EncodeVarbinds(vbs[1..]).value;
    var vb := vbs[0].(value := ValueAsDecoded(vbs[0].value));
    VarbindRoundTrip(rd, vbs[0], more);
    assert AsDecoded(vbs) == [vb] + AsDecoded(vbs[1..]);
    if vbs[1..] == [] {
      assert more == [] && AsDecoded(vbs[1..]) == [];
      assert acc + AsDecoded(vbs) == acc + [vb];
    } else {
      EncodingNotEmpty(vbs[1..]);
      VarbindListRoundTrip(rd, acc + [vb], vbs[1..]);
      assert acc + AsDecoded(vbs) == acc + [vb] + AsDecoded(vbs[1..]);
    }
  }

  lemma EncodingNotEmpty(vbs: seq<Varbind>)
    requires vbs != [] && EncodeVarbinds(vbs).Ok?
    ensures EncodeVarbinds(vbs).value != []
  {
    assert EncodeVarbind(vbs[0]).Ok? && |EncodeVarbind(vbs[0]).value| >= 1;
  }

  // ---------------------------------------------------------------------------
  // Messages

  /** The decoded message with `m`'s own fields and the varbinds that were read. */
  function WithVarbinds(m: Message, st: Step<seq<Varbind>>): Step<Decoded> {
    match st
    case Done(vbs, r) => Done(Pdu(m.(varbinds := vbs)), r)
    case Fail(r) => Fail(r)
    case Crash => Crash
  }

  lemma ListBlockReduces(rd: Reading, list: bytes)
    requires LengthReadable(rd, |list|)
    ensures DecodeVarbinds(rd, Block(SEQUENCE, list)) == DecodeVarbindList(rd, [], list)
  {
    hide DecodeHeader, DecodeVarbindList, Block;
    HeaderRoundTrip(rd, SEQUENCE, list, []);
    assert Block(SEQUENCE, list) + [] == Block(SEQUENCE, list) && list + [] == list;
  }

  lemma PduReduces(rd: Reading, m: Message, list: bytes)
    requires HeadReadable(m) && LengthReadable(rd, |PduContent(m, list)|)
    ensures DecodeRequestResponse(rd, m.version, m.community, m.pduType, PduContent(m, list))
            == WithVarbinds(m, DecodeVarbindList(rd, [], list))
  {
    hide DecodeIntegerWithHeader, EncodeInteger, DecodeVarbinds, DecodeVarbindList, Block;
    var s3 := Block(SEQUENCE, list);
    var s2 := EncodeInteger(m.errorIdx) + s3;
    var s1 := EncodeInteger(m.errorVal) + s2;
    assert PduContent(m, list) == EncodeInteger(m.requestId) + s1;
    IntegerRoundTrip(rd, m.requestId, s1);
    IntegerRoundTrip(rd, m.errorVal, s2);
    IntegerRoundTrip(rd, m.errorIdx, s3);
    ListBlockReduces(rd, list);
  }

  lemma CommunityReduces(rd: Reading, m: Message, list: bytes)
    requires HeadReadable(m) && LengthReadable(rd, |MessageContent(m, list)|)
    ensures DecodeCommunityMessage(rd, m.version, Block(OCTET_STRING, m.community) + Block(m.pduType, PduContent(m, list)))
            == WithVarbinds(m, DecodeVarbindList(rd, [], list))
  {
    hide DecodeHeader, DecodeOctetStringWithHeader, DecodeVarbindList, DecodeRequestResponse, WithVarbinds, LengthOctets,
         PduContent, EncodeInteger;
    var pdu := PduContent(m, list);
    OctetStringRoundTrip(rd, m.community, Block(m.pduType, pdu));
    HeaderRoundTrip(rd, m.pduType, pdu, []);
    assert Block(m.pduType, pdu) + [] == Block(m.pduType, pdu) && pdu + [] == pdu;
    PduReduces(rd, m, list);
  }

  /** All four levels of nesting around the varbinds are read back: what decodeMsg returns is settled
      by the varbind list alone. */
  lemma MessageReduces(rd: Reading, m: Message, list: bytes)
    requires HeadReadable(m) && LengthReadable(rd, |MessageContent(m, list)|)
    ensures DecodeMsg(rd, Block(SEQUENCE, MessageContent(m, list)))
            == WithVarbinds(m, DecodeVarbindList(rd, [], list))
  {
    hide DecodeHeader, DecodeIntegerWithHeader, DecodeVarbindList, DecodeCommunityMessage, WithVarbinds, LengthOctets,
         PduContent, EncodeInteger;
    var content := MessageContent(m, list);
    var tail := Block(OCTET_STRING, m.community) + Block(m.pduType, PduContent(m, list));
    HeaderRoundTrip(rd, SEQUENCE, content, []);
    assert Block(SEQUENCE, content) + [] == Block(SEQUENCE, content) && content + [] == content;
    assert content == EncodeInteger(m.version) + tail;
    IntegerRoundTrip(rd, m.version, tail);
    CommunityReduces(rd, m, list);
  }

  lemma ListIsShorter(m: Message, list: bytes)
    ensures |list| <= |MessageContent(m, list)|
  {
    hide EncodeInteger, LengthOctets;
  }

  /** Main result: a message in the reading's domain is decoded to itself, its IPv4 values in their
      sixteen-byte form, and nothing is left over. */
  lemma MessageRoundTrip(rd: Reading, m: Message, list: bytes)
    requires FieldsReadable(rd, m) && EncodeVarbinds(m.varbinds) == Ok(list)
    requires LengthReadable(rd, |MessageContent(m, list)|)
    ensures EncodeMessage(m).Ok?
    ensures DecodeMsg(rd, EncodeMessage(m).value) == Done(Pdu(MessageAsDecoded(m)), [])
  {
    hide DecodeMsg, DecodeVarbindList, EncodeVarbinds, AsDecoded, VarbindReadable, MessageContent;
    ListIsShorter(m, list);
    MessageReduces(rd, m, list);
    VarbindListRoundTrip(rd, [], m.varbinds);
    assert [] + AsDecoded(m.varbinds) == AsDecoded(m.varbinds);
  }
}
