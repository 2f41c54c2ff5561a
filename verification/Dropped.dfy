/**
 The errors that decodeValue drops: which accepted varbinds carry a value that was really decoded, how far a
 value may run past its varbind, and how far the decoder's position falls behind.
 */
module DroppedErrors {
  import opened GoTypes
  import opened Headers
  import opened ObjectIdentifiers
  import opened Messages
  import opened Cursors
  import opened Decoders

  /** The decoder that decodeValue calls for the value with header `h` fails on the octets `s`. */
  predicate Dropped(h: Header, s: bytes) {
    || (h.tag == INTEGER && DecodeInteger(h.length, s).Fail?)
    || (h.tag == BIT_STRING && DecodeBitString(h.length, s).Fail?)
    || (h.tag == OCTET_STRING && DecodeOctetString(h.length, s).Fail?)
    || (h.tag == OBJECT_IDENTIFIER && DecodeOid(AsWritten, h.length, s).Fail?)
    || (h.tag == IP_ADDRESS && DecodeIpAddress(h.length, s).Fail?)
  }

  /** The same from the header and the first octets: a bit string needs its count of padding bits, at most
      seven, an identifier arcs that end with the block and none too long, an address four octets. */
  predicate Sound(h: Header, s: bytes) {
    && (h.tag == BIT_STRING ==> h.length >= 1 && s != [] && s[0] <= 7)
    && (h.tag == OBJECT_IDENTIFIER ==> OidOctets(h.length, s))
    && (h.tag == IP_ADDRESS ==> h.length == 4)
  }

  /** The header of a varbind's value and what follows it. */
  function ValueBlock(s: bytes): (st: Step<Header>)
    requires DecodeVarbind(AsWritten, s).Done?
    ensures st.Done? ==> st.value.length <= |st.rest|
  {
    DecodeHeader(AsWritten, DecodeOidWithHeader(AsWritten, DecodeHeader(AsWritten, s).rest).rest)
  }

  /** How many octets of the value's block lie past the end of the varbind; negative if it ends before. */
  function Overrun(s: bytes): int
    requires DecodeVarbind(AsWritten, s).Done?
  {
    ValueBlock(s).value.length - (|ValueBlock(s).rest| - |DecodeVarbind(AsWritten, s).rest|)
  }

  /** What was stored for a value whose decoder failed. */
  function ZeroValue(tag: byte): Value {
    if tag == BIT_STRING then NilBits
    else if tag == OBJECT_IDENTIFIER then ObjectId([])
    else IpAddress(IPV4_ZERO)
  }

  lemma ValueDroppedExactly(s: bytes)
    requires DecodeValue(AsWritten, s).Done? && DecodeValue(AsWritten, s).value.Known?
    ensures var h, st := DecodeHeader(AsWritten, s), DecodeValue(AsWritten, s);
            && h.Done? && h.value.length <= |h.rest|
            && (!Dropped(h.value, h.rest) <==> Sound(h.value, h.rest))
            && (Dropped(h.value, h.rest) ==> st.value.value == ZeroValue(h.value.tag))
  {
    hide DecodeHeader, DecodeOid, OidOctets;
    var h := DecodeHeader(AsWritten, s);
    if h.Done? { OidDecodedExactly(h.value.length, h.rest); }
  }

  lemma ValueOverrun(s: bytes)
    requires DecodeValue(AsWritten, s).Done? && DecodeValue(AsWritten, s).value.Known?
    ensures var h, st := DecodeHeader(AsWritten, s), DecodeValue(AsWritten, s);
            var eaten := |h.rest| - |st.rest|;
            && (h.value.tag in {NULL, NO_SUCH_OBJECT, NO_SUCH_INSTANCE, END_OF_MIB_VIEW} ==> eaten == 0)
            && (h.value.tag !in {NULL, NO_SUCH_OBJECT, NO_SUCH_INSTANCE, END_OF_MIB_VIEW} && Sound(h.value, h.rest) ==> eaten == h.value.length)
            && (h.value.tag == IP_ADDRESS && !Sound(h.value, h.rest) ==> eaten == 0)
            && (h.value.tag == BIT_STRING && !Sound(h.value, h.rest) ==> eaten == if h.value.length == 0 then 0 else 1)
  {
    hide DecodeHeader, DecodeOid, OidOctets;
    var h := DecodeHeader(AsWritten, s);
    OidDecodedExactly(h.value.length, h.rest);
    OidTakesItsLength(AsWritten, h.value.length, h.rest);
  }

  lemma VarbindValue(s: bytes)
    requires DecodeVarbind(AsWritten, s).Done?
    ensures DecodeHeader(AsWritten, s).Done? && DecodeOidWithHeader(AsWritten, DecodeHeader(AsWritten, s).rest).Done?
    ensures var st := DecodeValue(AsWritten, DecodeOidWithHeader(AsWritten, DecodeHeader(AsWritten, s).rest).rest);
            st.Done? && st.value == Known(DecodeVarbind(AsWritten, s).value.value) && st.rest == DecodeVarbind(AsWritten, s).rest
  {
    hide DecodeHeader, DecodeOidWithHeader, DecodeValue;
  }

  /** In an accepted varbind the value was really decoded exactly when its block is sound; else the zero value
      of its kind was stored, a nil pointer, the empty identifier or 0.0.0.0. */
  lemma AcceptedValueExactly(s: bytes)
    requires DecodeVarbind(AsWritten, s).Done?
    ensures var b, vb := ValueBlock(s), DecodeVarbind(AsWritten, s).value;
            && b.Done? && b.value.tag != INTEGER
            && (!Dropped(b.value, b.rest) <==> Sound(b.value, b.rest))
            && (Dropped(b.value, b.rest) ==> vb.value == ZeroValue(b.value.tag))
  {
    hide DecodeHeader, DecodeOidWithHeader, DecodeVarbind, Dropped, Sound;
    VarbindValue(s);
    var r := DecodeOidWithHeader(AsWritten, DecodeHeader(AsWritten, s).rest).rest;
    ValueDroppedExactly(r);
    KnownIsNoInteger(r);
  }

  lemma KnownIsNoInteger(s: bytes)
    requires DecodeValue(AsWritten, s).Done? && DecodeValue(AsWritten, s).value.Known?
    ensures DecodeHeader(AsWritten, s).Done? && DecodeHeader(AsWritten, s).value.tag != INTEGER
  {
    hide DecodeHeader, DecodeOid;
  }

  /** Where the value's block ends in an accepted varbind, kind by kind: a decoded value ends with the
      varbind; NULL and the exceptions run past it by all the content they declare, a refused address and a
      bit string without a sound padding count by what was not read. */
  lemma AcceptedValueOverrun(s: bytes)
    requires DecodeVarbind(AsWritten, s).Done?
    ensures var b := ValueBlock(s);
            && b.Done?
            && (b.value.tag in {NULL, NO_SUCH_OBJECT, NO_SUCH_INSTANCE, END_OF_MIB_VIEW} ==> Overrun(s) == b.value.length)
            && (b.value.tag !in {NULL, NO_SUCH_OBJECT, NO_SUCH_INSTANCE, END_OF_MIB_VIEW} && Sound(b.value, b.rest) ==> Overrun(s) == 0)
            && (b.value.tag == IP_ADDRESS && !Sound(b.value, b.rest) ==> Overrun(s) == b.value.length)
            && (b.value.tag == BIT_STRING && !Sound(b.value, b.rest) ==>
                  Overrun(s) == if b.value.length == 0 then 0 else b.value.length - 1)
  {
    hide DecodeHeader, DecodeOidWithHeader, DecodeVarbind, DecodeValue, Sound;
    VarbindValue(s);
    var r := DecodeOidWithHeader(AsWritten, DecodeHeader(AsWritten, s).rest).rest;
    KnownIsNoInteger(r);
    ValueOverrun(r);
  }

  /** A varbind for 1.3.6.1 whose identifier value ends in an arc that never does: accepted, with the empty
      identifier for a value and the position two octets behind. */
  lemma AcceptedWithoutAValue()
    ensures var s: bytes := [0x30, 0x0A, 0x06, 0x03, 0x2B, 0x06, 0x01, 0x06, 0x03, 0x2B, 0x80, 0x80];
            && DecodeVarbind(AsWritten, s) == Done(Varbind([1, 3, 6, 1], ObjectId([])), [])
            && VarbindLag(s) == 2
  {
    hide DecodeHeader, DecodeOid, DecodeVarbind, OidLag, VarbindLag;
    var value: bytes := [0x06, 0x03] + [0x2B, 0x80, 0x80];
    var name: bytes := [0x06, 0x03] + ([0x2B, 0x06, 0x01] + value);
    var s := [0x30, 0x0A] + name;
    TwoOctetHeader(0x06, 0x03, [0x2B, 0x80, 0x80]);
    EndlessArc();
    TwoOctetHeader(0x06, 0x03, [0x2B, 0x06, 0x01] + value);
    ShortName(value);
    TwoOctetHeader(0x30, 0x0A, name);
    assert DecodeValue(AsWritten, value) == Done(Known(ObjectId([])), []);
    assert DecodeOidWithHeader(AsWritten, name) == Done([1, 3, 6, 1], value);
    FromItsParts(s, Header(0x30, 0x0A), name, [1, 3, 6, 1], value, ObjectId([]), []);
    assert s == [0x30, 0x0A, 0x06, 0x03, 0x2B, 0x06, 0x01, 0x06, 0x03, 0x2B, 0x80, 0x80];
  }

  lemma FromItsParts(s: bytes, h: Header, r: bytes, oid: Oid, r': bytes, v: Value, rest: bytes)
    requires DecodeHeader(AsWritten, s) == Done(h, r) && h.tag == SEQUENCE
    requires DecodeOidWithHeader(AsWritten, r) == Done(oid, r')
    requires DecodeValue(AsWritten, r') == Done(Known(v), rest) && |r| - |rest| == h.length
    ensures DecodeVarbind(AsWritten, s) == Done(Varbind(oid, v), rest)
    ensures VarbindLag(s) == BlockLag(r) + BlockLag(r')
  {
    hide DecodeHeader, DecodeOidWithHeader, DecodeValue, BlockLag;
  }

  lemma TwoOctetHeader(tag: byte, n: byte, s: bytes)
    requires n < 127 && n <= |s|
    ensures DecodeHeader(AsWritten, [tag, n] + s) == Done(Header(tag, n), s)
  {
    assert ([tag, n] + s)[1..] == [n] + s && ([n] + s)[1..] == s;
  }

  lemma ShortName(rest: bytes)
    ensures DecodeOid(AsWritten, 3, [0x2B, 0x06, 0x01] + rest) == Done([1, 3, 6, 1], rest)
    ensures OidLag(3, [0x2B, 0x06, 0x01] + rest) == 0
  {
    var oid: Oid := [1, 3, 6, 1];
    SmallArc(6);
    SmallArc(1);
    assert oid[2..] == [6, 1] && oid[2..][1..] == [1] && [6, 1][1..] == [1] && [1][1..] == [];
    assert OidContent(oid) == [0x2B, 0x06, 0x01];
    hide DecodeOid, OidLag, OidContent;
    OidRoundTrip(AsWritten, oid, rest);
    LagOfAnIdentifier(3, [0x2B, 0x06, 0x01] + rest);
  }

  lemma SmallArc(v: byte)
    requires v < 128
    ensures Base128(v) == [v]
  {
    if v > 0 {
      assert Base128Len(v / 128) == 0 && Groups(v, 0) == [] && Pow128(0) == 1;
      assert Groups(v, 1) == [v];
    }
  }

  lemma EndlessArc()
    ensures DecodeOid(AsWritten, 3, [0x2B, 0x80, 0x80]) == Fail([]) && OidLag(3, [0x2B, 0x80, 0x80]) == 2
  {
    var s: bytes := [0x2B, 0x80, 0x80];
    assert s[1..] == [0x80, 0x80] && s[1..][1..] == [0x80] && s[1..][1..][1..] == [];
    assert Base128Loop(4, 1, 0, s[1..][1..]) == Fail([]);
    assert DecodeBase128(AsWritten, s[1..]) == Fail([]);
  }
}
