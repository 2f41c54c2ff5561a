/**
 What the decoder as written accepts from any sender: headers, integers, values by their tags, and whole
 messages, as the octets they are made of. The encoder's own forms are some of them.
 */
module AcceptedForm {
  import opened GoTypes
  import opened Integers
  import opened Headers
  import opened ObjectIdentifiers
  import opened Messages
  import opened RoundTrip
  import opened Cursors
  import opened WireForm

  // ---------------------------------------------------------------------------
  // Headers and integers

  /** The octets `h` are read as a header with this tag and length: one length octet below 127, or one from
      there on that counts the length octets behind it. */
  predicate IsHeader(h: bytes, tag: int, n: int) {
    && |h| >= 2 && h[0] == tag
    && if h[1] < 127 then |h| == 2 && n == h[1] else |h| == 2 + (h[1] as int) && n == ShiftIn(0, h[2..]) && n >= 0
  }

  lemma HeaderIsRead(h: bytes, tag: byte, n: nat, r: bytes)
    requires IsHeader(h, tag, n) && n <= |r|
    ensures DecodeHeader(AsWritten, h + r) == Done(Header(tag, n), r)
  {
    hide ShiftIn;
    var s := h + r;
    assert s[1..][0] == h[1];
    if h[1] < 127 {
      assert s[1..][1..] == r;
    } else {
      assert s[1..][1..1 + h[1]] == h[2..] && s[1..][1 + h[1]..] == r;
    }
  }

  /** The other way round: what is read as a header is one. */
  lemma OnlyHeadersAreRead(s: bytes)
    requires DecodeHeader(AsWritten, s).Done?
    ensures var st := DecodeHeader(AsWritten, s);
            var h := s[..|s| - |st.rest|];
            s == h + st.rest && IsHeader(h, st.value.tag, st.value.length) && st.value.length <= |st.rest|
  {
    hide ShiftIn;
    HeaderMovesForward(AsWritten, s);
    var st := DecodeHeader(AsWritten, s);
    var h := s[..|s| - |st.rest|];
    assert s == h + st.rest;
    if h[1] >= 127 { assert s[1..][1..1 + s[1]] == h[2..]; }
  }

  /** An INTEGER of any length, minimal or not. */
  lemma IntegerIsRead(h: bytes, c: bytes, r: bytes)
    requires IsHeader(h, 0x02, |c|)
    ensures DecodeIntegerWithHeader(AsWritten, h + c + r) == Done(SignedValue(c), r)
  {
    hide DecodeHeader, SignedValue, IsHeader, ShiftIn;
    var s := c + r;
    assert h + c + r == h + s;
    HeaderIsRead(h, 0x02, |c|, s);
    assert s[..|c|] == c && s[|c|..] == r;
  }

  /** Up to eight octets stand for their number in two's complement. */
  lemma IntegerMeaning(h: bytes, c: bytes, r: bytes)
    requires IsHeader(h, 0x02, |c|) && 1 <= |c| <= 8
    ensures var u := FromBytes(0, c);
            u >= 0 && DecodeIntegerWithHeader(AsWritten, h + c + r) == Done(if u < HalfSpan(|c|) then u else u - Pow256(|c|), r)
  {
    hide DecodeIntegerWithHeader, SignedValue, IsHeader, FromBytes;
    IntegerIsRead(h, c, r);
    ShiftsSignExtend(c);
  }

  lemma OnlyIntegersAreRead(s: bytes) returns (h: bytes, c: bytes)
    requires DecodeIntegerWithHeader(AsWritten, s).Done?
    ensures var st := DecodeIntegerWithHeader(AsWritten, s);
            IsHeader(h, 0x02, |c|) && s == h + c + st.rest && st.value == SignedValue(c)
  {
    hide DecodeHeader, SignedValue, IsHeader;
    OnlyHeadersAreRead(s);
    var hd := DecodeHeader(AsWritten, s);
    h, c := s[..|s| - |hd.rest|], hd.rest[..hd.value.length];
    assert h + hd.rest == h + c + DecodeIntegerWithHeader(AsWritten, s).rest;
  }

  /** 1 in four octets, and -1. */
  lemma LongFormsOfOne(r: bytes)
    ensures DecodeIntegerWithHeader(AsWritten, [0x02, 0x04, 0x00, 0x00, 0x00, 0x01] + r) == Done(1, r)
    ensures DecodeIntegerWithHeader(AsWritten, [0x02, 0x04, 0xFF, 0xFF, 0xFF, 0xFF] + r) == Done(-1, r)
  {
    var one: bytes, minus: bytes := [0x00, 0x00, 0x00, 0x01], [0xFF, 0xFF, 0xFF, 0xFF];
    IntegerMeaning([0x02, 0x04], one, r);
    IntegerMeaning([0x02, 0x04], minus, r);
    Pow256Values();
    assert [0x02, 0x04] + one + r == [0x02, 0x04, 0x00, 0x00, 0x00, 0x01] + r;
    assert [0x02, 0x04] + minus + r == [0x02, 0x04, 0xFF, 0xFF, 0xFF, 0xFF] + r;
    FourOctets(0, 0, 0, 1);
    FourOctets(0xFF, 0xFF, 0xFF, 0xFF);
    hide SignedValue, FromBytes, DecodeIntegerWithHeader;
    assert HalfSpan(4) == 0x8000_0000;
  }

  lemma FourOctets(a: byte, b: byte, c: byte, d: byte)
    ensures FromBytes(0, [a, b, c, d]) == (((a as int) * 256 + b) * 256 + c) * 256 + d
  {
    var s := [a, b, c, d];
    assert s[1..] == [b, c, d] && [b, c, d][1..] == [c, d] && [c, d][1..] == [d] && [d][1..] == [];
    var x := (a as int) * 256 + b;
    var y := x * 256 + c;
    assert FromBytes(y, [d]) == y * 256 + d;
    assert FromBytes(x, [c, d]) == FromBytes(y, [d]);
    assert FromBytes(a, [b, c, d]) == FromBytes(x, [c, d]);
  }

  // ---------------------------------------------------------------------------
  // Values by their tags

  /** What decodeValue makes of the content `s[..n]` of a block, tag by tag, and what it leaves. */
  lemma ValueByTag(tag: byte, n: nat, s: bytes)
    requires n <= |s|
    ensures var st := DecodeContent(AsWritten, Header(tag, n), s);
            && (tag == 0x02 ==> st == Done(Int64(SignedValue(s[..n])), s[n..]))
            && (tag == 0x03 && n == 0 ==> st == Done(Known(NilBits), s))
            && (tag == 0x03 && n > 0 && s[0] > 7 ==> st == Done(Known(NilBits), s[1..]))
            && (tag == 0x03 && n > 0 && s[0] <= 7 ==> st == Done(Known(Bits(BitString(s[1..n], 8 * (n - 1) - s[0]))), s[n..]))
            && (tag == 0x04 ==> st == Done(Known(Octets(s[..n])), s[n..]))
            && (tag == 0x05 ==> st == Done(Known(Null), s))
            && (tag == 0x06 && OidOctets(n, s) ==> st.Done? && st.value.Known? && st.value.value.ObjectId? && st.rest == s[n..])
            && (tag == 0x40 && n == 4 ==> st == Done(Known(IpAddress([0, 0, 0, 0, 0, 0, 0, 0, 0, 0, 0xFF, 0xFF] + s[..4])), s[4..]))
            && (tag == 0x40 && n != 4 ==> st == Done(Known(IpAddress([0, 0, 0, 0, 0, 0, 0, 0, 0, 0, 0xFF, 0xFF, 0, 0, 0, 0])), s))
            && (tag == 0x80 ==> st == Done(Known(NoSuchObject), s))
            && (tag == 0x81 ==> st == Done(Known(NoSuchInstance), s))
            && (tag == 0x82 ==> st == Done(Known(EndOfMibView), s))
            && (tag in {0x41, 0x42, 0x43, 0x44, 0x46, 0x47} ==> st == Done(Unsupported, s))
            && (tag !in {0x02, 0x03, 0x04, 0x05, 0x06, 0x40, 0x41, 0x42, 0x43, 0x44, 0x46, 0x47, 0x80, 0x81, 0x82} ==> st == Fail(s))
  {
    hide SignedValue, DecodeOid, OidOctets;
    OidDecodedExactly(n, s);
    OidTakesItsLength(AsWritten, n, s);
    assert IPV4_ZERO == [0, 0, 0, 0, 0, 0, 0, 0, 0, 0, 0xFF, 0xFF, 0, 0, 0, 0];
  }

  /** 10.0.0.1, and an address of no octets, which is taken for 0.0.0.0. */
  lemma AddressesAreRead(r: bytes)
    ensures DecodeValue(AsWritten, [0x40, 0x04, 10, 0, 0, 1] + r)
            == Done(Known(IpAddress([0, 0, 0, 0, 0, 0, 0, 0, 0, 0, 0xFF, 0xFF, 10, 0, 0, 1])), r)
    ensures DecodeValue(AsWritten, [0x40, 0x00] + r)
            == Done(Known(IpAddress([0, 0, 0, 0, 0, 0, 0, 0, 0, 0, 0xFF, 0xFF, 0, 0, 0, 0])), r)
  {
    hide DecodeHeader, DecodeContent;
    var ip: bytes := [10, 0, 0, 1];
    assert [0x40, 0x04, 10, 0, 0, 1] + r == [0x40, 0x04] + (ip + r);
    HeaderIsRead([0x40, 0x04], 0x40, 4, ip + r);
    HeaderIsRead([0x40, 0x00], 0x40, 0, r);
    assert (ip + r)[..4] == ip && (ip + r)[4..] == r;
    assert [0, 0, 0, 0, 0, 0, 0, 0, 0, 0, 0xFF, 0xFF] + ip == [0, 0, 0, 0, 0, 0, 0, 0, 0, 0, 0xFF, 0xFF, 10, 0, 0, 1];
    ValueByTag(0x40, 4, ip + r);
    ValueByTag(0x40, 0, r);
  }

  // ---------------------------------------------------------------------------
  // Identifiers

  /** One to four octets of which all but the last carry the continuation bit. */
  predicate IsArc(c: bytes) {
    1 <= |c| <= 4 && c[|c| - 1] < 128 && forall i | 0 <= i < |c| - 1 :: c[i] >= 128
  }

  /** The number that groups of seven bits stand for, the first the highest. */
  function FromGroups(c: bytes): nat {
    if c == [] then 0 else FromGroups(c[..|c| - 1]) * 128 + c[|c| - 1] % 128
  }

  lemma OneMoreGroup(front: bytes, b: byte)
    ensures FromGroups(front + [b]) == FromGroups(front) * 128 + b % 128
  {
    assert (front + [b])[..|front|] == front;
  }

  lemma LoopStep(read: nat, val: nat, s: bytes)
    requires read < 4 && s != []
    ensures Base128Loop(4, read, val, s)
            == if s[0] < 128 then Done(val * 128 + s[0] % 128, s[1..]) else Base128Loop(4, read + 1, val * 128 + s[0] % 128, s[1..])
  {
  }

  lemma {:induction false} GroupsAreRead(read: nat, front: bytes, c: bytes, r: bytes)
    requires 1 <= |c| && read + |c| <= 4
    requires c[|c| - 1] < 128 && forall i | 0 <= i < |c| - 1 :: c[i] >= 128
    ensures Base128Loop(4, read, FromGroups(front), c + r) == Done(FromGroups(front + c), r)
    decreases |c|
  {
    hide Base128Loop, FromGroups;
    LoopStep(read, FromGroups(front), c + r);
    OneMoreGroup(front, c[0]);
    if |c| == 1 {
      assert c == [c[0]] && (c + r)[1..] == r;
    } else {
      var more := c[1..];
      assert (c + r)[1..] == more + r && front + [c[0]] + more == front + c;
      GroupsAreRead(read + 1, front + [c[0]], more, r);
    }
  }

  lemma {:induction false} FourGroupsFit(c: bytes)
    requires |c| <= 4
    ensures FromGroups(c) < 0x1000_0000
    ensures |c| == 0 ==> FromGroups(c) == 0
    ensures |c| == 1 ==> FromGroups(c) < 128
    ensures |c| == 2 ==> FromGroups(c) < 16384
    ensures |c| == 3 ==> FromGroups(c) < 0x20_0000
  {
    if c != [] { FourGroupsFit(c[..|c| - 1]); }
  }

  function Flat(arcs: seq<bytes>): bytes {
    if arcs == [] then [] else arcs[0] + Flat(arcs[1..])
  }

  function ArcValues(arcs: seq<bytes>): (a: Oid)
    requires forall i | 0 <= i < |arcs| :: IsArc(arcs[i])
  {
    if arcs == [] then []
    else
      assert IsArc(arcs[0]);
      FourGroupsFit(arcs[0]);
      [FromGroups(arcs[0])] + ArcValues(arcs[1..])
  }

  lemma ArcIsRead(c: bytes, r: bytes)
    requires IsArc(c)
    ensures DecodeBase128(AsWritten, c + r) == Done(FromGroups(c), r)
  {
    GroupsAreRead(0, [], c, r);
    assert [] + c == c;
  }

  lemma OneArc(n: nat, used: nat, acc: Oid, c: bytes, tail: bytes)
    requires IsArc(c) && used + |c| <= n && |acc| <= used + 1
    ensures FromGroups(c) < 0x1000_0000
    ensures OidArcs(AsWritten, n, used, acc, c + tail)
            == if used + |c| == n then Done(acc + [FromGroups(c)], tail)
               else OidArcs(AsWritten, n, used + |c|, acc + [FromGroups(c)], tail)
  {
    hide DecodeBase128, FromGroups;
    ArcIsRead(c, tail);
    FourGroupsFit(c);
  }

  lemma FlatNotEmpty(arcs: seq<bytes>)
    requires arcs != [] && IsArc(arcs[0])
    ensures |Flat(arcs)| >= 1 && Flat(arcs) == arcs[0] + Flat(arcs[1..])
  {
  }

  lemma {:induction false} ArcsAreRead(n: nat, used: nat, acc: Oid, arcs: seq<bytes>, r: bytes)
    requires arcs != [] && forall i | 0 <= i < |arcs| :: IsArc(arcs[i])
    requires used + |Flat(arcs)| == n && |acc| <= used + 1
    ensures OidArcs(AsWritten, n, used, acc, Flat(arcs) + r) == Done(acc + ArcValues(arcs), r)
    decreases |arcs|
  {
    hide OidArcs, FromGroups, Flat, IsArc;
    var more := arcs[1..];
    var tail := Flat(more) + r;
    FlatNotEmpty(arcs);
    assert Flat(arcs) + r == arcs[0] + tail;
    OneArc(n, used, acc, arcs[0], tail);
    if more == [] {
      NoArcs();
      assert tail == r && ArcValues(arcs) == [FromGroups(arcs[0])];
    } else {
      FlatNotEmpty(more);
      ArcIsNotEmpty(arcs[0]);
      ArcsAreRead(n, used + |arcs[0]|, acc + [FromGroups(arcs[0])], more, r);
      assert acc + ArcValues(arcs) == acc + [FromGroups(arcs[0])] + ArcValues(more);
    }
  }

  lemma NoArcs()
    ensures Flat([]) == []
  {
  }

  lemma ArcIsNotEmpty(c: bytes)
    requires IsArc(c)
    ensures |c| >= 1
  {
  }

  /** An identifier from any sender: the first octet divided by 40 and its remainder, then the arcs as the
      groups say, padded in front with empty groups or not. */
  lemma IdentifierIsRead(first: byte, arcs: seq<bytes>, r: bytes)
    requires arcs != [] && forall i | 0 <= i < |arcs| :: IsArc(arcs[i])
    ensures DecodeOid(AsWritten, 1 + |Flat(arcs)|, [first] + Flat(arcs) + r) == Done([first / 40, first % 40] + ArcValues(arcs), r)
  {
    hide OidArcs, Flat, IsArc, ArcValues;
    var s := [first] + Flat(arcs) + r;
    assert s[1..] == Flat(arcs) + r && s[0] == first;
    FlatNotEmpty(arcs);
    ArcsAreRead(1 + |Flat(arcs)|, 1, [first / 40, first % 40], arcs, r);
  }

  // ---------------------------------------------------------------------------
  // Varbinds and messages

  /** The octets `name` and `value` are read as an identifier and a value, with `r` left. */
  predicate ReadAs(name: bytes, value: bytes, r: bytes, vb: Varbind) {
    && DecodeOidWithHeader(AsWritten, name + (value + r)) == Done(vb.oid, value + r)
    && DecodeValue(AsWritten, value + r) == Done(Known(vb.value), r)
  }

  /** A varbind is accepted whenever it is a SEQUENCE whose declared length is taken up by an identifier and a
      value of a supported kind other than INTEGER, */
  lemma VarbindIsRead(h: bytes, name: bytes, value: bytes, r: bytes, vb: Varbind)
    requires IsHeader(h, 0x30, |name| + |value|) && ReadAs(name, value, r, vb)
    ensures DecodeVarbind(AsWritten, h + (name + (value + r))) == Done(vb, r)
  {
    hide DecodeHeader, DecodeOidWithHeader, DecodeValue, IsHeader;
    HeaderIsRead(h, 0x30, |name| + |value|, name + (value + r));
  }

  /** and only then. */
  lemma OnlyVarbindsAreRead(s: bytes, vb: Varbind, r: bytes)
    requires DecodeVarbind(AsWritten, s) == Done(vb, r)
    ensures exists h, name, value :: s == h + (name + (value + r)) && IsHeader(h, 0x30, |name| + |value|) && ReadAs(name, value, r, vb)
  {
    hide DecodeHeader, DecodeOidWithHeader, DecodeValue, IsHeader;
    OnlyHeadersAreRead(s);
    var hd := DecodeHeader(AsWritten, s);
    var h := s[..|s| - |hd.rest|];
    NameMovesForward(AsWritten, hd.rest);
    var oid := DecodeOidWithHeader(AsWritten, hd.rest);
    ValueMovesForward(AsWritten, oid.rest);
    var name, value := hd.rest[..|hd.rest| - |oid.rest|], oid.rest[..|oid.rest| - |r|];
    assert oid.rest == value + r && hd.rest == name + (value + r);
    assert s == h + (name + (value + r)) && IsHeader(h, 0x30, |name| + |value|) && ReadAs(name, value, r, vb);
  }

  /** The octets of a message: header and content of its SEQUENCE, version, community, PDU, request id, error
      value and error index, and the header and content of its list. */
  datatype Frame = Frame(h: bytes, hv: bytes, v: bytes, hc: bytes, community: bytes, hp: bytes, pduType: byte,
                         hi: bytes, id: bytes, he: bytes, err: bytes, hx: bytes, idx: bytes, hl: bytes, list: bytes)

  function PduOctets(f: Frame): bytes {
    f.hi + f.id + (f.he + f.err + (f.hx + f.idx + (f.hl + f.list)))
  }

  function AllOctets(f: Frame): bytes {
    f.h + (f.hv + f.v + (f.hc + f.community + (f.hp + PduOctets(f))))
  }

  /** The headers say what they are headers of, and the three nested blocks reach to the end. */
  predicate Framed(f: Frame) {
    && IsHeader(f.h, 0x30, |AllOctets(f)| - |f.h|)
    && IsHeader(f.hv, 0x02, |f.v|) && IsHeader(f.hc, 0x04, |f.community|)
    && IsHeader(f.hp, f.pduType, |PduOctets(f)|)
    && IsHeader(f.hi, 0x02, |f.id|) && IsHeader(f.he, 0x02, |f.err|) && IsHeader(f.hx, 0x02, |f.idx|)
    && IsHeader(f.hl, 0x30, |f.list|)
  }

  /** The fields fit `m`: request id a uint32, error value at most 18, error index an int32, and the head one of
      those of requests and responses. */
  predicate FieldsOf(f: Frame, m: Message) {
    && SignedValue(f.v) == m.version && f.community == m.community && f.pduType == m.pduType
    && SignedValue(f.id) == m.requestId && SignedValue(f.err) == m.errorVal && SignedValue(f.idx) == m.errorIdx
    && Decodable(m.version, m.pduType, m.errorVal)
  }

  lemma PduIsRead(f: Frame, m: Message)
    requires Framed(f) && FieldsOf(f, m)
    ensures DecodeRequestResponse(AsWritten, m.version, m.community, m.pduType, PduOctets(f))
            == WithVarbinds(m, DecodeVarbindList(AsWritten, [], f.list))
  {
    hide DecodeHeader, DecodeIntegerWithHeader, DecodeVarbindList, SignedValue, IsHeader;
    var s3 := f.hl + f.list;
    var s2 := f.hx + f.idx + s3;
    var s1 := f.he + f.err + s2;
    IntegerIsRead(f.hi, f.id, s1);
    IntegerIsRead(f.he, f.err, s2);
    IntegerIsRead(f.hx, f.idx, s3);
    HeaderIsRead(f.hl, 0x30, |f.list|, f.list);
  }

  lemma CommunityIsRead(f: Frame, m: Message)
    requires Framed(f) && FieldsOf(f, m)
    ensures DecodeCommunityMessage(AsWritten, m.version, f.hc + f.community + (f.hp + PduOctets(f)))
            == WithVarbinds(m, DecodeVarbindList(AsWritten, [], f.list))
  {
    hide DecodeHeader, DecodeRequestResponse, DecodeVarbindList, SignedValue, IsHeader, PduOctets, WithVarbinds;
    var tail := f.hp + PduOctets(f);
    assert f.hc + f.community + tail == f.hc + (f.community + tail);
    HeaderIsRead(f.hc, 0x04, |f.community|, f.community + tail);
    assert (f.community + tail)[..|f.community|] == f.community && (f.community + tail)[|f.community|..] == tail;
    HeaderIsRead(f.hp, f.pduType, |PduOctets(f)|, PduOctets(f));
    PduIsRead(f, m);
  }

  /** Main result: whoever encoded it and however, a framed message with such fields is read as them and the
      varbinds of its list, */
  lemma MessageIsRead(f: Frame, m: Message)
    requires Framed(f) && FieldsOf(f, m)
    ensures DecodeMsg(AsWritten, AllOctets(f)) == WithVarbinds(m, DecodeVarbindList(AsWritten, [], f.list))
  {
    hide DecodeHeader, DecodeIntegerWithHeader, DecodeCommunityMessage, DecodeVarbindList, SignedValue, IsHeader, PduOctets, WithVarbinds;
    var tail := f.hc + f.community + (f.hp + PduOctets(f));
    HeaderIsRead(f.h, 0x30, |f.hv + f.v + tail|, f.hv + f.v + tail);
    IntegerIsRead(f.hv, f.v, tail);
    CommunityIsRead(f, m);
  }

  /** All versions and types of PDU: whatever stands in the PDU, its fields are looked at for these types only,
      a trap of version 1 is returned with nothing of it read, and all others are refused. */
  lemma TypesOfPdu(f: Frame, version: int64, body: bytes)
    requires version == SignedValue(f.v)
    requires IsHeader(f.h, 0x30, |f.hv + f.v + (f.hc + f.community + (f.hp + body))|)
    requires IsHeader(f.hv, 0x02, |f.v|) && IsHeader(f.hc, 0x04, |f.community|) && IsHeader(f.hp, f.pduType, |body|)
    ensures DecodeMsg(AsWritten, f.h + (f.hv + f.v + (f.hc + f.community + (f.hp + body))))
            == if Decodable(version, f.pduType, 0) then DecodeRequestResponse(AsWritten, version, f.community, f.pduType, body)
               else if version == 0 && f.pduType == 0xA4 then Done(Trap(version, f.community), body)
               else if version == 0 || version == 1 then Fail(body)
               else Fail(f.hc + f.community + (f.hp + body))
  {
    hide DecodeHeader, DecodeIntegerWithHeader, DecodeRequestResponse, SignedValue, IsHeader;
    var pdu := f.hp + body;
    var tail := f.hc + f.community + pdu;
    HeaderIsRead(f.h, 0x30, |f.hv + f.v + tail|, f.hv + f.v + tail);
    IntegerIsRead(f.hv, f.v, tail);
    assert tail == f.hc + (f.community + pdu);
    HeaderIsRead(f.hc, 0x04, |f.community|, f.community + pdu);
    assert (f.community + pdu)[..|f.community|] == f.community && (f.community + pdu)[|f.community|..] == pdu;
    HeaderIsRead(f.hp, f.pduType, |body|, body);
  }

  // The converse takes the octets apart again.

  predicate PduFramed(f: Frame) {
    && IsHeader(f.hi, 0x02, |f.id|) && IsHeader(f.he, 0x02, |f.err|) && IsHeader(f.hx, 0x02, |f.idx|)
    && IsHeader(f.hl, 0x30, |f.list|)
  }

  predicate PduFields(f: Frame, m: Message) {
    SignedValue(f.id) == m.requestId && SignedValue(f.err) == m.errorVal && SignedValue(f.idx) == m.errorIdx
  }

  lemma OnlyListsAreRead(s: bytes, vbs: seq<Varbind>, r: bytes) returns (h: bytes, list: bytes)
    requires DecodeVarbinds(AsWritten, s) == Done(vbs, r)
    ensures s == h + list && IsHeader(h, 0x30, |list|) && DecodeVarbindList(AsWritten, [], list) == Done(vbs, r)
  {
    hide DecodeHeader, DecodeVarbindList, IsHeader;
    OnlyHeadersAreRead(s);
    list := DecodeHeader(AsWritten, s).rest;
    h := s[..|s| - |list|];
  }

  lemma OnlyPdusAreRead(s: bytes, m: Message, r: bytes) returns (f: Frame)
    requires DecodeRequestResponse(AsWritten, m.version, m.community, m.pduType, s) == Done(Pdu(m), r)
    ensures PduFramed(f) && PduFields(f, m) && PduOctets(f) == s
    ensures DecodeVarbindList(AsWritten, [], f.list) == Done(m.varbinds, r)
  {
    hide DecodeIntegerWithHeader, DecodeVarbinds, DecodeVarbindList, SignedValue, IsHeader;
    var hi, id := OnlyIntegersAreRead(s);
    var s1 := DecodeIntegerWithHeader(AsWritten, s).rest;
    var he, err := OnlyIntegersAreRead(s1);
    var s2 := DecodeIntegerWithHeader(AsWritten, s1).rest;
    var hx, idx := OnlyIntegersAreRead(s2);
    var s3 := DecodeIntegerWithHeader(AsWritten, s2).rest;
    var hl, list := OnlyListsAreRead(s3, m.varbinds, r);
    f := Frame([], [], [], [], [], [], 0, hi, id, he, err, hx, idx, hl, list);
  }

  lemma OnlyCommunitiesAreRead(version: int64, s: bytes, m: Message, r: bytes) returns (f: Frame)
    requires DecodeCommunityMessage(AsWritten, version, s) == Done(Pdu(m), r)
    ensures version == m.version && f.community == m.community && f.pduType == m.pduType
    ensures PduFramed(f) && PduFields(f, m)
    ensures IsHeader(f.hc, 0x04, |f.community|) && IsHeader(f.hp, f.pduType, |PduOctets(f)|)
    ensures s == f.hc + f.community + (f.hp + PduOctets(f))
    ensures DecodeVarbindList(AsWritten, [], f.list) == Done(m.varbinds, r)
  {
    hide DecodeHeader, DecodeRequestResponse, DecodeVarbindList, SignedValue, IsHeader;
    OnlyHeadersAreRead(s);
    var hd := DecodeHeader(AsWritten, s);
    var hc, community := s[..|s| - |hd.rest|], hd.rest[..hd.value.length];
    var s1 := hd.rest[hd.value.length..];
    OnlyHeadersAreRead(s1);
    var pd := DecodeHeader(AsWritten, s1);
    var hp := s1[..|s1| - |pd.rest|];
    KeepsItsArguments(version, community, pd.value.tag, pd.rest);
    f := OnlyPdusAreRead(pd.rest, m, r);
    f := f.(hc := hc, community := community, hp := hp, pduType := pd.value.tag);
    assert hd.rest == community + s1;
    assert hc + (community + s1) == hc + community + s1;
  }

  lemma KeepsItsArguments(version: int64, community: bytes, pduType: byte, s: bytes)
    ensures var st := DecodeRequestResponse(AsWritten, version, community, pduType, s);
            st.Done? ==> st.value.Pdu? && st.value.msg.version == version
                         && st.value.msg.community == community && st.value.msg.pduType == pduType
  {
    hide DecodeUint32, DecodeInt32, DecodeVarbinds;
  }

  /** and nothing but framed messages is read as a request or a response. */
  lemma OnlyFramedMessagesAreRead(s: bytes, m: Message, r: bytes) returns (f: Frame)
    requires DecodeMsg(AsWritten, s) == Done(Pdu(m), r)
    ensures Framed(f) && FieldsOf(f, m) && AllOctets(f) == s
    ensures DecodeVarbindList(AsWritten, [], f.list) == Done(m.varbinds, r)
  {
    OnlyRequestsAndResponses(s);
    hide DecodeHeader, DecodeIntegerWithHeader, DecodeCommunityMessage, DecodeVarbindList, SignedValue, IsHeader, Decodable;
    OnlyHeadersAreRead(s);
    var hd := DecodeHeader(AsWritten, s);
    var h := s[..|s| - |hd.rest|];
    var hv, v := OnlyIntegersAreRead(hd.rest);
    var s1 := DecodeIntegerWithHeader(AsWritten, hd.rest).rest;
    f := OnlyCommunitiesAreRead(DecodeIntegerWithHeader(AsWritten, hd.rest).value, s1, m, r);
    f := f.(h := h, hv := hv, v := v);
  }
}
