/**
 Where the decoder as written falls short of its encoder, exactly: which messages come back, what
 the decoder can return at all, and that it never spends less on a message than the encoder.
 */
module Exactness {
  import opened GoTypes
  import opened Integers
  import opened Headers
  import opened ObjectIdentifiers
  import opened Messages
  import opened Cursors
  import opened RoundTrip

  // ---------------------------------------------------------------------------
  // What blocks cost

  /** A header for at most `n` octets is never longer than one the decoder has accepted for `n`. */
  lemma HeaderFits(tag: byte, c: nat, n: nat, spent: nat)
    requires c <= n <= MAX_INT64
    requires spent >= 129 || (spent == 2 && n < 127)
    ensures |HeaderOctets(tag, c)| <= spent
  {
    hide BigEndian, LengthLen;
    GoLengthsNeedAtMostEightOctets(c);
  }

  /** Slack of one octet: an INTEGER block without content reads as zero. */
  lemma IntegerCost(s: bytes)
    ensures var st := DecodeIntegerWithHeader(AsWritten, s);
            st.Done? ==> |EncodeInteger(st.value)| <= |s| - |st.rest| + 1
  {
    hide DecodeHeader, SignedValue, IntLen;
    HeaderCost(s);
    var h := DecodeHeader(AsWritten, s);
    if h.Done? && h.value.tag == INTEGER && h.value.length <= |h.rest| {
      var content := h.rest[..h.value.length];
      var v: int64 := SignedValue(content);
      Int64UsesAtMostEightOctets(v);
      if content == [] {
        NoOctetsReadAsZero(content);
        assert IntLen(v) <= 1 by { IntLenIsLeast(v, 1); assert Fits(v, 1); }
      } else {
        SignedValueNeedsItsLength(content);
      }
      assert |IntBytes(v)| <= |content| + 1;
    }
  }

  lemma OctetStringCost(s: bytes)
    ensures var st := DecodeOctetStringWithHeader(AsWritten, s);
            st.Done? ==> |Block(OCTET_STRING, st.value)| <= |s| - |st.rest|
  {
    hide DecodeHeader, LengthOctets;
    HeaderCost(s);
    var st, h := DecodeOctetStringWithHeader(AsWritten, s), DecodeHeader(AsWritten, s);
    if st.Done? {
      HeaderFits(OCTET_STRING, |st.value|, h.value.length, |s| - |h.rest|);
    }
  }

  lemma OidBlockCost(s: bytes)
    ensures var st := DecodeOidWithHeader(AsWritten, s);
            st.Done? ==> OidReadable(AsWritten, st.value)
                         && |Block(OBJECT_IDENTIFIER, OidContent(st.value))| <= |s| - |st.rest|
  {
    hide DecodeHeader, LengthOctets, DecodeOid, OidReadable, OidContent;
    HeaderCost(s);
    var st, h := DecodeOidWithHeader(AsWritten, s), DecodeHeader(AsWritten, s);
    if st.Done? {
      OidCost(h.value.length, h.rest);
      HeaderFits(OBJECT_IDENTIFIER, |OidContent(st.value)|, h.value.length, |s| - |h.rest|);
    }
  }

  // ---------------------------------------------------------------------------
  // What the decoder can return

  /** The values that decodeVarbind can store, dropped errors included. */
  predicate ValueReturned(v: Value) {
    match v
    case Integer(_) => false
    case Bits(b) => WellFormedBits(b)
    case ObjectId(id) => id == [] || OidReadable(AsWritten, id)
    case IpAddress(ip) => |ip| == 16
    case _ => true
  }

  lemma ValueImage(s: bytes)
    ensures var st := DecodeValue(AsWritten, s);
            st.Done? && st.value.Known? ==> ValueReturned(st.value.value)
  {
    hide DecodeHeader, DecodeOid, OidReadable, SignedValue;
    var h := DecodeHeader(AsWritten, s);
    if h.Done? && h.value.tag == OBJECT_IDENTIFIER { OidCost(h.value.length, h.rest); }
  }

  lemma VarbindImage(s: bytes)
    ensures var st := DecodeVarbind(AsWritten, s);
            st.Done? ==> OidReadable(AsWritten, st.value.oid) && ValueReturned(st.value.value)
  {
    hide DecodeHeader, LengthOctets, DecodeOidWithHeader, DecodeValue, OidReadable, OidContent, ValueReturned;
    var h := DecodeHeader(AsWritten, s);
    if h.Done? {
      OidBlockCost(h.rest);
      var name := DecodeOidWithHeader(AsWritten, h.rest);
      if name.Done? { ValueImage(name.rest); }
    }
  }

  ghost predicate AllReturned(vbs: seq<Varbind>) {
    forall i | 0 <= i < |vbs| :: OidReadable(AsWritten, vbs[i].oid) && ValueReturned(vbs[i].value)
  }

  lemma {:induction false} VarbindListImage(acc: seq<Varbind>, s: bytes)
    ensures var st := DecodeVarbindList(AsWritten, acc, s);
            st.Done? ==>
              && st.rest == [] && |st.value| > |acc| && st.value[..|acc|] == acc
              && AllReturned(st.value[|acc|..])
    decreases |s|
  {
    hide DecodeVarbind, OidReadable, ValueReturned;
    VarbindImage(s);
    var one := DecodeVarbind(AsWritten, s);
    var st := DecodeVarbindList(AsWritten, acc, s);
    if st.Done? {
      var acc' := acc + [one.value];
      if one.rest == [] {
        assert st.value[|acc|..] == [one.value];
      } else {
        VarbindListImage(acc', one.rest);
        assert st.value[..|acc|] == st.value[..|acc'|][..|acc|] == acc;
        assert st.value[|acc|] == st.value[..|acc'|][|acc|] == one.value;
        assert st.value[|acc|..] == [one.value] + st.value[|acc'|..];
      }
    }
  }

  lemma VarbindsImage(s: bytes)
    ensures var st := DecodeVarbinds(AsWritten, s);
            st.Done? ==> st.rest == [] && st.value != [] && AllReturned(st.value)
  {
    hide DecodeHeader, DecodeVarbindList, AllReturned;
    var h, st := DecodeHeader(AsWritten, s), DecodeVarbinds(AsWritten, s);
    if st.Done? {
      VarbindListImage([], h.rest);
      assert st.value[0..] == st.value;
    }
  }

  ghost predicate FieldsReturned(m: Message) {
    HeadReadable(m) && m.varbinds != [] && AllReturned(m.varbinds)
  }

  lemma PduImage(version: int64, community: bytes, pduType: byte, s: bytes)
    requires (version == VERSION_1 || version == VERSION_2C) && PduSupported(version, pduType)
    ensures var st := DecodeRequestResponse(AsWritten, version, community, pduType, s);
            st.Done? ==> st.rest == [] && st.value.Pdu? && FieldsReturned(st.value.msg)
  {
    hide DecodeUint32, DecodeInt32, DecodeVarbinds, AllReturned;
    var i1 := DecodeUint32(AsWritten, s);
    if i1.Done? {
      var i2 := DecodeInt32(AsWritten, i1.rest);
      if i2.Done? {
        var i3 := DecodeInt32(AsWritten, i2.rest);
        if i3.Done? { VarbindsImage(i3.rest); }
      }
    }
  }

  /** Every message decodeMsg can return, from any bytes at all: no INTEGER values, identifiers of
      three arcs or more in range, bit strings with their padding, addresses of sixteen bytes. A trap is
      of version 1. */
  lemma DecoderImage(s: bytes)
    ensures var st := DecodeMsg(AsWritten, s);
            && (st.Done? && st.value.Pdu? ==> st.rest == [] && FieldsReturned(st.value.msg))
            && (st.Done? && st.value.Trap? ==> st.value.version == VERSION_1)
  {
    hide DecodeHeader, DecodeIntegerWithHeader, DecodeOctetStringWithHeader, DecodeRequestResponse, FieldsReturned;
    var h := DecodeHeader(AsWritten, s);
    if h.Done? {
      var v := DecodeIntegerWithHeader(AsWritten, h.rest);
      if v.Done? && (v.value == VERSION_1 || v.value == VERSION_2C) {
        var c := DecodeOctetStringWithHeader(AsWritten, v.rest);
        if c.Done? {
          var p := DecodeHeader(AsWritten, c.rest);
          if p.Done? && PduSupported(v.value, p.value.tag) {
            PduImage(v.value, c.value, p.value.tag, p.rest);
          }
        }
      }
    }
  }

  // ---------------------------------------------------------------------------
  // No message is read from fewer octets than are written for it

  /** Four-byte addresses other than 0.0.0.0, which the decoder also makes of addresses it could not
      decode. */
  predicate Plain(v: Value) {
    v.IpAddress? ==> |v.ip| == 4 && v.ip != [0, 0, 0, 0]
  }

  lemma ValueCost(s: bytes, v: Value)
    requires DecodeValue(AsWritten, s).Done? && DecodeValue(AsWritten, s).value == Known(ValueAsDecoded(v))
    requires Plain(v) && EncodeValue(v).Ok?
    ensures |EncodeValue(v).value| <= |s| - |DecodeValue(AsWritten, s).rest|
  {
    hide DecodeHeader, LengthOctets, DecodeOid, OidContent, SignedValue, PaddingBits;
    HeaderCost(s);
    var h := DecodeHeader(AsWritten, s);
    var tag, n, spent := h.value.tag, h.value.length, |s| - |h.rest|;
    HeaderFits(tag, 0, n, spent);
    HeaderFits(tag, n, n, spent);
    if tag == OBJECT_IDENTIFIER {
      OidCost(n, h.rest);
      var st := DecodeOid(AsWritten, n, h.rest);
      if st.Done? { HeaderFits(tag, |OidContent(st.value)|, n, spent); }
    } else if tag == IP_ADDRESS {
      NotZeroAddress(v.ip);
    }
  }

  lemma NotZeroAddress(ip: bytes)
    requires |ip| == 4 && ip != [0, 0, 0, 0]
    ensures V4_IN_V6_PREFIX + ip != IPV4_ZERO
  {
    assert (V4_IN_V6_PREFIX + ip)[12..] == ip;
    assert IPV4_ZERO[12..] == [0, 0, 0, 0];
  }

  lemma VarbindCost(s: bytes, vb: Varbind)
    requires DecodeVarbind(AsWritten, s).Done?
    requires DecodeVarbind(AsWritten, s).value == vb.(value := ValueAsDecoded(vb.value))
    requires Plain(vb.value) && EncodeVarbind(vb).Ok?
    ensures |EncodeVarbind(vb).value| <= |s| - |DecodeVarbind(AsWritten, s).rest|
  {
    hide DecodeHeader, LengthOctets, DecodeOidWithHeader, DecodeValue, OidReadable, OidContent, EncodeValue, ValueAsDecoded;
    HeaderCost(s);
    var h := DecodeHeader(AsWritten, s);
    OidBlockCost(h.rest);
    ValueCost(DecodeOidWithHeader(AsWritten, h.rest).rest, vb.value);
    HeaderFits(SEQUENCE, |EncodeOid(vb.oid).value + EncodeValue(vb.value).value|, h.value.length, |s| - |h.rest|);
  }

  // What a saving would have to look like. The octets read and the octets written end the same message `u`,
  // so a short form that the decoder takes for an address would have to be found among the octets that the
  // encoder wrote.

  lemma SuffixAt(x: bytes, u: bytes, i: nat)
    requires IsSuffix(x, u) && i < |x|
    ensures x[i] == u[|u| - |x| + i]
  {
  }

  /** A header of two octets is its tag and its length. */
  lemma ShortHeader(s: bytes)
    requires DecodeHeader(AsWritten, s).Done? && |s| - |DecodeHeader(AsWritten, s).rest| == 2
    ensures var st := DecodeHeader(AsWritten, s);
            |s| >= 2 && st.value == Header(s[0], s[1]) && st.rest == s[2..]
  {
    hide ShiftIn;
  }

  /** `head` starts with two octets 40 m that lie `back` octets before the end of the address block in front
      of `more`. */
  lemma HeadInBlock(u: bytes, ip: bytes, more: bytes, head: bytes, i: nat)
    requires |ip| <= 16 && IsSuffix([IP_ADDRESS, |ip|] + ip + more, u) && IsSuffix(head, u)
    requires |head| + i == 2 + |ip| + |more| && i <= |ip|
    ensures |head| >= 2
    ensures head[0] == ([IP_ADDRESS, |ip|] + ip)[i] && head[1] == ([IP_ADDRESS, |ip|] + ip)[i + 1]
  {
    var written := [IP_ADDRESS, |ip|] + ip + more;
    SuffixAt(written, u, i);
    SuffixAt(written, u, i + 1);
    SuffixAt(head, u, 0);
    SuffixAt(head, u, 1);
  }

  /** A failing head cannot lie in the last six octets of the block of 0.0.0.0, nor where the block starts. */
  lemma ZeroIsNotSaved(u: bytes, more: bytes, head: bytes)
    requires var ip: bytes := [0, 0, 0, 0]; IsSuffix([IP_ADDRESS, 4] + ip + more, u)
    requires IsSuffix(head, u) && |head| >= 2 + |more| && head[0] == IP_ADDRESS && head[1] != 4
    ensures |head| > 6 + |more|
  {
    var ip: bytes := [0, 0, 0, 0];
    if |head| <= 6 + |more| {
      HeadInBlock(u, ip, more, head, 6 + |more| - |head|);
    }
  }

  /** Neither the short form of an address nor a failing head lies inside the block of a sixteen-byte one. */
  lemma SixteenIsNotSaved(u: bytes, ip: bytes, more: bytes, head: bytes)
    requires |ip| == 16 && HasTo4(ip) && IsSuffix([IP_ADDRESS, 16] + ip + more, u)
    requires IsSuffix(head, u) && head != [] && head[0] == IP_ADDRESS
    requires (|head| >= 6 + |more| && head[1] == 4) || (|head| >= 2 + |more| && ip == IPV4_ZERO && head[1] != 4)
    ensures |head| > 18 + |more| || (|head| == 18 + |more| && head[1] == 16)
  {
    if |head| <= 18 + |more| {
      var i := 18 + |more| - |head|;
      var block := [IP_ADDRESS, 16] + ip;
      HeadInBlock(u, ip, more, head, i);
      assert forall k | 2 <= k < 14 :: block[k] == ip[..12][k - 2];
    }
  }

  /** A few octets of content more make the header longer by one octet at most, and then it is long. */
  lemma HeaderGrows(tag: byte, c: nat, n: nat, spent: nat)
    requires n < c <= n + 16 && c <= MAX_INT64
    requires spent >= 129 || (spent == 2 && n < 127)
    ensures |HeaderOctets(tag, c)| <= spent || (spent == 2 && |HeaderOctets(tag, c)| == 3 && HeaderOctets(tag, c)[1] == 0x81)
  {
    hide BigEndian;
    GoLengthsNeedAtMostEightOctets(c);
  }

  /** What decoding an address costs, and the octets it starts with. */
  lemma AddressRead(s: bytes)
    requires DecodeValue(AsWritten, s).Done? && DecodeValue(AsWritten, s).value.Known?
    requires DecodeValue(AsWritten, s).value.value.IpAddress?
    ensures var st := DecodeValue(AsWritten, s);
            var spent, ip := |s| - |st.rest|, st.value.value.ip;
            && spent >= 2
            && (spent >= 129
            || (spent == 6 && s[0] == IP_ADDRESS && s[1] == 4)
            || (spent == 2 && s[0] == IP_ADDRESS && s[1] != 4 && ip == IPV4_ZERO))
  {
    hide DecodeHeader, DecodeOid, SignedValue;
    HeaderCost(s);
    var h := DecodeHeader(AsWritten, s);
    if |s| - |h.rest| == 2 { ShortHeader(s); }
  }

  /** An address whose short form the decoder would have to find: it lies so far in front of the address
      that was written that nothing is saved, but for a failing head at the very place of the block. */
  lemma AddressCost(u: bytes, s: bytes, v: Value, more: bytes)
    requires v.IpAddress? && EncodeValue(v).Ok? && !Plain(v)
    requires DecodeValue(AsWritten, s).Done? && DecodeValue(AsWritten, s).value == Known(ValueAsDecoded(v))
    requires IsSuffix(EncodeValue(v).value + more, u) && IsSuffix(s, u) && |more| <= |DecodeValue(AsWritten, s).rest|
    ensures |EncodeValue(v).value| <= 18 && |s| - |DecodeValue(AsWritten, s).rest| >= 2
    ensures var spent, d := |s| - |DecodeValue(AsWritten, s).rest|, |DecodeValue(AsWritten, s).rest| - |more|;
            || |EncodeValue(v).value| <= spent
            || |EncodeValue(v).value| < spent + d
            || (|EncodeValue(v).value| == spent + d && d == 16)
  {
    hide DecodeValue;
    AddressBlock(v.ip);
    AddressRead(s);
    var spent := |s| - |DecodeValue(AsWritten, s).rest|;
    if spent < |EncodeValue(v).value| {
      if |v.ip| == 4 {
        ZeroIsNotSaved(u, more, s);
      } else {
        SixteenIsNotSaved(u, v.ip, more, s);
      }
    }
  }

  lemma AddressBlock(ip: bytes)
    requires |ip| == 4 || |ip| == 16
    ensures Block(IP_ADDRESS, ip) == [IP_ADDRESS, |ip|] + ip
  {
  }

  /** A varbind that ends no later than the one written for it is not read from fewer octets than reach from
      its start to the end of the one written. */
  lemma AlignedVarbindCost(u: bytes, s: bytes, vb: Varbind, more: bytes)
    requires DecodeVarbind(AsWritten, s).Done?
    requires DecodeVarbind(AsWritten, s).value == vb.(value := ValueAsDecoded(vb.value))
    requires EncodeVarbind(vb).Ok? && |EncodeVarbind(vb).value| <= MAX_INT64
    requires IsSuffix(EncodeVarbind(vb).value + more, u) && IsSuffix(s, u) && |more| <= |DecodeVarbind(AsWritten, s).rest|
    ensures |EncodeVarbind(vb).value + more| <= |s|
  {
    hide DecodeHeader, LengthOctets, DecodeOidWithHeader, DecodeValue, OidReadable, OidContent, EncodeValue, ValueAsDecoded, HeaderOctets, IsSuffix;
    if Plain(vb.value) {
      VarbindCost(s, vb);
    } else {
      HeaderCost(s);
      var h := DecodeHeader(AsWritten, s);
      OidBlockCost(h.rest);
      var name := DecodeOidWithHeader(AsWritten, h.rest);
      NameMovesForward(AsWritten, h.rest);
      HeaderMovesForward(AsWritten, s);
      SuffixOfSuffix(h.rest, s, u);
      SuffixOfSuffix(name.rest, h.rest, u);
      var oid, val := EncodeOid(vb.oid).value, EncodeValue(vb.value).value;
      var c := |oid + val|;
      var b := EncodeVarbind(vb).value;
      assert HeaderOctets(SEQUENCE, c) + oid + val == b;
      ValueEndsVarbind(u, HeaderOctets(SEQUENCE, c) + oid, val, more);
      AddressCost(u, name.rest, vb.value, more);
      if c <= h.value.length {
        HeaderFits(SEQUENCE, c, h.value.length, |s| - |h.rest|);
      } else {
        HeaderGrows(SEQUENCE, c, h.value.length, |s| - |h.rest|);
        OneOctetBehind(u, b, more, s);
        if |s| - |h.rest| == 2 { ShortHeader(s); }
      }
    }
  }

  /** What starts one octet behind the start of `b` starts with the second octet of `b`. */
  lemma OneOctetBehind(u: bytes, b: bytes, more: bytes, s: bytes)
    requires IsSuffix(b + more, u) && IsSuffix(s, u) && s != [] && |b| >= 2
    ensures |b + more| == |s| + 1 ==> s[0] == b[1]
  {
    SuffixAt(b + more, u, 1);
    SuffixAt(s, u, 0);
  }

  lemma ValueEndsVarbind(u: bytes, front: bytes, val: bytes, more: bytes)
    requires IsSuffix(front + val + more, u)
    ensures IsSuffix(val + more, u)
  {
    assert front + val + more == front + (val + more);
    assert IsSuffix(val + more, front + (val + more));
    SuffixOfSuffix(val + more, front + (val + more), u);
  }

  /** A varbind list is never read from fewer octets than were written for it, when both end the same
      message. */
  lemma {:induction false} AlignedCost(u: bytes, acc: seq<Varbind>, s: bytes, vbs: seq<Varbind>)
    requires DecodeVarbindList(AsWritten, acc, s) == Done(acc + AsDecoded(vbs), [])
    requires EncodeVarbinds(vbs).Ok? && |EncodeVarbinds(vbs).value| <= MAX_INT64
    requires IsSuffix(s, u) && IsSuffix(EncodeVarbinds(vbs).value, u)
    ensures |EncodeVarbinds(vbs).value| <= |s|
    decreases |s|
  {
    hide DecodeVarbind, EncodeVarbind, AsDecoded, AllReturned, IsSuffix;
    var one := DecodeVarbind(AsWritten, s);
    var st := DecodeVarbindList(AsWritten, acc, s);
    var acc' := acc + [one.value];
    VarbindListImage(acc, s);
    assert vbs != [];
    VarbindTakesItsBlock(AsWritten, s);
    var first, more := EncodeVarbind(vbs[0]).value, EncodeVarbinds(vbs[1..]).value;
    if one.rest == [] {
      assert acc'[|acc|] == (acc + AsDecoded(vbs))[|acc|];
      assert vbs[1..] == [];
    } else {
      VarbindListImage(acc', one.rest);
      assert one.value == acc'[|acc|] == st.value[..|acc'|][|acc|] == st.value[|acc|] == AsDecoded(vbs)[0];
      assert AsDecoded(vbs) == [one.value] + AsDecoded(vbs[1..]);
      assert acc + AsDecoded(vbs) == acc' + AsDecoded(vbs[1..]);
      SuffixOfSuffix(one.rest, s, u);
      SuffixOfConcat(first, more, u);
      AlignedCost(u, acc', one.rest, vbs[1..]);
    }
    AlignedVarbindCost(u, s, vbs[0], more);
  }

  lemma SuffixOfConcat(front: bytes, back: bytes, u: bytes)
    requires IsSuffix(front + back, u)
    ensures IsSuffix(back, u)
  {
    ValueEndsVarbind(u, front, back, []);
    assert back + [] == back && front + back + [] == front + back;
  }

  lemma ListBlockCost(u: bytes, s: bytes, vbs: seq<Varbind>)
    requires DecodeVarbinds(AsWritten, s) == Done(AsDecoded(vbs), [])
    requires EncodeVarbinds(vbs).Ok? && |EncodeVarbinds(vbs).value| <= MAX_INT64
    requires IsSuffix(s, u) && IsSuffix(EncodeVarbinds(vbs).value, u)
    ensures |Block(SEQUENCE, EncodeVarbinds(vbs).value)| <= |s|
  {
    hide DecodeHeader, LengthOctets, DecodeVarbindList, EncodeVarbinds, AsDecoded, IsSuffix;
    HeaderCost(s);
    var h := DecodeHeader(AsWritten, s);
    HeaderMovesForward(AsWritten, s);
    SuffixOfSuffix(h.rest, s, u);
    assert [] + AsDecoded(vbs) == AsDecoded(vbs);
    AlignedCost(u, [], h.rest, vbs);
    HeaderFits(SEQUENCE, |EncodeVarbinds(vbs).value|, h.value.length, |s| - |h.rest|);
  }

  /** Three integers without content save an octet each. */
  lemma PduCost(u: bytes, s: bytes, m: Message, list: bytes)
    requires EncodeVarbinds(m.varbinds) == Ok(list) && |list| <= MAX_INT64
    requires DecodeRequestResponse(AsWritten, m.version, m.community, m.pduType, s) == Done(Pdu(MessageAsDecoded(m)), [])
    requires IsSuffix(s, u) && IsSuffix(list, u)
    ensures |PduContent(m, list)| <= |s| + 3
  {
    hide DecodeIntegerWithHeader, DecodeVarbinds, EncodeInteger, EncodeVarbinds, LengthOctets, AsDecoded, IsSuffix;
    IntegerCost(s);
    IntegerMovesForward(AsWritten, s);
    var i1 := DecodeIntegerWithHeader(AsWritten, s);
    SuffixOfSuffix(i1.rest, s, u);
    IntegerCost(i1.rest);
    IntegerMovesForward(AsWritten, i1.rest);
    var i2 := DecodeIntegerWithHeader(AsWritten, i1.rest);
    SuffixOfSuffix(i2.rest, i1.rest, u);
    IntegerCost(i2.rest);
    IntegerMovesForward(AsWritten, i2.rest);
    var i3 := DecodeIntegerWithHeader(AsWritten, i2.rest);
    SuffixOfSuffix(i3.rest, i2.rest, u);
    ListBlockCost(u, i3.rest, m.varbinds);
  }

  lemma HeaderIsShort(tag: byte, l: nat)
    requires l <= MAX_INT64
    ensures |HeaderOctets(tag, l)| <= 10
  {
    hide BigEndian, LengthLen;
    GoLengthsNeedAtMostEightOctets(l);
  }

  /** The content of a message is never decoded from twelve octets less than the encoder's. */
  lemma ContentCost(u: bytes, s: bytes, m: Message, list: bytes)
    requires EncodeVarbinds(m.varbinds) == Ok(list) && |MessageContent(m, list)| <= MAX_INT64
    requires IsSuffix(s, u) && IsSuffix(list, u)
    requires DecodeIntegerWithHeader(AsWritten, s).Done? && DecodeIntegerWithHeader(AsWritten, s).value == m.version
    requires DecodeCommunityMessage(AsWritten, m.version, DecodeIntegerWithHeader(AsWritten, s).rest)
             == Done(Pdu(MessageAsDecoded(m)), [])
    ensures |MessageContent(m, list)| <= |s| + 12
  {
    hide DecodeHeader, DecodeIntegerWithHeader, DecodeOctetStringWithHeader, DecodeRequestResponse, EncodeInteger, EncodeVarbinds,
         LengthOctets, PduContent, AsDecoded, IsSuffix;
    ListIsShorter(m, list);
    IntegerCost(s);
    IntegerMovesForward(AsWritten, s);
    var v := DecodeIntegerWithHeader(AsWritten, s);
    OctetStringCost(v.rest);
    SuffixOfSuffix(v.rest, s, u);
    OctetStringMovesForward(AsWritten, v.rest);
    var c := DecodeOctetStringWithHeader(AsWritten, v.rest);
    SuffixOfSuffix(c.rest, v.rest, u);
    var h := DecodeHeader(AsWritten, c.rest);
    HeaderCost(c.rest);
    HeaderMovesForward(AsWritten, c.rest);
    SuffixOfSuffix(h.rest, c.rest, u);
    PduKeepsItsArguments(m.version, c.value, h.value.tag, h.rest);
    PduCost(u, h.rest, m, list);
    HeaderIsShort(m.pduType, |PduContent(m, list)|);
  }

  lemma PduKeepsItsArguments(version: int64, community: bytes, pduType: byte, s: bytes)
    ensures var st := DecodeRequestResponse(AsWritten, version, community, pduType, s);
            st.Done? ==> st.value.Pdu? && st.value.msg.version == version
                         && st.value.msg.community == community && st.value.msg.pduType == pduType
  {
    hide DecodeUint32, DecodeInt32, DecodeVarbinds;
  }

  // ---------------------------------------------------------------------------
  // Main results

  /** From 127 octets of content on, nothing comes back. */
  lemma LongMessageIsLost(m: Message, list: bytes)
    requires EncodeVarbinds(m.varbinds) == Ok(list)
    requires 127 <= |MessageContent(m, list)| <= MAX_INT64
    ensures DecodeMsg(AsWritten, EncodeMessage(m).value) != Done(Pdu(MessageAsDecoded(m)), [])
  {
    hide DecodeHeader, DecodeIntegerWithHeader, DecodeCommunityMessage, EncodeVarbinds, MessageContent, Block, AsDecoded, IsSuffix;
    var content := MessageContent(m, list);
    var s := Block(SEQUENCE, content);
    LongFormIsOverread(SEQUENCE, content, []);
    assert s + [] == s;
    if DecodeMsg(AsWritten, s) == Done(Pdu(MessageAsDecoded(m)), []) {
      var h := DecodeHeader(AsWritten, s);
      HeaderMovesForward(AsWritten, s);
      ListEndsMessage(m, list);
      var v := DecodeIntegerWithHeader(AsWritten, h.rest);
      VersionIsKept(v.value, v.rest);
      ContentCost(s, h.rest, m, list);
      assert false;
    }
  }

  lemma ListEndsMessage(m: Message, list: bytes)
    ensures IsSuffix(list, Block(SEQUENCE, MessageContent(m, list)))
  {
    hide EncodeInteger, LengthOctets, IsSuffix;
    var l := Block(SEQUENCE, list);
    EndsWith(HeaderOctets(SEQUENCE, |list|), list);
    var pdu := PduContent(m, list);
    EndsWith(EncodeInteger(m.requestId) + EncodeInteger(m.errorVal) + EncodeInteger(m.errorIdx), l);
    SuffixOfSuffix(list, l, pdu);
    EndsWith(HeaderOctets(m.pduType, |pdu|), pdu);
    SuffixOfSuffix(list, pdu, Block(m.pduType, pdu));
    EndsWith(EncodeInteger(m.version) + Block(OCTET_STRING, m.community), Block(m.pduType, pdu));
    SuffixOfSuffix(list, Block(m.pduType, pdu), MessageContent(m, list));
    EndsWith(HeaderOctets(SEQUENCE, |MessageContent(m, list)|), MessageContent(m, list));
    SuffixOfSuffix(list, MessageContent(m, list), Block(SEQUENCE, MessageContent(m, list)));
  }

  lemma EndsWith(front: bytes, back: bytes)
    ensures IsSuffix(back, front + back)
  {
  }

  lemma VersionIsKept(version: int64, s: bytes)
    ensures var st := DecodeCommunityMessage(AsWritten, version, s);
            st.Done? && st.value.Pdu? ==> st.value.msg.version == version
  {
    hide DecodeHeader, DecodeOctetStringWithHeader, DecodeRequestResponse;
    var c := DecodeOctetStringWithHeader(AsWritten, s);
    if c.Done? {
      var h := DecodeHeader(AsWritten, c.rest);
      if h.Done? { PduKeepsItsArguments(version, c.value, h.value.tag, h.rest); }
    }
  }

  /** A sixteen-byte address is written whole, read as a failed four-byte one and not skipped over: the
      varbind is refused, or, for an identifier of two arcs, makes the decoder panic. */
  lemma SixteenByteAddressIsRefused(vb: Varbind, rest: bytes)
    requires vb.value.IpAddress? && |vb.value.ip| == 16
    requires EncodeVarbind(vb).Ok? && |EncodeVarbind(vb).value| < 127
    ensures var st := DecodeVarbind(AsWritten, EncodeVarbind(vb).value + rest);
            !st.Done? && (st.Fail? <==> |vb.oid| >= 3)
  {
    hide DecodeHeader, DecodeOid, DecodeValue, OidContent, LengthOctets, DecodeBase128, ArcReadable;
    var content := OidContent(vb.oid);
    var name, value := Block(OBJECT_IDENTIFIER, content), Block(IP_ADDRESS, vb.value.ip);
    HeaderRoundTrip(AsWritten, SEQUENCE, name + value, rest);
    assert (name + value) + rest == name + (value + rest);
    HeaderRoundTrip(AsWritten, OBJECT_IDENTIFIER, content, value + rest);
    OidOutcome(vb.oid, value + rest);
    ContentRoundTrip(AsWritten, IP_ADDRESS, vb.value.ip, rest);
    TagIsAnArc(value + rest);
    assert DecodeValue(AsWritten, value + rest) == Done(Known(IpAddress(IPV4_ZERO)), vb.value.ip + rest);
  }

  /** If a list comes back, every varbind in it was readable. */
  lemma {:induction false} ListNeedsReadable(acc: seq<Varbind>, vbs: seq<Varbind>)
    requires vbs != [] && EncodeVarbinds(vbs).Ok? && |EncodeVarbinds(vbs).value| < 127
    requires DecodeVarbindList(AsWritten, acc, EncodeVarbinds(vbs).value) == Done(acc + AsDecoded(vbs), [])
    ensures forall i | 0 <= i < |vbs| :: VarbindReadable(AsWritten, vbs[i])
    decreases |vbs|
  {
    hide DecodeVarbind, EncodeVarbind, AsDecoded, OidReadable, AllReturned;
    var first, more := EncodeVarbind(vbs[0]).value, EncodeVarbinds(vbs[1..]).value;
    var acc' := acc + [vbs[0].(value := ValueAsDecoded(vbs[0].value))];
    FirstNeedsReadable(acc, vbs);
    VarbindRoundTrip(AsWritten, vbs[0], more);
    if vbs[1..] != [] {
      EncodingNotEmpty(vbs[1..]);
      assert acc + AsDecoded(vbs) == acc' + AsDecoded(vbs[1..]);
      ListNeedsReadable(acc', vbs[1..]);
      assert forall i | 1 <= i < |vbs| :: vbs[i] == vbs[1..][i - 1];
    }
  }

  lemma FirstNeedsReadable(acc: seq<Varbind>, vbs: seq<Varbind>)
    requires vbs != [] && EncodeVarbinds(vbs).Ok? && |EncodeVarbinds(vbs).value| < 127
    requires DecodeVarbindList(AsWritten, acc, EncodeVarbinds(vbs).value) == Done(acc + AsDecoded(vbs), [])
    ensures VarbindReadable(AsWritten, vbs[0])
  {
    hide DecodeVarbind, EncodeOid, OidReadable, WellFormedBits, OidEncodable, AsDecoded;
    var vb := vbs[0];
    var s := EncodeVarbinds(vbs).value;
    VarbindListImage(acc, s);
    assert (acc + AsDecoded(vbs))[|acc|..] == AsDecoded(vbs);
    var w := AsDecoded(vbs)[0];
    assert OidReadable(AsWritten, w.oid) && ValueReturned(w.value);
    EmptyIdIsNotEncodable();
    if vb.value.IpAddress? && |vb.value.ip| == 16 {
      SixteenByteAddressIsRefused(vb, EncodeVarbinds(vbs[1..]).value);
    }
  }

  lemma EmptyIdIsNotEncodable()
    ensures EncodeOid([]).Err?
  {
  }

  /** Main result, the decoder as written: a message comes back from its own encoding exactly when
      its fields are readable and its content is shorter than 127 octets. */
  lemma MessageReadBackExactly(m: Message, list: bytes)
    requires EncodeVarbinds(m.varbinds) == Ok(list) && |MessageContent(m, list)| <= MAX_INT64
    ensures DecodeMsg(AsWritten, EncodeMessage(m).value) == Done(Pdu(MessageAsDecoded(m)), [])
            <==> FieldsReadable(AsWritten, m) && |MessageContent(m, list)| < 127
  {
    hide DecodeMsg, DecodeVarbindList, EncodeVarbinds, AsDecoded, VarbindReadable, MessageContent, Block, AllReturned;
    if |MessageContent(m, list)| >= 127 {
      LongMessageIsLost(m, list);
    } else if FieldsReadable(AsWritten, m) {
      MessageRoundTrip(AsWritten, m, list);
    } else if DecodeMsg(AsWritten, EncodeMessage(m).value) == Done(Pdu(MessageAsDecoded(m)), []) {
      DecoderImage(EncodeMessage(m).value);
      MessageReduces(AsWritten, m, list);
      assert [] + AsDecoded(m.varbinds) == AsDecoded(m.varbinds);
      ListIsShorter(m, list);
      ListNeedsReadable([], m.varbinds);
      assert false;
    }
  }

  // ---------------------------------------------------------------------------
  // Failures

  /** An INTEGER value makes the decoder panic exactly when every arc of its identifier from the third on
      can be read; a larger arc ends it with an error before the value is reached. */
  lemma IntegerValuePanics(oid: Oid, i: int32, rest: bytes)
    requires OidEncodable(oid) && |EncodeVarbind(Varbind(oid, Integer(i))).value| < 127
    ensures DecodeVarbind(AsWritten, EncodeVarbind(Varbind(oid, Integer(i))).value + rest).Crash?
            <==> forall k | 2 <= k < |oid| :: ArcReadable(AsWritten, oid[k])
  {
    hide DecodeHeader, DecodeOid, DecodeValue, OidContent, LengthOctets, IntBytes, SignedValue, DecodeBase128, ArcReadable;
    var content := OidContent(oid);
    var name, value := Block(OBJECT_IDENTIFIER, content), Block(INTEGER, IntBytes(i));
    HeaderRoundTrip(AsWritten, SEQUENCE, name + value, rest);
    assert (name + value) + rest == name + (value + rest);
    HeaderRoundTrip(AsWritten, OBJECT_IDENTIFIER, content, value + rest);
    OidOutcome(oid, value + rest);
    ContentRoundTrip(AsWritten, INTEGER, IntBytes(i), rest);
    TagIsAnArc(value + rest);
  }

  /** Behind an identifier of two arcs the tag of the value is taken for a third. */
  lemma TagIsAnArc(s: bytes)
    requires s != [] && s[0] < 128
    ensures DecodeBase128(AsWritten, s).Done?
  {
  }

  /** A GET request for one object, with a community of 127 octets: well formed, and lost. */
  lemma LongCommunityIsLost()
    ensures var m := Message(VERSION_2C, seq(127, _ => 0x61), GET_REQUEST, 1, 0, 0, [Varbind([1, 3, 6, 1], Null)]);
            && FieldsReadable(AsWritten, m) && EncodeMessage(m).Ok?
            && DecodeMsg(AsWritten, EncodeMessage(m).value) != Done(Pdu(MessageAsDecoded(m)), [])
  {
    hide DecodeMsg, AsDecoded, EncodeInteger, LengthOctets;
    var oid := [1, 3, 6, 1];
    var m := Message(VERSION_2C, seq(127, _ => 0x61), GET_REQUEST, 1, 0, 0, [Varbind(oid, Null)]);
    assert |OidContent(oid)| == 3 by { assert oid[2..] == [6, 1] && [6, 1][1..] == [1]; }
    var name, value := Block(OBJECT_IDENTIFIER, OidContent(oid)), Block(NULL, []);
    HeaderIsShort(OBJECT_IDENTIFIER, 3);
    HeaderIsShort(NULL, 0);
    HeaderIsShort(SEQUENCE, |name + value|);
    SingleVarbind(Varbind(oid, Null));
    var list := EncodeVarbinds(m.varbinds).value;
    SmallMessage(m, list);
    LongMessageIsLost(m, list);
  }

  lemma SingleVarbind(vb: Varbind)
    ensures EncodeVarbinds([vb]) == EncodeVarbind(vb)
  {
    hide EncodeVarbind;
    var one := [vb];
    assert one[1..] == [] && EncodeVarbinds(one[1..]) == Ok([]);
    if EncodeVarbind(vb).Ok? { assert EncodeVarbind(vb).value + [] == EncodeVarbind(vb).value; }
  }

  lemma SmallMessage(m: Message, list: bytes)
    requires |list| + |m.community| <= 1000
    ensures |MessageContent(m, list)| <= MAX_INT64
  {
    hide IntBytes, IntLen, LengthOctets;
    Int64UsesAtMostEightOctets(m.version);
    Int64UsesAtMostEightOctets(m.requestId);
    Int64UsesAtMostEightOctets(m.errorVal);
    Int64UsesAtMostEightOctets(m.errorIdx);
    HeaderIsShort(INTEGER, IntLen(m.version));
    HeaderIsShort(INTEGER, IntLen(m.requestId));
    HeaderIsShort(INTEGER, IntLen(m.errorVal));
    HeaderIsShort(INTEGER, IntLen(m.errorIdx));
    HeaderIsShort(SEQUENCE, |list|);
    HeaderIsShort(OCTET_STRING, |m.community|);
    HeaderIsShort(m.pduType, |PduContent(m, list)|);
  }
}
