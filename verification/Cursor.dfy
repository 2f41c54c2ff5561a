/**
 The decoder's cursor: it only moves forward through the message, a successful decodeX(n) takes exactly n
 octets, and an accepted varbind exactly the block it declares.
 */
module Cursors {
  import opened GoTypes
  import opened Integers
  import opened Headers
  import opened ObjectIdentifiers
  import opened Messages

  predicate IsSuffix(r: bytes, s: bytes) {
    |r| <= |s| && r == s[|s| - |r|..]
  }

  lemma SuffixOfSuffix(q: bytes, r: bytes, s: bytes)
    requires IsSuffix(q, r) && IsSuffix(r, s)
    ensures IsSuffix(q, s)
  {
    assert s[|s| - |r|..][|r| - |q|..] == s[|s| - |q|..];
  }

  lemma HeaderMovesForward(rd: Reading, s: bytes)
    ensures IsSuffix(DecodeHeader(rd, s).rest, s)
  {
    hide ShiftIn;
    if s != [] {
      var st := DecodeLength(rd, s[1..]);
      assert IsSuffix(s[1..], s) && IsSuffix(st.rest, s[1..]);
      SuffixOfSuffix(st.rest, s[1..], s);
    }
  }

  lemma {:induction false} Base128MovesForward(limit: nat, read: nat, val: nat, s: bytes)
    requires read <= limit
    ensures IsSuffix(Base128Loop(limit, read, val, s).rest, s)
    decreases limit - read
  {
    if read < limit && s != [] && s[0] >= 128 {
      var v := val * 128 + s[0] % 128;
      Base128MovesForward(limit, read + 1, v, s[1..]);
      SuffixOfSuffix(Base128Loop(limit, read + 1, v, s[1..]).rest, s[1..], s);
    }
  }

  lemma {:induction false} ArcsMoveForward(rd: Reading, n: nat, used: nat, acc: Oid, s: bytes)
    ensures var st := OidArcs(rd, n, used, acc, s);
            && (!st.Crash? ==> IsSuffix(st.rest, s))
            && (st.Done? ==> used + |s| - |st.rest| == n)
    decreases |s|
  {
    hide Base128Loop;
    var st := DecodeBase128(rd, s);
    Base128MovesForward(MaxGroups(rd), 0, 0, s);
    if st.Done? && st.value <= MAX_UINT32 && |acc| <= n && used + |s| - |st.rest| < n {
      ArcsMoveForward(rd, n, used + |s| - |st.rest|, acc + [st.value], st.rest);
      var all := OidArcs(rd, n, used + |s| - |st.rest|, acc + [st.value], st.rest);
      if !all.Crash? { SuffixOfSuffix(all.rest, st.rest, s); }
    }
  }

  /** decodeObjectIdentifier(n) takes exactly n octets when it succeeds. */
  lemma OidTakesItsLength(rd: Reading, n: nat, s: bytes)
    ensures var st := DecodeOid(rd, n, s);
            && (!st.Crash? ==> IsSuffix(st.rest, s))
            && (st.Done? ==> n <= |s| && st.rest == s[n..])
  {
    hide OidArcs;
    if 0 < n <= |s| {
      var first := [s[0] / 40, s[0] % 40];
      ArcsMoveForward(rd, n, 1, first, s[1..]);
      var st := OidArcs(rd, n, 1, first, s[1..]);
      if !st.Crash? { SuffixOfSuffix(st.rest, s[1..], s); }
    }
  }

  /** The other value decoders take exactly n octets when they succeed. */
  lemma ValuesTakeTheirLength(n: nat, s: bytes)
    ensures DecodeInteger(n, s).Done? ==> n <= |s| && DecodeInteger(n, s).rest == s[n..]
    ensures DecodeOctetString(n, s).Done? ==> n <= |s| && DecodeOctetString(n, s).rest == s[n..]
    ensures DecodeBitString(n, s).Done? ==> n <= |s| && DecodeBitString(n, s).rest == s[n..]
    ensures DecodeIpAddress(n, s).Done? ==> n <= |s| && DecodeIpAddress(n, s).rest == s[n..]
    ensures IsSuffix(DecodeInteger(n, s).rest, s) && IsSuffix(DecodeOctetString(n, s).rest, s)
    ensures IsSuffix(DecodeBitString(n, s).rest, s) && IsSuffix(DecodeIpAddress(n, s).rest, s)
  {
    hide SignedValue;
  }

  /** After an error that decodeValue drops, too, the cursor has only moved forward. */
  lemma ContentMovesForward(rd: Reading, h: Header, s: bytes)
    ensures !DecodeContent(rd, h, s).Crash? ==> IsSuffix(DecodeContent(rd, h, s).rest, s)
  {
    hide DecodeOid, DecodeInteger, DecodeOctetString, DecodeBitString, DecodeIpAddress, IsSuffix;
    OidTakesItsLength(rd, h.length, s);
    ValuesTakeTheirLength(h.length, s);
    assert IsSuffix(s, s) by { WholeIsSuffix(s); }
  }

  lemma WholeIsSuffix(s: bytes)
    ensures IsSuffix(s, s)
  {
  }

  /** Where the name of a varbind, an integer and an octet string with their headers leave the cursor. */
  lemma NameMovesForward(rd: Reading, s: bytes)
    ensures var st := DecodeOidWithHeader(rd, s); !st.Crash? ==> IsSuffix(st.rest, s)
  {
    hide DecodeHeader, DecodeOid;
    HeaderMovesForward(rd, s);
    var h := DecodeHeader(rd, s);
    if h.Done? {
      OidTakesItsLength(rd, h.value.length, h.rest);
      var st := DecodeOid(rd, h.value.length, h.rest);
      if !st.Crash? { SuffixOfSuffix(st.rest, h.rest, s); }
    }
  }

  lemma IntegerMovesForward(rd: Reading, s: bytes)
    ensures IsSuffix(DecodeIntegerWithHeader(rd, s).rest, s)
  {
    hide DecodeHeader, DecodeInteger, IsSuffix;
    HeaderMovesForward(rd, s);
    var h := DecodeHeader(rd, s);
    if h.Done? {
      ValuesTakeTheirLength(h.value.length, h.rest);
      SuffixOfSuffix(DecodeInteger(h.value.length, h.rest).rest, h.rest, s);
    }
  }

  lemma OctetStringMovesForward(rd: Reading, s: bytes)
    ensures IsSuffix(DecodeOctetStringWithHeader(rd, s).rest, s)
  {
    hide DecodeHeader, DecodeOctetString, IsSuffix;
    HeaderMovesForward(rd, s);
    var h := DecodeHeader(rd, s);
    if h.Done? {
      ValuesTakeTheirLength(h.value.length, h.rest);
      SuffixOfSuffix(DecodeOctetString(h.value.length, h.rest).rest, h.rest, s);
    }
  }

  lemma ValueMovesForward(rd: Reading, s: bytes)
    ensures var st := DecodeValue(rd, s); !st.Crash? ==> IsSuffix(st.rest, s)
  {
    hide DecodeHeader, DecodeContent;
    HeaderMovesForward(rd, s);
    var h := DecodeHeader(rd, s);
    if h.Done? {
      ContentMovesForward(rd, h.value, h.rest);
      var st := DecodeContent(rd, h.value, h.rest);
      if !st.Crash? { SuffixOfSuffix(st.rest, h.rest, s); }
    }
  }

  /** An accepted varbind is exactly the block that its header declares. */
  lemma VarbindTakesItsBlock(rd: Reading, s: bytes)
    requires DecodeVarbind(rd, s).Done?
    ensures var h := DecodeHeader(rd, s);
            && h.Done? && h.value.tag == SEQUENCE && h.value.length <= |h.rest|
            && DecodeVarbind(rd, s).rest == h.rest[h.value.length..]
            && IsSuffix(DecodeVarbind(rd, s).rest, s)
  {
    hide DecodeHeader, DecodeOid, DecodeValue;
    HeaderMovesForward(rd, s);
    var h := DecodeHeader(rd, s);
    HeaderMovesForward(rd, h.rest);
    var name := DecodeHeader(rd, h.rest);
    OidTakesItsLength(rd, name.value.length, name.rest);
    var oid := DecodeOid(rd, name.value.length, name.rest);
    SuffixOfSuffix(oid.rest, name.rest, h.rest);
    ValueMovesForward(rd, oid.rest);
    var value := DecodeValue(rd, oid.rest);
    SuffixOfSuffix(value.rest, oid.rest, h.rest);
    SuffixOfSuffix(value.rest, h.rest, s);
  }

  /** The octets of a varbind list fall apart into blocks, one for each varbind read. */
  ghost predicate Blocks(rd: Reading, s: bytes, n: nat)
    decreases n
  {
    if n == 0 then s == []
    else
      var h := DecodeHeader(rd, s);
      h.Done? && h.value.tag == SEQUENCE && h.value.length <= |h.rest| && Blocks(rd, h.rest[h.value.length..], n - 1)
  }

  lemma {:induction false} VarbindListIsBlocks(rd: Reading, acc: seq<Varbind>, s: bytes)
    requires DecodeVarbindList(rd, acc, s).Done?
    ensures var st := DecodeVarbindList(rd, acc, s);
            |st.value| > |acc| && st.rest == [] && Blocks(rd, s, |st.value| - |acc|)
    decreases |s|
  {
    hide DecodeVarbind, DecodeHeader;
    VarbindTakesItsBlock(rd, s);
    var one := DecodeVarbind(rd, s);
    if one.rest != [] {
      VarbindListIsBlocks(rd, acc + [one.value], one.rest);
    } else {
      assert Blocks(rd, one.rest, 0);
    }
  }
}
