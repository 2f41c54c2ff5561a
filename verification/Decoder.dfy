/**
 The decoder: a cursor over a received message, with a position that is kept beside it
 (decoder.go and the decodeX functions of the value and message files), as the code stands.
 */
module Decoders {
  import opened GoTypes
  import opened Integers
  import opened Headers
  import opened ObjectIdentifiers
  import opened Messages

  lemma {:induction false} ShiftInAppend(acc: int64, a: bytes, b: byte)
    ensures ShiftIn(acc, a + [b]) == WrapInt64(ShiftIn(acc, a) * 256 + b)
    decreases |a|
  {
    hide WrapInt64;
    var s := a + [b];
    if a == [] {
      assert s[1..] == [] && s[0] == b;
    } else {
      assert s[0] == a[0] && s[1..] == a[1..] + [b];
      ShiftInAppend(WrapInt64(acc * 256 + a[0]), a[1..], b);
    }
  }

  // ---------------------------------------------------------------------------
  // How far the position falls behind the cursor: by the octets that a failing base-128 read has eaten

  function Base128Lag(s: bytes): nat {
    match DecodeBase128(AsWritten, s)
    case Fail(r) => |s| - |r|
    case Done(_, _) => 0
  }

  /** In the loop over arcs, with `used` octets of the block read and `vals` arcs stored. */
  function ArcsLag(n: nat, used: nat, vals: nat, s: bytes): nat
    decreases |s|
  {
    match DecodeBase128(AsWritten, s)
    case Fail(r) => |s| - |r|
    case Done(v, r) =>
      if v > MAX_UINT32 || vals > n || used + |s| - |r| >= n then 0
      else ArcsLag(n, used + |s| - |r|, vals + 1, r)
  }

  function OidLag(n: nat, s: bytes): nat {
    if n > |s| || s == [] || n == 0 then 0 else ArcsLag(n, 1, 2, s[1..])
  }

  /** For an identifier with its header, and for a value. */
  function BlockLag(s: bytes): nat {
    match Headers.DecodeHeader(AsWritten, s)
    case Done(h, r) => if h.tag == OBJECT_IDENTIFIER then OidLag(h.length, r) else 0
    case Fail(_) => 0
  }

  function VarbindLag(s: bytes): nat {
    match Headers.DecodeHeader(AsWritten, s)
    case Fail(_) => 0
    case Done(h, r) =>
      if h.tag != SEQUENCE then 0
      else
        BlockLag(r) + match DecodeOidWithHeader(AsWritten, r)
                      case Done(_, r') => BlockLag(r')
                      case _ => 0
  }

  function ListLag(s: bytes): nat
    decreases |s|
  {
    VarbindLag(s) + match Messages.DecodeVarbind(AsWritten, s)
                    case Done(_, r) => if r == [] then 0 else ListLag(r)
                    case _ => 0
  }

  function VarbindsLag(s: bytes): nat {
    match Headers.DecodeHeader(AsWritten, s)
    case Fail(_) => 0
    case Done(h, r) => if h.tag != SEQUENCE || h.length != |r| then 0 else ListLag(r)
  }

  /** One arc of the loop. */
  lemma ArcsUnfold(n: nat, used: nat, acc: Oid, s: bytes)
    ensures match DecodeBase128(AsWritten, s)
            case Fail(r) => OidArcs(AsWritten, n, used, acc, s) == Fail(r) && ArcsLag(n, used, |acc|, s) == |s| - |r|
            case Done(v, r) =>
              var used' := used + |s| - |r|;
              if v > MAX_UINT32 then OidArcs(AsWritten, n, used, acc, s) == Fail(r) && ArcsLag(n, used, |acc|, s) == 0
              else if |acc| > n then OidArcs(AsWritten, n, used, acc, s) == Crash
              else if used' == n then OidArcs(AsWritten, n, used, acc, s) == Done(acc + [v], r) && ArcsLag(n, used, |acc|, s) == 0
              else if used' > n then OidArcs(AsWritten, n, used, acc, s) == Fail(r) && ArcsLag(n, used, |acc|, s) == 0
              else
                && OidArcs(AsWritten, n, used, acc, s) == OidArcs(AsWritten, n, used', acc + [v], r)
                && ArcsLag(n, used, |acc|, s) == ArcsLag(n, used', |acc| + 1, r)
  {
    hide DecodeBase128;
  }

  lemma {:induction false} ArcsLagIsSmall(n: nat, used: nat, acc: Oid, s: bytes)
    ensures ArcsLag(n, used, |acc|, s) <= 4
    ensures OidArcs(AsWritten, n, used, acc, s).Done? ==> ArcsLag(n, used, |acc|, s) == 0
    decreases |s|
  {
    Base128EatsAtMostFour(4, 0, 0, s);
    match DecodeBase128(AsWritten, s)
    case Fail(_) =>
    case Done(v, r) =>
      if v <= MAX_UINT32 && |acc| <= n && used + |s| - |r| < n {
        ArcsLagIsSmall(n, used + |s| - |r|, acc + [v], r);
      }
  }

  lemma {:induction false} Base128EatsAtMostFour(limit: nat, read: nat, val: nat, s: bytes)
    requires read <= limit
    ensures |s| - |Base128Loop(limit, read, val, s).rest| <= limit - read
    decreases limit - read
  {
    if read < limit && s != [] && s[0] >= 128 {
      Base128EatsAtMostFour(limit, read + 1, val * 128 + s[0] % 128, s[1..]);
    }
  }

  /** An identifier that was decoded leaves the position in step, and one that was not lets it fall behind by
      four octets at most. */
  lemma LagOfAnIdentifier(n: nat, s: bytes)
    ensures OidLag(n, s) <= 4
    ensures DecodeOid(AsWritten, n, s).Done? ==> OidLag(n, s) == 0
  {
    if 0 < n <= |s| {
      ArcsLagIsSmall(n, 1, [s[0] / 40, s[0] % 40], s[1..]);
    }
  }

  class BerDecoder {
    /** What is left of the message. */
    var buf: bytes
    /** Where the reader believes to be; only object identifiers and error texts depend on it. */
    var pos: nat

    constructor (msg: bytes)
      ensures buf == msg && pos == 0
    {
      buf := msg;
      pos := 0;
    }

    method ReadByte() returns (o: Outcome<byte>)
      modifies this`buf
      ensures if old(buf) == [] then o == Err && buf == [] else o == Ok(old(buf)[0]) && buf == old(buf)[1..]
    {
      if buf == [] {
        return Err;
      }
      o := Ok(buf[0]);
      buf := buf[1..];
    }

    method DecodeLength() returns (o: Outcome<nat>)
      modifies this
      ensures Matches(o, buf, Headers.DecodeLength(AsWritten, old(buf)))
      ensures pos + |buf| == old(pos + |buf|)
    {
      var firstByte := ReadByte();
      if !firstByte.Ok? {
        return Err;
      }
      pos := pos + 1;
      if firstByte.value < 127 {
        return Ok(firstByte.value);
      }
      var length: int64 := 0;
      var numBytes: nat := firstByte.value;
      ghost var octets := buf;
      while numBytes > 0
        invariant numBytes <= firstByte.value
        invariant firstByte.value - numBytes <= |octets| && buf == octets[firstByte.value - numBytes..]
        invariant length == ShiftIn(0, octets[..firstByte.value - numBytes])
        invariant pos + |buf| == old(pos + |buf|)
      {
        hide ShiftIn, WrapInt64;
        ghost var k := firstByte.value - numBytes;
        var temp := ReadByte();
        if !temp.Ok? {
          return Err;
        }
        pos := pos + 1;
        assert temp.value == octets[k];
        ShiftInAppend(0, octets[..k], temp.value);
        assert octets[..k + 1] == octets[..k] + [temp.value];
        length := WrapInt64(length * 256 + temp.value);
        numBytes := numBytes - 1;
      }
      assert old(buf)[1..1 + firstByte.value] == octets[..firstByte.value];
      assert old(buf)[1 + firstByte.value..] == octets[firstByte.value..];
      if length < 0 {
        return Err;
      }
      o := Ok(length);
    }

    method DecodeHeader() returns (o: Outcome<Header>)
      modifies this
      ensures Matches(o, buf, Headers.DecodeHeader(AsWritten, old(buf)))
      ensures pos + |buf| == old(pos + |buf|)
    {
      hide Headers.DecodeLength;
      var blockType := ReadByte();
      if !blockType.Ok? {
        return Err;
      }
      pos := pos + 1;
      var blockLength := DecodeLength();
      if !blockLength.Ok? {
        return Err;
      }
      if blockLength.value > |buf| {
        return Err;
      }
      o := Ok(Header(blockType.value, blockLength.value));
    }

    /** decode2sComplementInt */
    method DecodeInteger(numBytes: nat) returns (o: Outcome<int64>)
      modifies this
      ensures Matches(o, buf, Messages.DecodeInteger(numBytes, old(buf)))
      ensures pos + |buf| == old(pos + |buf|)
    {
      hide SignShift, UpAndDown;
      var val: int64 := 0;
      for i := 0 to numBytes
        invariant i <= |old(buf)| && buf == old(buf)[i..]
        invariant val == ShiftIn(0, old(buf)[..i])
        invariant pos + |buf| == old(pos + |buf|)
      {
        var temp := ReadByte();
        if !temp.Ok? {
          return Err;
        }
        pos := pos + 1;
        ShiftInAppend(0, old(buf)[..i], temp.value);
        assert old(buf)[..i + 1] == old(buf)[..i] + [temp.value];
        val := WrapInt64(val * 256 + temp.value);
      }
      o := Ok(ShiftUpAndDown(val, numBytes));
    }

    method DecodeIntegerWithHeader() returns (o: Outcome<int64>)
      modifies this
      ensures Matches(o, buf, Messages.DecodeIntegerWithHeader(AsWritten, old(buf)))
      ensures pos + |buf| == old(pos + |buf|)
    {
      hide Headers.DecodeHeader, Messages.DecodeInteger;
      var h := DecodeHeader();
      if !h.Ok? {
        return Err;
      }
      if h.value.tag != INTEGER {
        return Err;
      }
      o := DecodeInteger(h.value.length);
    }

    method DecodeInt32WithHeader() returns (o: Outcome<int64>)
      modifies this
      ensures Matches(o, buf, DecodeInt32(AsWritten, old(buf)))
      ensures pos + |buf| == old(pos + |buf|)
    {
      hide Messages.DecodeIntegerWithHeader;
      o := DecodeIntegerWithHeader();
      if o.Ok? && !(-0x8000_0000 <= o.value <= 0x7FFF_FFFF) {
        return Err;
      }
    }

    method DecodeUint32WithHeader() returns (o: Outcome<int64>)
      modifies this
      ensures Matches(o, buf, DecodeUint32(AsWritten, old(buf)))
      ensures pos + |buf| == old(pos + |buf|)
    {
      hide Messages.DecodeIntegerWithHeader;
      o := DecodeIntegerWithHeader();
      if o.Ok? && !(0 <= o.value <= MAX_UINT32) {
        return Err;
      }
    }

    method DecodeOctetString(numBytes: nat) returns (o: Outcome<bytes>)
      modifies this
      ensures Matches(o, buf, Messages.DecodeOctetString(numBytes, old(buf)))
      ensures pos + |buf| == old(pos + |buf|)
    {
      if numBytes > |buf| {
        return Err;
      }
      o := Ok(buf[..numBytes]);
      buf := buf[numBytes..];
      pos := pos + numBytes;
    }

    method DecodeOctetStringWithHeader() returns (o: Outcome<bytes>)
      modifies this
      ensures Matches(o, buf, Messages.DecodeOctetStringWithHeader(AsWritten, old(buf)))
      ensures pos + |buf| == old(pos + |buf|)
    {
      hide Headers.DecodeHeader, Messages.DecodeOctetString;
      var h := DecodeHeader();
      if !h.Ok? {
        return Err;
      }
      if h.value.tag != OCTET_STRING {
        return Err;
      }
      o := DecodeOctetString(h.value.length);
    }

    method DecodeBitString(numBytes: nat) returns (o: Outcome<BitString>)
      modifies this
      ensures Matches(o, buf, Messages.DecodeBitString(numBytes, old(buf)))
      ensures pos + |buf| == old(pos + |buf|)
    {
      if numBytes < 1 || numBytes > |buf| {
        return Err;
      }
      var numPaddingBits := ReadByte();
      pos := pos + 1;
      if numPaddingBits.value > 7 {
        return Err;
      }
      var octets := buf[..numBytes - 1];
      buf := buf[numBytes - 1..];
      pos := pos + numBytes - 1;
      assert octets == old(buf)[1..numBytes] && buf == old(buf)[numBytes..];
      o := Ok(BitString(octets, (numBytes - 1) * 8 - numPaddingBits.value));
    }

    /** The position moves only if the whole number was read; after an error it is behind the cursor. */
    method DecodeBase128Int() returns (o: Outcome<nat>)
      modifies this
      ensures Matches(o, buf, DecodeBase128(AsWritten, old(buf)))
      ensures pos + |buf| + Base128Lag(old(buf)) == old(pos + |buf|)
    {
      var val: nat := 0;
      var numBytesRead := 0;
      while true
        invariant 0 <= numBytesRead <= 4 && val >= 0
        invariant Base128Loop(4, numBytesRead, val, buf) == DecodeBase128(AsWritten, old(buf))
        invariant pos == old(pos) && numBytesRead + |buf| == |old(buf)|
        decreases 4 - numBytesRead
      {
        if numBytesRead == 4 {
          return Err;
        }
        var b := ReadByte();
        if !b.Ok? {
          return Err;
        }
        val := val * 128 + (b.value as int) % 128;
        if b.value < 128 {
          break;
        }
        numBytesRead := numBytesRead + 1;
      }
      pos := pos + numBytesRead + 1;
      o := Ok(val);
    }

    /** The arcs go into a slice of numBytes + 1 elements; writing outside it panics. */
    method DecodeObjectIdentifier(numBytes: nat) returns (o: Outcome<Oid>)
      modifies this
      ensures Matches(o, buf, DecodeOid(AsWritten, numBytes, old(buf)))
      ensures !o.Panic? ==> pos + |buf| + OidLag(numBytes, old(buf)) == old(pos + |buf|)
    {
      hide OidArcs, ArcsLag;
      if numBytes > |buf| {
        return Err;
      }
      var oid := new uint32[numBytes + 1];
      var startingPos := pos;
      var firstByte := ReadByte();
      if !firstByte.Ok? {
        return Err;
      }
      pos := pos + 1;
      oid[0] := firstByte.value / 40;
      if oid.Length < 2 {
        return Panic;
      }
      oid[1] := firstByte.value % 40;
      assert oid[..2] == [firstByte.value / 40, firstByte.value % 40];
      o := DecodeArcs(oid, startingPos);
    }

    /** The loop of decodeObjectIdentifier, from the third element of the slice on. */
    method DecodeArcs(oid: array<uint32>, startingPos: nat) returns (o: Outcome<Oid>)
      requires oid.Length >= 2 && startingPos < pos
      modifies this, oid
      ensures Matches(o, buf, OidArcs(AsWritten, oid.Length - 1, old(pos) - startingPos, old(oid[..2]), old(buf)))
      ensures !o.Panic? ==>
                pos + |buf| + ArcsLag(oid.Length - 1, old(pos) - startingPos, 2, old(buf)) == old(pos + |buf|)
    {
      hide DecodeBase128, OidArcs, ArcsLag;
      var numBytes := oid.Length - 1;
      var numVals := 2;
      while true
        invariant 2 <= numVals <= oid.Length && startingPos < pos
        invariant OidArcs(AsWritten, numBytes, pos - startingPos, oid[..numVals], buf)
                  == OidArcs(AsWritten, numBytes, old(pos) - startingPos, old(oid[..2]), old(buf))
        invariant ArcsLag(numBytes, pos - startingPos, numVals, buf) == ArcsLag(numBytes, old(pos) - startingPos, 2, old(buf))
        invariant pos + |buf| == old(pos + |buf|)
        decreases |buf|
      {
        ghost var arcs := oid[..numVals];
        ArcsUnfold(numBytes, pos - startingPos, arcs, buf);
        var tval := DecodeBase128Int();
        if !tval.Ok? {
          return Err;
        }
        if tval.value > MAX_UINT32 {
          return Err;
        }
        if numVals >= oid.Length {
          return Panic;
        }
        oid[numVals] := tval.value;
        assert oid[..numVals + 1] == arcs + [tval.value];
        if pos - startingPos == numBytes {
          break;
        }
        if pos - startingPos > numBytes {
          return Err;
        }
        numVals := numVals + 1;
      }
      o := Ok(oid[..numVals + 1]);
    }

    method DecodeObjectIdentifierWithHeader() returns (o: Outcome<Oid>)
      modifies this
      ensures Matches(o, buf, DecodeOidWithHeader(AsWritten, old(buf)))
      ensures !o.Panic? ==> pos + |buf| + BlockLag(old(buf)) == old(pos + |buf|)
    {
      hide Headers.DecodeHeader, DecodeOid, OidLag;
      var h := DecodeHeader();
      if !h.Ok? {
        return Err;
      }
      if h.value.tag != OBJECT_IDENTIFIER {
        return Err;
      }
      o := DecodeObjectIdentifier(h.value.length);
    }

    method DecodeIPv4Address(numBytes: nat) returns (o: Outcome<bytes>)
      modifies this
      ensures Matches(o, buf, DecodeIpAddress(numBytes, old(buf)))
      ensures pos + |buf| == old(pos + |buf|)
    {
      if numBytes > |buf| {
        return Err;
      }
      if numBytes != 4 {
        return Err;
      }
      pos := pos + 4;
      var addrBytes := buf[..4];
      buf := buf[4..];
      o := Ok(V4_IN_V6_PREFIX + addrBytes);
    }

    /** Errors of the value decoders are dropped; the position falls behind only by what a failing arc of an
        object identifier has eaten. */
    method DecodeValue() returns (o: Outcome<RawValue>)
      modifies this
      ensures Matches(o, buf, Messages.DecodeValue(AsWritten, old(buf)))
      ensures !o.Panic? ==> pos + |buf| + BlockLag(old(buf)) == old(pos + |buf|)
    {
      hide Headers.DecodeHeader, Messages.DecodeInteger, Messages.DecodeOctetString, DecodeOid, DecodeIpAddress, OidLag;
      var h := DecodeHeader();
      if !h.Ok? {
        return Err;
      }
      var tag, length := h.value.tag, h.value.length;
      if tag == INTEGER {
        var value := DecodeInteger(length);
        o := Ok(Int64(if value.Ok? then value.value else 0));
      } else if tag == BIT_STRING {
        var value := DecodeBitString(length);
        o := Ok(Known(if value.Ok? then Bits(value.value) else NilBits));
      } else if tag == OCTET_STRING {
        var value := DecodeOctetString(length);
        o := Ok(Known(Octets(if value.Ok? then value.value else [])));
      } else if tag == NULL {
        o := Ok(Known(Null));
      } else if tag == NO_SUCH_OBJECT {
        o := Ok(Known(NoSuchObject));
      } else if tag == NO_SUCH_INSTANCE {
        o := Ok(Known(NoSuchInstance));
      } else if tag == END_OF_MIB_VIEW {
        o := Ok(Known(EndOfMibView));
      } else if tag == OBJECT_IDENTIFIER {
        var value := DecodeObjectIdentifier(length);
        if value.Panic? {
          return Panic;
        }
        o := Ok(Known(ObjectId(if value.Ok? then value.value else [])));
      } else if tag == IP_ADDRESS {
        var value := DecodeIPv4Address(length);
        o := Ok(Known(IpAddress(if value.Ok? then value.value else IPV4_ZERO)));
      } else if tag in {COUNTER_32, GAUGE_32, TIME_TICKS, OPAQUE, COUNTER_64, UINT_32} {
        o := Ok(Unsupported);
      } else {
        o := Err;
      }
    }

    method DecodeVarbind() returns (o: Outcome<Varbind>)
      modifies this
      ensures Matches(o, buf, Messages.DecodeVarbind(AsWritten, old(buf)))
      ensures !o.Panic? ==> pos + |buf| + VarbindLag(old(buf)) == old(pos + |buf|)
    {
      hide Headers.DecodeHeader, DecodeOidWithHeader, Messages.DecodeValue, BlockLag;
      var h := DecodeHeader();
      if !h.Ok? {
        return Err;
      }
      var startDecoderLen := |buf|;
      if h.value.tag != SEQUENCE {
        return Err;
      }
      var oid := DecodeObjectIdentifierWithHeader();
      if !oid.Ok? {
        return if oid.Err? then Err else Panic;
      }
      var value := DecodeValue();
      if !value.Ok? {
        return if value.Err? then Err else Panic;
      }
      match value.value
      case Int64(_) => return Panic;
      case Unsupported => return Err;
      case Known(v) =>
        if startDecoderLen - |buf| != h.value.length {
          return Err;
        }
        o := Ok(Varbind(oid.value, v));
    }

    method DecodeVarbinds() returns (o: Outcome<seq<Varbind>>)
      modifies this
      ensures Matches(o, buf, Messages.DecodeVarbinds(AsWritten, old(buf)))
      ensures !o.Panic? ==> pos + |buf| + VarbindsLag(old(buf)) == old(pos + |buf|)
    {
      hide Headers.DecodeHeader, Messages.DecodeVarbind, VarbindLag;
      var h := DecodeHeader();
      if !h.Ok? {
        return Err;
      }
      if h.value.tag != SEQUENCE {
        return Err;
      }
      if h.value.length != |buf| {
        return Err;
      }
      var varbinds: seq<Varbind> := [];
      while true
        invariant DecodeVarbindList(AsWritten, varbinds, buf) == Messages.DecodeVarbinds(AsWritten, old(buf))
        invariant pos + |buf| + VarbindsLag(old(buf)) == old(pos + |buf|) + ListLag(buf)
        decreases |buf|
      {
        var varbind := DecodeVarbind();
        if !varbind.Ok? {
          return if varbind.Err? then Err else Panic;
        }
        varbinds := varbinds + [varbind.value];
        if |buf| == 0 {
          return Ok(varbinds);
        }
      }
    }

    method DecodeRequestResponse(version: int64, community: bytes, pduType: byte) returns (o: Outcome<Decoded>)
      modifies this
      ensures Matches(o, buf, Messages.DecodeRequestResponse(AsWritten, version, community, pduType, old(buf)))
    {
      hide DecodeUint32, DecodeInt32, Messages.DecodeVarbinds;
      var requestId := DecodeUint32WithHeader();
      if !requestId.Ok? {
        return Err;
      }
      var errorVal := DecodeInt32WithHeader();
      if !errorVal.Ok? {
        return Err;
      }
      if errorVal.value > MAX_ERROR {
        return Err;
      }
      var errorIdx := DecodeInt32WithHeader();
      if !errorIdx.Ok? {
        return Err;
      }
      var varbinds := DecodeVarbinds();
      if !varbinds.Ok? {
        return if varbinds.Err? then Err else Panic;
      }
      o := Ok(Pdu(Message(version, community, pduType, requestId.value, errorVal.value, errorIdx.value, varbinds.value)));
    }

    method DecodeCommunityMessage(version: int64) returns (o: Outcome<Decoded>)
      modifies this
      ensures Matches(o, buf, Messages.DecodeCommunityMessage(AsWritten, version, old(buf)))
    {
      hide Headers.DecodeHeader, Messages.DecodeOctetStringWithHeader, Messages.DecodeRequestResponse;
      var community := DecodeOctetStringWithHeader();
      if !community.Ok? {
        return Err;
      }
      var h := DecodeHeader();
      if !h.Ok? {
        return Err;
      }
      if h.value.length != |buf| {
        return Err;
      }
      var pduType := h.value.tag;
      if pduType in {GET_REQUEST, GET_NEXT_REQUEST, SET_REQUEST, RESPONSE} {
        o := DecodeRequestResponse(version, community.value, pduType);
      } else if pduType == GET_BULK_REQUEST {
        if version == VERSION_1 {
          return Err;
        }
        o := DecodeRequestResponse(version, community.value, pduType);
      } else if pduType == V1_TRAP {
        if version != VERSION_1 {
          return Err;
        }
        o := Ok(Trap(version, community.value));
      } else {
        o := Err;
      }
    }
  }

  method DecodeMsg(rawMsg: bytes) returns (o: Outcome<Decoded>)
    ensures o == Messages.DecodeMsg(AsWritten, rawMsg).Outcome()
  {
    hide Headers.DecodeHeader, Messages.DecodeIntegerWithHeader, Messages.DecodeCommunityMessage;
    var decoder := new BerDecoder(rawMsg);
    var h := decoder.DecodeHeader();
    if !h.Ok? {
      return Err;
    }
    if h.value.tag != SEQUENCE {
      return Err;
    }
    if h.value.length != |decoder.buf| {
      return Err;
    }
    var version := decoder.DecodeIntegerWithHeader();
    if !version.Ok? {
      return Err;
    }
    if version.value == VERSION_1 || version.value == VERSION_2C {
      o := decoder.DecodeCommunityMessage(version.value);
    } else {
      o := Err;
    }
  }
}
