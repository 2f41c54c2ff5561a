/**
 SNMP v1/v2c community messages and their BER form (msg.go, varbind.go and the value files), as
 pure functions: the reference that the imperative encoder and decoder are proved against.
 */
module Messages {
  import opened GoTypes
  import opened Integers
  import opened Headers
  import opened ObjectIdentifiers

  // ---------------------------------------------------------------------------
  // Data model

  const INTEGER: byte := 0x02
  const BIT_STRING: byte := 0x03
  const OCTET_STRING: byte := 0x04
  const NULL: byte := 0x05
  const SEQUENCE: byte := 0x30
  const IP_ADDRESS: byte := 0x40
  const COUNTER_32: byte := 0x41
  const GAUGE_32: byte := 0x42
  const TIME_TICKS: byte := 0x43
  const OPAQUE: byte := 0x44
  const COUNTER_64: byte := 0x46
  const UINT_32: byte := 0x47
  const NO_SUCH_OBJECT: byte := 0x80
  const NO_SUCH_INSTANCE: byte := 0x81
  const END_OF_MIB_VIEW: byte := 0x82

  const GET_REQUEST: byte := 0xA0
  const GET_NEXT_REQUEST: byte := 0xA1
  const RESPONSE: byte := 0xA2
  const SET_REQUEST: byte := 0xA3
  const V1_TRAP: byte := 0xA4
  const GET_BULK_REQUEST: byte := 0xA5

  const VERSION_1: int := 0
  const VERSION_2C: int := 1
  const MAX_ERROR: int := 18

  datatype BitString = BitString(octets: bytes, bitLength: int)

  /** The varbind kinds that can be encoded. `NilBits` is a BIT STRING varbind whose value is a nil
      pointer; the decoder makes one when it drops an error. */
  datatype Value =
    | Integer(i: int32)
    | Bits(bits: BitString)
    | NilBits
    | Octets(octets: bytes)
    | Null
    | ObjectId(id: Oid)
    | IpAddress(ip: bytes)
    | NoSuchObject
    | NoSuchInstance
    | EndOfMibView

  datatype Varbind = Varbind(oid: Oid, value: Value)

  datatype Message = Message(version: int64, community: bytes, pduType: byte, requestId: uint32,
                             errorVal: int32, errorIdx: int32, varbinds: seq<Varbind>)

  /** What decodeMsg returns; the trap's own fields are never decoded. */
  datatype Decoded = Pdu(msg: Message) | Trap(version: int64, community: bytes)

  // ---------------------------------------------------------------------------
  // Encoding

  function EncodeInteger(v: int64): bytes {
    Block(INTEGER, IntBytes(v))
  }

  /** Go's `%`, which truncates toward zero. */
  function GoRemainder(x: int, m: int): int
    requires m > 0
  {
    if x >= 0 then x % m else -(-x % m)
  }

  function PaddingBits(bitLength: int): byte {
    GoRemainder(8 - GoRemainder(bitLength, 8), 8)
  }

  function BitStringContent(b: BitString): bytes {
    [PaddingBits(b.bitLength)] + b.octets
  }

  const V4_IN_V6_PREFIX: bytes := [0, 0, 0, 0, 0, 0, 0, 0, 0, 0, 0xFF, 0xFF]

  /** net.IP.To4 finds a four-byte form. */
  predicate HasTo4(ip: bytes) {
    |ip| == 4 || (|ip| == 16 && ip[..12] == V4_IN_V6_PREFIX)
  }

  function EncodeValue(v: Value): Outcome<bytes> {
    match v
    case Integer(i) => Ok(EncodeInteger(i))
    case Bits(b) => Ok(Block(BIT_STRING, BitStringContent(b)))
    case NilBits => Panic
    case Octets(s) => Ok(Block(OCTET_STRING, s))
    case Null => Ok(Block(NULL, []))
    case ObjectId(id) => EncodeOid(id)
    case IpAddress(ip) => if HasTo4(ip) then Ok(Block(IP_ADDRESS, ip)) else Err
    case NoSuchObject => Ok(Block(NO_SUCH_OBJECT, []))
    case NoSuchInstance => Ok(Block(NO_SUCH_INSTANCE, []))
    case EndOfMibView => Ok(Block(END_OF_MIB_VIEW, []))
  }

  function EncodeVarbind(vb: Varbind): Outcome<bytes> {
    match EncodeOid(vb.oid)
    case Err => Err
    case Ok(name) =>
      match EncodeValue(vb.value)
      case Err => Err
      case Panic => Panic
      case Ok(value) => Ok(Block(SEQUENCE, name + value))
  }

  /** In order; the first varbind that fails decides how it ends. */
  function EncodeVarbinds(vbs: seq<Varbind>): Outcome<bytes> {
    if vbs == [] then Ok([])
    else
      match EncodeVarbind(vbs[0])
      case Err => Err
      case Panic => Panic
      case Ok(first) =>
        match EncodeVarbinds(vbs[1..])
        case Err => Err
        case Panic => Panic
        case Ok(more) => Ok(first + more)
  }

  function PduContent(m: Message, list: bytes): bytes {
    EncodeInteger(m.requestId) + EncodeInteger(m.errorVal) + EncodeInteger(m.errorIdx) + Block(SEQUENCE, list)
  }

  function MessageContent(m: Message, list: bytes): bytes {
    EncodeInteger(m.version) + Block(OCTET_STRING, m.community) + Block(m.pduType, PduContent(m, list))
  }

  function EncodeMessage(m: Message): Outcome<bytes> {
    match EncodeVarbinds(m.varbinds)
    case Err => Err
    case Panic => Panic
    case Ok(list) => Ok(Block(SEQUENCE, MessageContent(m, list)))
  }

  // ---------------------------------------------------------------------------
  // Decoding

  function DecodeInteger(n: nat, s: bytes): (st: Step<int64>)
    ensures !st.Crash? && |st.rest| <= |s|
  {
    if n <= |s| then Done(SignedValue(s[..n]), s[n..]) else Fail([])
  }

  function DecodeIntegerWithHeader(rd: Reading, s: bytes): (st: Step<int64>)
    ensures !st.Crash? && |st.rest| <= |s|
  {
    match DecodeHeader(rd, s)
    case Fail(r) => Fail(r)
    case Done(h, r) => if h.tag != INTEGER then Fail(r) else DecodeInteger(h.length, r)
  }

  /** decodeInt32 and decodeUint32: the range check after the value was read. */
  function InRange(st: Step<int64>, low: int64, high: int64): (ranged: Step<int64>)
    requires !st.Crash?
    ensures !ranged.Crash? && ranged.rest == st.rest
    ensures ranged.Done? <==> st.Done? && low <= st.value <= high
    ensures ranged.Done? ==> ranged.value == st.value
  {
    match st
    case Done(v, r) => if low <= v <= high then Done(v, r) else Fail(r)
    case Fail(r) => Fail(r)
  }

  function DecodeInt32(rd: Reading, s: bytes): (st: Step<int64>)
    ensures !st.Crash? && |st.rest| <= |s|
    ensures st.Done? ==> -0x8000_0000 <= st.value <= 0x7FFF_FFFF
  {
    InRange(DecodeIntegerWithHeader(rd, s), -0x8000_0000, 0x7FFF_FFFF)
  }

  function DecodeUint32(rd: Reading, s: bytes): (st: Step<int64>)
    ensures !st.Crash? && |st.rest| <= |s|
    ensures st.Done? ==> 0 <= st.value <= MAX_UINT32
  {
    InRange(DecodeIntegerWithHeader(rd, s), 0, MAX_UINT32)
  }

  function DecodeOctetString(n: nat, s: bytes): (st: Step<bytes>)
    ensures !st.Crash? && |st.rest| <= |s|
  {
    if n > |s| then Fail(s) else Done(s[..n], s[n..])
  }

  function DecodeOctetStringWithHeader(rd: Reading, s: bytes): (st: Step<bytes>)
    ensures !st.Crash? && |st.rest| <= |s|
  {
    match DecodeHeader(rd, s)
    case Fail(r) => Fail(r)
    case Done(h, r) => if h.tag != OCTET_STRING then Fail(r) else DecodeOctetString(h.length, r)
  }

  function DecodeBitString(n: nat, s: bytes): (st: Step<BitString>)
    ensures !st.Crash? && |st.rest| <= |s|
  {
    if n < 1 || n > |s| then Fail(s)
    else if s[0] > 7 then Fail(s[1..])
    else Done(BitString(s[1..n], (n - 1) * 8 - s[0]), s[n..])
  }

  const IPV4_ZERO: bytes := V4_IN_V6_PREFIX + [0, 0, 0, 0]

  /** net.IPv4 makes a sixteen-byte address. */
  function DecodeIpAddress(n: nat, s: bytes): (st: Step<bytes>)
    ensures !st.Crash? && |st.rest| <= |s|
  {
    if n > |s| || n != 4 then Fail(s) else Done(V4_IN_V6_PREFIX + s[..4], s[4..])
  }

  /** A value as decodeValue hands it on. An INTEGER arrives as an int64. */
  datatype RawValue = Known(value: Value) | Int64(i: int64) | Unsupported

  /** The switch of decodeValue. It returns a nil error after any of the value decoders failed, with
      the zero value in place: the failure is dropped and the cursor stays where it stopped. */
  function DecodeContent(rd: Reading, h: Header, s: bytes): (st: Step<RawValue>)
    ensures !st.Crash? ==> |st.rest| <= |s|
  {
    if h.tag == INTEGER then
      if rd.AsWritten? then
        match DecodeInteger(h.length, s)
        case Done(i, r) => Done(Int64(i), r)
        case Fail(r) => Done(Int64(0), r)
      else
        match InRange(DecodeInteger(h.length, s), -0x8000_0000, 0x7FFF_FFFF)
        case Done(i, r) => Done(Known(Integer(i)), r)
        case Fail(r) => Fail(r)
    else if h.tag == BIT_STRING then
      match DecodeBitString(h.length, s)
      case Done(b, r) => Done(Known(Bits(b)), r)
      case Fail(r) => Done(Known(NilBits), r)
    else if h.tag == OCTET_STRING then
      match DecodeOctetString(h.length, s)
      case Done(b, r) => Done(Known(Octets(b)), r)
      case Fail(r) => Done(Known(Octets([])), r)
    else if h.tag == NULL then Done(Known(Null), s)
    else if h.tag == NO_SUCH_OBJECT then Done(Known(NoSuchObject), s)
    else if h.tag == NO_SUCH_INSTANCE then Done(Known(NoSuchInstance), s)
    else if h.tag == END_OF_MIB_VIEW then Done(Known(EndOfMibView), s)
    else if h.tag == OBJECT_IDENTIFIER then
      match DecodeOid(rd, h.length, s)
      case Done(id, r) => Done(Known(ObjectId(id)), r)
      case Fail(r) => Done(Known(ObjectId([])), r)
      case Crash => Crash
    else if h.tag == IP_ADDRESS then
      match DecodeIpAddress(h.length, s)
      case Done(ip, r) => Done(Known(IpAddress(ip)), r)
      case Fail(r) => Done(Known(IpAddress(IPV4_ZERO)), r)
    else if h.tag in {COUNTER_32, GAUGE_32, TIME_TICKS, OPAQUE, COUNTER_64, UINT_32} then Done(Unsupported, s)
    else Fail(s)
  }

  function DecodeValue(rd: Reading, s: bytes): (st: Step<RawValue>)
    ensures !st.Crash? ==> |st.rest| <= |s|
  {
    match DecodeHeader(rd, s)
    case Fail(r) => Fail(r)
    case Done(h, r) => DecodeContent(rd, h, r)
  }

  /** The check at the end compares the declared length with what was really consumed. As written
      an INTEGER value fails its type assertion, an int64 that is asserted to be an int32. */
  function DecodeVarbind(rd: Reading, s: bytes): (st: Step<Varbind>)
    ensures !st.Crash? ==> |st.rest| <= |s|
    ensures st.Done? ==> |st.rest| < |s|
  {
    match DecodeHeader(rd, s)
    case Fail(r) => Fail(r)
    case Done(h, r0) =>
      if h.tag != SEQUENCE then Fail(r0)
      else
        match DecodeOidWithHeader(rd, r0)
        case Fail(r) => Fail(r)
        case Crash => Crash
        case Done(oid, r1) =>
          match DecodeValue(rd, r1)
          case Fail(r) => Fail(r)
          case Crash => Crash
          case Done(raw, r2) =>
            match raw
            case Int64(_) => Crash
            case Unsupported => Fail(r2)
            case Known(value) => if |r0| - |r2| != h.length then Fail(r2) else Done(Varbind(oid, value), r2)
  }

  /** The loop runs until nothing is left, and at least once. */
  function DecodeVarbindList(rd: Reading, acc: seq<Varbind>, s: bytes): Step<seq<Varbind>>
    decreases |s|
  {
    match DecodeVarbind(rd, s)
    case Fail(r) => Fail(r)
    case Crash => Crash
    case Done(vb, r) => if r == [] then Done(acc + [vb], r) else DecodeVarbindList(rd, acc + [vb], r)
  }

  function DecodeVarbinds(rd: Reading, s: bytes): Step<seq<Varbind>> {
    match DecodeHeader(rd, s)
    case Fail(r) => Fail(r)
    case Done(h, r) => if h.tag != SEQUENCE || h.length != |r| then Fail(r) else DecodeVarbindList(rd, [], r)
  }

  /** communityRequestResponse.decode, for the fields that decodeCommunityMessage has set. */
  function DecodeRequestResponse(rd: Reading, version: int64, community: bytes, pduType: byte, s: bytes): Step<Decoded> {
    match DecodeUint32(rd, s)
    case Fail(r) => Fail(r)
    case Done(requestId, r1) =>
      match DecodeInt32(rd, r1)
      case Fail(r) => Fail(r)
      case Done(errorVal, r2) =>
        if errorVal > MAX_ERROR then Fail(r2)
        else
          match DecodeInt32(rd, r2)
          case Fail(r) => Fail(r)
          case Done(errorIdx, r3) =>
            match DecodeVarbinds(rd, r3)
            case Fail(r) => Fail(r)
            case Crash => Crash
            case Done(vbs, r4) =>
              Done(Pdu(Message(version, community, pduType, requestId, errorVal, errorIdx, vbs)), r4)
  }

  /** The PDU types that decode to a request or a response. */
  predicate PduSupported(version: int64, pduType: byte) {
    || pduType in {GET_REQUEST, GET_NEXT_REQUEST, SET_REQUEST, RESPONSE}
    || (pduType == GET_BULK_REQUEST && version != VERSION_1)
  }

  function DecodeCommunityMessage(rd: Reading, version: int64, s: bytes): Step<Decoded> {
    match DecodeOctetStringWithHeader(rd, s)
    case Fail(r) => Fail(r)
    case Done(community, r1) =>
      match DecodeHeader(rd, r1)
      case Fail(r) => Fail(r)
      case Done(h, r2) =>
        if h.length != |r2| then Fail(r2)
        else if PduSupported(version, h.tag) then DecodeRequestResponse(rd, version, community, h.tag, r2)
        else if h.tag == V1_TRAP && version == VERSION_1 then Done(Trap(version, community), r2)
        else Fail(r2)
  }

  function DecodeMsg(rd: Reading, s: bytes): Step<Decoded> {
    match DecodeHeader(rd, s)
    case Fail(r) => Fail(r)
    case Done(h, r1) =>
      if h.tag != SEQUENCE || h.length != |r1| then Fail(r1)
      else
        match DecodeIntegerWithHeader(rd, r1)
        case Fail(r) => Fail(r)
        case Done(version, r2) =>
          if version == VERSION_1 || version == VERSION_2C then DecodeCommunityMessage(rd, version, r2) else Fail(r2)
  }
}
