# A verified model of the SNMP package

The package encodes and decodes SNMP v1/v2c community messages, tracks outstanding requests with timers
and retries, looks up agent handlers by object identifier, and keeps statistics in fifteen-minute bins.
This project models these parts in Dafny and proves what they promise. Where the code does less than its
comments or the standards say, the model follows the code, and a theorem says exactly when the promise
holds.

`dafny verify dfyconfig.toml` checks everything.

## How it is organised

| file | contents |
|---|---|
| `GoTypes.dfy` | Go's integer widths and wrap-around, `Outcome` (value, error, panic), `Step` (the same for a reader, with what is left unread) |
| `Integers.dfy`, `Headers.dfy`, `ObjectIdentifiers.dfy` | BER integers, block headers and lengths, base-128 arcs and identifiers |
| `Messages.dfy` | the messages and their encoding and decoding as pure functions: the reference |
| `RoundTrip.dfy`, `Cursor.dfy`, `Exactness.dfy` | decoding undoes encoding; what the cursor consumes; where the decoder as written falls short, exactly |
| `Wire.dfy` | messages octet by octet, which ones can be encoded and which come back, all in figures |
| `Accepted.dfy` | what the decoder accepts from any sender, octet by octet, in both directions |
| `Encoder.dfy` | buffers, the shared recycling pool, the encoder's buffer chain and back-patched headers, in place |
| `Interleaving.dfy` | several encoders at work on one pool, in any order |
| `Decoder.dfy`, `Dropped.dfy` | the cursor and its position, in place; what the errors that decodeValue drops leave behind |
| `OidOrder.dfy`, `Agent.dfy` | the order on identifiers, handler registration and lookup |
| `BitStrings.dfy` | bits set and cleared in place |
| `Tracker.dfy`, `TrackerRuns.dfy` | the request tracker as a state machine: invariant, whole runs |
| `RequestTracker.dfy` | the tracker's select cases on mutable requests, map and timers, each proved to be one step of the state machine |
| `EndToEnd.dfy` | a request from the tracker over the wire and back |
| `Stats.dfy` | the statistics bins |

The decoder functions take a `Reading`. `AsWritten` is the code. `PerStandard` is what X.690 and the code's
own range checks mean: lengths masked to seven bits, arcs up to 32 bits, two-arc identifiers, INTEGER
varbinds read as int32. The imperative decoder is proved equal to the `AsWritten` reading. The main round
trip holds for both readings, each on its own domain; for `AsWritten` the domain is proved exact.

Go's `int` is taken to be 64 bits wide. A Go panic (failed type assertion, index out of range, nil
dereference) is a result of its own, never excluded by a precondition.

The tracker is modelled as a relation over its events: a client sends, the tracker accepts, a response
arrives, a timer expires, an expired timer's id is delivered, a client returns. The network is any source
of responses, late, duplicate or for unknown ids, and timers expire in any order.

## Where the code and its documentation differ

- `decodeLength` (decoder.go:43-47) takes the whole first octet as the octet count and treats 127 as long
  form, although the encoder writes `0x80 | n`: no block of 127 octets or more is read back
  (`HeaderReadBackExactly`, `LongMessageIsLost`).
- `decodeValue` (decoder.go:71, varbind.go:245) yields an int64 where an int32 is asserted: an INTEGER varbind
  makes the decoder panic, unless its identifier or a header is refused before (`IntegerValuePanics`).
- `decodeValue` also drops the errors of all value decoders (decoder.go:99): varbinds are accepted with a zero
  value in place (`AcceptedValueExactly`, `AcceptedWithoutAValue`), and after a dropped error of an identifier
  the position falls behind the cursor (`LagOfAnIdentifier`).
- `decodeObjectIdentifier` (objectIdentifier.go:86-123) always reads a third arc and stops at 28 bits, and
  panics on identifiers of no octets or one (`OidReadBackExactly`, `OidIndexSafety`).
- `encodeIPv4Address` (ipAddress.go:16) writes `addr` itself, a sixteen-byte address whole, and it does not come
  back (`SixteenByteAddressIsRefused`).
- `Compare` is documented to return -1, 0 or 1 but returns the difference of the first arcs that differ.
- `lookupHandler` (agent.go:72-90) is documented to serve identifiers below a registered one; it finds a
  handler only for exactly the registered identifier (`Agents.Agent.LookupHandler`). Its log message says
  that no handlers are bound; it appears for every request above the last registered identifier (the same
  contract).
- The index guards of `BitString` (bitstring.go:26,35,45) admit the index `bitLength`
  (`BitStrings.BitString.Set`).
- Request ids wrap around after 2^32 requests, and the id is not checked to be free
  (`AcceptKeepsInvIffFresh`, `OneMoreLosesARequest`, `LostForever`).
- `trackStats` takes the seconds already gone in the current quarter of an hour as the length of the first
  period; started exactly on the quarter it never rolls over (`ZeroStartNeverRollsOver`). A query for a bin
  that is not available panics instead of reporting an error (snmp.go:293-299).

## Model

Functions without a contract of their own (the encoding and decoding functions of `Messages`, `Tracker.Next`,
`TrackerRuns.After`, `StatTrackers.InPeriod`, ...) are the definitions that these statements are about.

| member | source | states |
|---|---|---|
| `Integers.IntLenIsLeast` | integer.go:48-57 | The octet count is minimal for every integer: `v` fits n octets of two's complement, -2^(8n-1) <= v < 2^(8n-1), exactly when n is at least the count (section 8.3.2 of X.690). |
| `Integers.Int64UsesAtMostEightOctets` | integer.go:48-57 | No int64 needs more than eight octets. |
| `Integers.Calculate2sComplementIntLen` | integer.go:48-57 | The two counting loops, one per sign, return the least number of octets the value fits in, for every int64. |
| `Integers.ShiftsSignExtend` | integer.go:109-125 | For one to eight octets, shifting up and down with the wrap-around of int64 and uint8 reads the octets as two's complement. |
| `Integers.SignedValueInverts` | integer.go:40-46 | Decoding the octets written for any int64 restores it. |
| `Integers.SignedValueNeedsItsLength` | integer.go:109-125 | A value read from n >= 1 octets never needs more than n to be written. |
| `Integers.NoOctetsReadAsZero` | integer.go:109-125 | An INTEGER without content reads as zero instead of failing. |
| `Headers.LengthLenIsLeast` | encoder.go:90-96 | The count of length octets is the least that holds the length. |
| `Headers.CalculateLengthLen` | encoder.go:90-96 | The counting loop returns that least count, truncated to a byte as the source does; for every Go int the truncation changes nothing. |
| `Headers.LengthRoundTrip` | decoder.go:36-60 | decodeLength recovers the length from setContentLength's octets: below 127 as written, for every Go int when the octet is masked (section 8.1.3.5 of X.690). |
| `Headers.HeaderRoundTrip` | decoder.go:19-60 | decodeHeader recovers type and length of a block when its content follows, and stops at the content. |
| `Headers.HeaderReadBackExactly` | decoder.go:36-60 | As written, a header comes back if and only if its content is shorter than 127 octets. |
| `Headers.LongFormIsOverread` | decoder.go:43-55 | From 127 octets on, an accepted header has eaten 128 octets of what should be its content. |
| `Headers.HeaderCost` | decoder.go:19-60 | Every header the decoder accepts cost it two octets and announces less than 127, or cost it at least 129; the content it announces is there. |
| `ObjectIdentifiers.Base128LenIsLeast` | integer.go:75-81 | The number of base-128 groups is the least that holds the arc. |
| `ObjectIdentifiers.CalculateBase128IntLen` | integer.go:75-81 | The counting loop returns that number. |
| `ObjectIdentifiers.Base128IsMinimal` | integer.go:59-73 | No arc is written with a leading 0x80, and exactly the last octet is without the continuation bit (section 8.19.2 of X.690). |
| `ObjectIdentifiers.Base128RoundTrip` | objectIdentifier.go:125-144 | Whatever octets follow, decoding an arc restores it and leaves exactly those octets: below 2^28 as written, for every uint32 as meant. |
| `ObjectIdentifiers.Base128Cost` | objectIdentifier.go:125-144 | Every arc the decoder accepts takes at least one octet and no fewer than the encoder would write. |
| `ObjectIdentifiers.OidRoundTrip` | objectIdentifier.go:86-123 | Every identifier in the reading's range is decoded from its content, whatever follows. |
| `ObjectIdentifiers.OidBlockRoundTrip` | objectIdentifier.go:60-84 | Every identifier in the reading's range is decoded from its block, whatever follows. |
| `ObjectIdentifiers.OidReadBackExactly` | objectIdentifier.go:60-72 | As written, an identifier the encoder accepts comes back if and only if it has at least three arcs, its first octet holds 40a + b and its other arcs are below 2^28. |
| `ObjectIdentifiers.OidIndexSafety` | objectIdentifier.go:86-123 | Content of two octets or more is never written outside the slice of numBytes + 1; the decoder panics exactly for no octets, or for one when another arc can be read behind it. |
| `ObjectIdentifiers.OidCost` | objectIdentifier.go:86-123 | A successful decode takes exactly its block, returns an identifier in its range, and spends no less than the encoder would. |
| `ObjectIdentifiers.OidDecodedExactly` | objectIdentifier.go:86-144 | On arbitrary octets decodeObjectIdentifier(n) succeeds if and only if n is at least two, the octets are there, the last one ends an arc, and no four octets in a row behind the first carry the continuation bit. |
| `ObjectIdentifiers.OidOutcome` | objectIdentifier.go:60-123 | On the content of any identifier the encoder accepts the decoder succeeds exactly when there is a third arc and all from there on are below 2^28, and panics exactly when there are two arcs and another can be read behind them. |
| `OidOrder.Equal` | objectIdentifier.go:12-22 | The loop answers whether the identifiers are the same. |
| `OidOrder.Compare` | objectIdentifier.go:25-43 | The loop returns the lexicographic difference: of the first arcs that differ, or -1, 0, 1 when one is a prefix of the other. |
| `OidOrder.MatchLength` | objectIdentifier.go:45-57 | The result is the length of the longest common prefix; it is all of the first identifier exactly when that is a prefix of the second. |
| `OidOrder.OrderMeaning` | objectIdentifier.go:25-43 | The sign of a comparison, in both directions, from the first arc that differs or the one that ends first. |
| `OidOrder.OrderZero` | objectIdentifier.go:12-43 | Compare is zero exactly when Equal holds. |
| `OidOrder.OrderAntisymmetric` | agent.go:114-122 | Comparing the other way round negates the result, as the tree's two adapters need. |
| `OidOrder.OrderTransitive` | objectIdentifier.go:25-43 | The order is transitive, strictly if one of the steps is. |
| `OidOrder.PrefixInterval` | objectIdentifier.go:24-57 | Everything between a prefix and an identifier it covers is covered by that prefix. |
| `RoundTrip.IntegerRoundTrip` | integer.go:32-103 | Every int64 comes back from its block, whatever follows. |
| `RoundTrip.OctetStringRoundTrip` | octetstring.go:10-40 | Every octet string whose length the reading can read comes back. |
| `RoundTrip.PaddingIsEuclidean` | bitstring.go:77-77 | The two truncating remainders that count padding bits give (-bitLength) mod 8, for negative lengths too. |
| `RoundTrip.BitStringReadBackExactly` | bitstring.go:74-111 | A bit string comes back if and only if it has as many octets as its bits need, for every length. |
| `RoundTrip.ValueRoundTrip` | decoder.go:63-100 | Every readable value of every encodable kind comes back from decodeValue, a four-byte address in its sixteen-byte form. |
| `RoundTrip.VarbindRoundTrip` | varbind.go:226-281 | A readable varbind comes back, with exactly the octets after it left over. |
| `RoundTrip.VarbindListRoundTrip` | msg.go:137-159 | The loop over a non-empty list of readable varbinds returns them in order and leaves nothing. |
| `RoundTrip.MessageReduces` | msg.go:446-469 | The four levels of nesting around the varbinds, version, community, PDU type, request id and error fields are read back for every message with a readable head; what decodeMsg returns depends on the varbind list alone. |
| `RoundTrip.MessageRoundTrip` | msg.go:248-290 | Main result: decodeMsg of encode returns every message in the reading's domain, with version, community, PDU type, request id, error fields and varbinds in order, and nothing left over. |
| `Exactness.ValueImage` | decoder.go:63-100 | What decodeValue can return as written, the zero values after dropped errors included. |
| `Exactness.VarbindListImage` | msg.go:148-158 | Every varbind the loop accepts has a readable identifier and such a value; there is at least one, and the varbinds already collected stay in front. |
| `Exactness.DecoderImage` | msg.go:446-469 | Every request or response decodeMsg accepts has a supported version and PDU type, an error value within range, at least one varbind, and only such varbinds; a trap it accepts is of version 1. |
| `Exactness.AddressCost` | decoder.go:82-99 | A shorter form of an address that ends no earlier than the one written saves nothing, but for a failing head at the very place of a sixteen-byte block. |
| `Exactness.AlignedCost` | msg.go:148-158 | When the octets a list is read from and those written for it end the same message, it is never read from fewer than were written, short forms of addresses and dropped errors included. |
| `Exactness.ContentCost` | msg.go:181-226 | A message's content is decoded from at most 12 octets fewer than are written for it, so an over-read header cannot be made up for. |
| `Exactness.LongMessageIsLost` | encoder.go:75-88 | As written, no message of 127 octets of content or more comes back, whatever its varbinds. |
| `Exactness.SixteenByteAddressIsRefused` | ipAddress.go:9-46 | A varbind under 127 octets with a sixteen-byte address never comes back: it is refused, or, exactly for an identifier of two arcs, makes the decoder panic. |
| `Exactness.ListNeedsReadable` | msg.go:137-159 | If a list comes back, each of its varbinds was readable: the converse of the list round trip. |
| `Exactness.MessageReadBackExactly` | msg.go:248-290 | Main result for the code as written: every message that can be encoded comes back if and only if its fields are readable and its content is shorter than 127 octets. |
| `Exactness.IntegerValuePanics` | varbind.go:243-245 | For every identifier that can be encoded and a varbind under 127 octets, an INTEGER value makes the decoder panic if and only if all arcs from the third on are below 2^28; otherwise it is an error. |
| `Exactness.LongCommunityIsLost` | decoder.go:43-47 | A well-formed GET request with a community of 127 octets does not come back: a concrete message. |
| `WireForm.LengthInOctets` | encoder.go:75-96 | Lengths below 127 are one octet, up to 255 are 0x81 and one, up to 65535 are 0x82 and two, the high one first. |
| `WireForm.IntegerInOctets` | integer.go:40-57 | Values of one and of two octets, the high one first, negative ones modulo 65536. |
| `WireForm.ArcInOctets` | integer.go:59-81 | Arcs below 128 are their own octet; below 16384 two, the first with the continuation bit and the high group. |
| `WireForm.ValueOnTheWire` | constants.go:24-40 | Every value that encodes, by the tags in figures: 0x02, 0x03, 0x04, 0x05, 0x06, 0x40, 0x80, 0x81, 0x82, each with its content; an address goes out as it was passed, four octets or sixteen. |
| `WireForm.VarbindOnTheWire` | varbind.go:15-27 | A varbind is 0x30 around 0x06 with 40a + b and the other arcs, and the value. |
| `WireForm.ListOnTheWire` | msg.go:260-266 | The varbinds of a list stand one behind the other in their order. |
| `WireForm.MessageOnTheWire` | msg.go:248-271 | A message is 0x30 around 0x02 version, 0x04 community and the PDU, the PDU holds 0x02 request id, 0x02 error value, 0x02 error index in this order and 0x30 around the list (section 3 of RFC 3416). |
| `WireForm.IntegersInOctets` | integer.go:32-46 | 0, -129 and 256 octet by octet. |
| `WireForm.StringsInOctets` | bitstring.go:74-82 | A bit string of ten bits and an octet string octet by octet. |
| `WireForm.IdentifierInOctets` | objectIdentifier.go:60-72 | 1.3.6.1.4.1.311 octet by octet. |
| `WireForm.AddressesInOctets` | ipAddress.go:9-19 | 10.0.0.1 in four octets and in sixteen, octet by octet. |
| `WireForm.GetRequestInOctets` | msg.go:248-271 | A whole GET request for sysName.0 octet by octet. |
| `WireForm.EncodedExactly` | objectIdentifier.go:60-63 | Main result: a message encodes if and only if every name and every identifier value has two arcs or more, the first at most 6 and the second below 40, every address four octets or sixteen that start with ten 0x00 and two 0xFF, and no bit string is nil; otherwise the first varbind that does not decides, a nil bit string under a good name with a panic, anything else with an error. |
| `WireForm.HeadInFigures` | msg.go:196-218 | The heads that the round trips speak of are version 0 or 1, PDU type 0xA0 to 0xA3 or, in version 1, 0xA5, and an error value of at most 18. |
| `WireForm.RequestsAndResponsesComeBack` | msg.go:446-469 | Main result in figures, for both readings: every request or response with such a head and a non-empty list of varbinds that can be sent and read comes back, up to 128 octets in all as written. |
| `WireForm.ComesBackExactly` | msg.go:248-290 | Main result in figures for the code as written: what encodes comes back if and only if its head is one of these, it has a varbind, each has three arcs or more with a first octet up to 255 and the others below 2^28 and a readable value other than INTEGER, and the message is no longer than 128 octets. |
| `WireForm.OnlyRequestsAndResponses` | msg.go:196-218 | Whatever octets come in, a request or response that is accepted has such a head and a varbind, and a trap is of version 1. |
| `WireForm.EveryTypeComesBack` | msg.go:196-208 | A request for sysName.0 comes back for each of these types of PDU, SET included. |
| `AcceptedForm.HeaderIsRead` | decoder.go:19-60 | Every header of one length octet below 127, or of one from 127 on that counts the octets behind it, is read, from any sender. |
| `AcceptedForm.OnlyHeadersAreRead` | decoder.go:19-60 | Nothing else is read as a header. |
| `AcceptedForm.IntegerIsRead` | integer.go:85-125 | An INTEGER of any length, minimal or not, is read with the sign-extended value of its content. |
| `AcceptedForm.IntegerMeaning` | integer.go:109-125 | Up to eight octets are read as their number in two's complement. |
| `AcceptedForm.LongFormsOfOne` | integer.go:109-125 | 1 and -1 in four octets. |
| `AcceptedForm.ValueByTag` | decoder.go:68-99 | What decodeValue makes of a block's content and what it leaves, for every tag in figures, dropped errors and unsupported kinds included. |
| `AcceptedForm.AddressesAreRead` | ipAddress.go:33-46 | 10.0.0.1 is read in its sixteen-byte form; an address of no octets as 0.0.0.0. |
| `AcceptedForm.IdentifierIsRead` | objectIdentifier.go:86-144 | From any sender: the first octet gives its quotient and remainder by 40, and every arc of one to four octets the number of its seven-bit groups, padded or not. |
| `AcceptedForm.VarbindIsRead` | varbind.go:226-281 | A SEQUENCE whose declared length is taken up by an identifier and a value of a supported kind other than INTEGER is accepted as that varbind. |
| `AcceptedForm.OnlyVarbindsAreRead` | varbind.go:226-281 | Nothing else is accepted as a varbind. |
| `AcceptedForm.TypesOfPdu` | msg.go:181-226 | For every version and PDU type in figures: whether the fields are decoded, the trap is returned, or the message refused. |
| `AcceptedForm.MessageIsRead` | msg.go:137-290 | Main result: whoever encoded it and in whatever lengths, octets that are framed as a message, the three nested blocks reaching to the end, are read as their fields and the varbinds of their list. |
| `AcceptedForm.OnlyFramedMessagesAreRead` | msg.go:446-469 | The converse: from any octets, a request or response is accepted only if they are framed so and hold those fields. |
| `Cursors.OidTakesItsLength` | objectIdentifier.go:86-123 | decodeObjectIdentifier(n) takes exactly n octets when it succeeds, in both readings, and only moves forward when it fails. |
| `Cursors.ValuesTakeTheirLength` | octetstring.go:30-40 | The integer, octet string, bit string and address decoders take exactly n octets when they succeed. |
| `Cursors.ContentMovesForward` | decoder.go:68-99 | decodeValue's switch only moves forward, after the errors it drops too. |
| `Cursors.VarbindTakesItsBlock` | varbind.go:226-281 | An accepted varbind is exactly the block its header declares, and nothing past it, whatever errors were dropped inside. |
| `Cursors.VarbindListIsBlocks` | msg.go:148-158 | The octets of an accepted list fall apart into as many SEQUENCE blocks as varbinds were returned, without a remainder. |
| `Messages.DecodeVarbind` | msg.go:148-158 | An accepted varbind leaves strictly fewer octets, so the loop over varbinds ends on every input. |
| `Encoders.Buffer.WriteLength` | encoder.go:75-84 | The loop over the length octets writes the short or the long form of the length. |
| `Encoders.Buffer.Encode2sComplementInt` | integer.go:40-46 | The loop writes the minimal two's-complement octets of the value. |
| `Encoders.Buffer.EncodeBase128Int` | integer.go:59-73 | The loop writes the base-128 groups of the arc and returns their number; zero is one octet. |
| `Encoders.Buffer.WriteOid` | objectIdentifier.go:66-69 | The first octet and the loop over the arcs write the identifier's content. |
| `Encoders.BufferPool.GetBuffer` | bufferPool.go:23-38 | The oldest free buffer, or a new one; it is empty, nobody holds it, and the pool stays sound for all its encoders. |
| `Encoders.BufferPool.PutBuffer` | bufferPool.go:41-50 | The buffer is emptied and kept exactly if the free list has room, and the pool stays sound for the other encoders. |
| `Encoders.ChainsAreDisjoint` | bufferPool.go:23-50 | In a sound pool no buffer is in two chains, twice in one, or in a chain and the free list. |
| `Encoders.BerEncoder.constructor` | encoder.go:29-35 | A new encoder has an empty chain and joins the encoders of the pool. |
| `Encoders.BerEncoder.Append` | encoder.go:59-63 | One empty buffer joins the end of the chain; the rest of the chain and every other encoder of the pool are untouched. |
| `Encoders.BerEncoder.NewHeader` | encoder.go:69-73 | One buffer that holds the block type joins the end of the chain; the rest of the chain and every other encoder are untouched. |
| `Encoders.BerEncoder.SetContentLength` | encoder.go:75-88 | Back-patching: only the octets of that header change, to the header of a block of the given length, and the lengths returned are those of the octets really there. |
| `Encoders.BerEncoder.EncodeInteger` | integer.go:32-38 | The buffers appended hold the block of the value, and the length returned is theirs. |
| `Encoders.BerEncoder.EncodeOctetString` | octetstring.go:10-16 | The buffers appended hold the block of the octet string, and the length returned is theirs. |
| `Encoders.BerEncoder.EncodeBitString` | bitstring.go:74-82 | The buffers appended hold the block of the bit string, padding count first, and the length returned is theirs. |
| `Encoders.BerEncoder.EncodeNull` | null.go:5-9 | The buffer appended holds the empty block of NULL or one of the three exceptions, and the length returned is its own. |
| `Encoders.BerEncoder.EncodeObjectIdentifier` | objectIdentifier.go:60-72 | The buffers appended hold the block of the identifier, and the length returned is theirs; an identifier that cannot be encoded is an error. |
| `Encoders.BerEncoder.EncodeIPv4Address` | ipAddress.go:9-19 | The buffers appended hold the block of the address as it was passed, sixteen bytes or four; an address without a four-byte form is an error. |
| `Encoders.BerEncoder.EncodeVarbind` | varbind.go:15-27 | Header first, content behind it, length last: the buffers appended hold the nested block of the varbind, and the length returned is theirs; the first error or panic decides. |
| `Encoders.BerEncoder.EncodeVarbindList` | msg.go:258-267 | For a varbind list of any length the loop and the header completed after it append the nested block of the list and return its length. |
| `Encoders.BerEncoder.EncodePdu` | msg.go:254-268 | The buffers appended hold the PDU's block, completed after the list inside it, and the length returned is theirs. |
| `Encoders.BerEncoder.EncodeFields` | msg.go:251-269 | The buffers appended hold the whole message, its outermost header completed last. |
| `Encoders.BerEncoder.Serialize` | encoder.go:37-49 | The loop returns the octets of the chain's buffers in order and leaves every other encoder untouched. |
| `Encoders.BerEncoder.Destroy` | encoder.go:51-57 | The buffers go back in order, as many as there is room for, all of them empty; the chains and octets of the other encoders stay. |
| `Encoders.EncodeMessage` | msg.go:248-271 | Main result: on any sound pool, whatever it recycled before, the in-place encoder returns exactly the reference encoding or its error or panic, and leaves the pool sound and every live encoder as it was. |
| `Interleaving.Interleave` | bufferPool.go:23-50 | Main result: whatever encoders are created, used and destroyed on one pool, their calls interleaved in any way, each finished one returns what it would have written alone or its first failure, the encoders that were there before keep what they hold, and the pool stays sound. |
| `Decoders.BerDecoder.DecodeLength` | decoder.go:36-60 | The loop over length octets does what the reference says, as written, and the position stays in step with the cursor. |
| `Decoders.BerDecoder.DecodeHeader` | decoder.go:19-33 | Reading a header does what the reference says, as written: type and length, or an error, the octets left, and the position in step. |
| `Decoders.BerDecoder.DecodeInteger` | integer.go:105-125 | The loop over the content octets of an integer accumulates with int64 wrap-around and sign-extends as the reference does; position in step. |
| `Decoders.BerDecoder.DecodeInt32WithHeader` | integer.go:127-146 | An integer with its header, refused outside the range of int32 after it was consumed; position in step. |
| `Decoders.BerDecoder.DecodeUint32WithHeader` | integer.go:148-167 | An integer with its header, refused outside the range of uint32 after it was consumed; position in step. |
| `Decoders.BerDecoder.DecodeOctetString` | octetstring.go:30-40 | Exactly the octets asked for, or an error with nothing consumed; position in step. |
| `Decoders.BerDecoder.DecodeBitString` | bitstring.go:86-111 | Octets and bit length from the padding count, or the reference's error; position in step. |
| `Decoders.BerDecoder.DecodeBase128Int` | objectIdentifier.go:125-144 | The loop reads an arc of at most four octets as the reference does; after an error the position is behind the cursor by exactly the octets eaten. |
| `Decoders.BerDecoder.DecodeObjectIdentifier` | objectIdentifier.go:86-123 | The loop that fills the slice ends as the reference does, with the identifier, an error or an index out of range; unless it panics, the position is behind by exactly what a failing arc has eaten. |
| `Decoders.BerDecoder.DecodeArcs` | objectIdentifier.go:104-122 | Its loop fills the rest of the slice arc by arc: the same result as the reference from the third element on, with the exact position. |
| `Decoders.BerDecoder.DecodeIPv4Address` | ipAddress.go:33-46 | Four octets become a sixteen-byte address, any other length is an error with nothing consumed; position in step. |
| `Decoders.BerDecoder.DecodeValue` | decoder.go:63-100 | Value, error or panic and the octets left are the reference's, dropped errors included; the position is behind by exactly the lag of an identifier that failed, 0 for every other kind. |
| `Decoders.BerDecoder.DecodeVarbind` | varbind.go:226-281 | Varbind, error or panic and the octets left are the reference's, the failing type assertion and the check of the consumed length included; the position is behind by exactly the lags of name and value. |
| `Decoders.BerDecoder.DecodeVarbinds` | msg.go:137-159 | The loop over varbinds ends on every input, as the reference does, and leaves the position behind by exactly the sum of the varbinds' lags. |
| `Decoders.BerDecoder.DecodeRequestResponse` | msg.go:273-290 | Request id, error fields and varbinds are read in order, and the first error or panic decides, as in the reference. |
| `Decoders.BerDecoder.DecodeCommunityMessage` | msg.go:181-226 | Community, PDU header and the switch over PDU types and versions end as in the reference. |
| `Decoders.DecodeMsg` | msg.go:446-469 | Main result: for every octet string the in-place decoder ends as the reference does, with its message, error or panic. |
| `Decoders.LagOfAnIdentifier` | objectIdentifier.go:104-143 | A decoded identifier leaves the position in step; one that failed, at most four octets behind. |
| `DroppedErrors.AcceptedValueExactly` | decoder.go:68-99 | In an accepted varbind the value was really decoded if and only if its block is sound: a bit string has a padding count of at most seven, an identifier whole arcs of at most four octets, an address four octets. Otherwise the zero value of its kind was stored. |
| `DroppedErrors.AcceptedValueOverrun` | varbind.go:277-279 | How far the value's block runs past an accepted varbind, kind by kind: not at all when decoded, by all of its content for NULL, the exceptions and a refused address, by all but the padding count for a bit string. |
| `DroppedErrors.AcceptedWithoutAValue` | decoder.go:99-99 | A concrete varbind with an identifier value that never ends: accepted with the empty identifier, the position two octets behind. |
| `BitStrings.BitString.IsSet` | bitstring.go:25-32 | Within the guard the answer is membership in the set of bits, whose numbering LeadingBitFirst fixes; outside false; a panic exactly when the octet does not exist. |
| `BitStrings.BitString.Set` | bitstring.go:34-42 | The set of bits gains exactly that bit. The index bitLength passes the guard: without padding it panics, with padding it sets a padding bit; every other index leaves the padding zero. |
| `BitStrings.BitString.Clear` | bitstring.go:44-52 | The set of bits loses exactly that bit, and zero padding stays zero. |
| `BitStrings.LeadingBitFirst` | bitstring.go:29-31 | Bit i is set if and only if octet i / 8 as a number, divided by 2^(7 - i mod 8), is odd: in memory and, behind the padding count, on the wire, the leading bit first (section 8.6.2 of X.690). |
| `BitStrings.BitString.Perform` | bitstring.go:34-52 | Any sequence of sets and clears within the bit string does to it what it does to an abstract set, and the padding stays zero. |
| `BitStrings.NewBitString` | bitstring.go:14-23 | All bits clear and as many octets as needed for every length from zero on; which negative lengths panic. |
| `BitStrings.BitsComeBack` | bitstring.go:74-111 | What is decoded from a bit string's encoding has the same bits and the same length. |
| `Agents.TableInsert` | agent.go:101-106 | Putting a node at its place in the sorted tree, in place of an equal one, is one update of the map from identifiers to handlers. |
| `Agents.Agent.Search` | agent.go:75-75 | The position found splits the tree: everything before it is below the identifier, nothing from it on is. |
| `Agents.Agent.Register` | agent.go:101-106 | The map of handlers gains or changes exactly that entry and the tree stays sorted. |
| `Agents.RegisterAll` | agent.go:101-106 | After any sequence of registrations the tree is the map that they make one after the other. |
| `Agents.LastRegistrationCounts` | agent.go:101-106 | In that map the last handler registered under an identifier is the one that counts. |
| `Agents.Agent.LookupHandler` | agent.go:72-90 | As written, a node is returned if and only if the requested identifier is itself registered, and it is that node; the message that no handlers are bound is logged exactly when the request is above everything registered. |
| `Agents.Agent.LookupCovering` | agent.go:82-86 | The lookup the comment describes, for every table: a node is returned if and only if the greatest registered identifier not above the request is a prefix of it, and it is that node. |
| `Agents.CoverIsLongest` | agent.go:82-86 | What that lookup finds is the longest registered prefix of the request. |
| `Agents.PrefixCovers` | agent.go:82-86 | On a prefix-free table it finds a node whenever any registered identifier is a prefix of the request. |
| `Agents.CoverIsUnique` | agent.go:82-86 | In a prefix-free table at most one identifier is a prefix of a request. |
| `Tracker.AcceptKeeps` | snmp.go:385-391 | Accepting a request whose id is free keeps the whole invariant. |
| `Tracker.RespondKeeps` | snmp.go:393-403 | Any response, expected, late, duplicate or for an unknown id, keeps the invariant. |
| `Tracker.DeliverKeeps` | snmp.go:405-423 | Any delivered timeout keeps it: for an unknown id, with a retry left, or for the last time. |
| `Tracker.StepKeeps` | snmp.go:380-430 | Every event that does not reuse an id keeps: keys equal ids and the map holds exactly the outstanding requests; each has exactly one timer, armed or in flight; a notified request carries exactly one outcome; accepted = released + exhausted + outstanding; forwarded = accepted + timed out; unknown timeouts plus stale timers never exceed responses released. |
| `TrackerRuns.StepKeepsIds` | snmp.go:381-387 | The n-th request accepted has id n modulo 2^32, for ever. |
| `TrackerRuns.FreshWhileFewerThan2To32` | snmp.go:386-388 | Until 2^32 requests have been accepted the next id is used by no request and no timer in flight. |
| `TrackerRuns.RunsAreSafe` | snmp.go:380-430 | Main result: every run from the start that never reuses an id in use, of any length, ends in the invariant with statistics that are the sums over its requests, whatever the network, the timers and the clients do. |
| `TrackerRuns.InvThroughoutIffFresh` | snmp.go:380-430 | The runs that keep the invariant in every state are exactly those that never reuse an id in use. |
| `TrackerRuns.ShortRunsAreSafe` | snmp.go:380-430 | Every run that accepts at most 2^32 requests is one of them. |
| `TrackerRuns.SafeRunsOfAnyLength` | snmp.go:385-391 | For every n there is such a run that accepts n requests, ids wrapping around as often as it takes. |
| `TrackerRuns.AcceptKeepsInvIffFresh` | snmp.go:385-391 | Accepting a request keeps the invariant if and only if the next id is free. |
| `TrackerRuns.NotifiedExactlyWhenRemoved` | snmp.go:393-423 | A request is notified on the step that takes it out of the map, and on no other; that step is a response with its id or a delivered timeout, and the request carries exactly that outcome. |
| `TrackerRuns.ReturnedWithOneOutcome` | v2cClient.go:52-62 | When SendRequest returns, the request was notified once, with a response to its own id or a timeout error and not both, after exactly budget + 1 sends in case of a timeout and at most that many otherwise. |
| `TrackerRuns.SentWithinBudget` | msg.go:335-341 | In every reachable state each request was forwarded at most budget + 1 times, and exactly so often if it timed out. |
| `TrackerRuns.AsTheClientAsked` | v2cClient.go:52-58 | In every run a request belongs to the client that sent it and has the budget of retries that this client asked for. |
| `TrackerRuns.SentAsOftenAsAsked` | v2cClient.go:58-58 | So it is forwarded at most once and once per retry asked for, and exactly so often if it timed out. |
| `TrackerRuns.SilentAgent` | snmp.go:405-423 | For any number of retries asked for there is a run in which nobody answers, the request is forwarded once and once per retry, and then ends in a timeout, with the statistics in figures. |
| `TrackerRuns.KnownWasSent` | snmp.go:375-378 | Every request the tracker knows was sent by a client. |
| `TrackerRuns.AcceptedInOrder` | snmp.go:375-387 | Requests are accepted, and so numbered, in the order in which they were sent, and none is left out. |
| `TrackerRuns.NobodyIsStuck` | v2cClient.go:58-59 | A waiting client's request is queued and can be accepted, or outstanding with a timer that can fire or be delivered, or the client can return. |
| `TrackerRuns.StepAccounted` | snmp.go:385-423 | Each step keeps the statistics equal to the sums over the requests; a timeout for an outstanding request spends exactly one of the timeouts still to come, a response at least one, and only accepting adds to them. |
| `TrackerRuns.EveryEventIsCounted` | snmp.go:375-423 | In every run each request sent is counted once, each response as released or dropped, each timeout as a retry, a last one or one for an unknown id. |
| `TrackerRuns.TimeoutsAreBounded` | msg.go:335-341 | In every reachable state timeouts handled plus timeouts still to come are at most the sum of the budgets, and so are the messages forwarded. |
| `TrackerRuns.UnansweredCounts` | v2cClient_test.go:176-185 | With no answers and nothing outstanding, every request ran out of retries and was sent exactly budget + 1 times. |
| `TrackerRuns.UnansweredWithEqualBudgets` | v2cClient_test.go:176-185 | The tests' equations for any run in which every client asks for the same budget b, nobody answers and nothing is left: exhausted = sent, timed out = sent * b, forwarded = sent * (b + 1), with sent the number of requests the clients sent. |
| `TrackerRuns.TimersRunDown` | snmp.go:405-423 | A measure drops with every timer that fires or is delivered, in whatever order. |
| `TrackerRuns.QuietMeansDone` | msg.go:319-333 | While a request is outstanding, a timer can fire or be delivered. |
| `TrackerRuns.TimersFinishEveryRequest` | snmp.go:405-423 | From every reachable state timer events alone, no more than the measure, bring every outstanding request to its end. |
| `TrackerRuns.ReuseLoses` | snmp.go:386-388 | Accepting a request under an id in use leaves the earlier request accepted, not notified, and under no id. |
| `TrackerRuns.LostForever` | snmp.go:393-423 | Such a request is never notified in any continuation, so its client waits for ever. |
| `TrackerRuns.OneMoreLosesARequest` | snmp.go:386-388 | As a bound on the number of accepts alone 2^32 is exact: a run of 2^32 + 1 accepted requests that loses the first one. |
| `RequestTrackers.CommunityRequest.StartTimer` | msg.go:319-323 | The request's latest timer is the one just armed. |
| `RequestTrackers.CommunityRequest.IsRetryRequired` | msg.go:335-341 | A retry is granted exactly while there is one, and spent; a negative budget grants none. |
| `RequestTrackers.Clock.Fire` | snmp.go:432-434 | An expired timer puts its request's id, as it is at that moment, in flight. |
| `RequestTrackers.RequestTracker.SendRequest` | v2cClient.go:52-58 | SendRequest up to the wait is the Send step: budget set, queued once, counted. |
| `RequestTrackers.RequestTracker.HandleRequest` | snmp.go:385-391 | The case works in place and is the Accept step; the request taken is the one handed to flow control, and the queue keeps holding every request as often as it was forwarded. |
| `RequestTrackers.RequestTracker.HandleResponse` | snmp.go:393-403 | The case is the Respond step; nothing is handed to flow control. |
| `RequestTrackers.RequestTracker.HandleTimeout` | snmp.go:405-423 | The case is the Deliver step; the request is handed to flow control again exactly if it had a retry left. |
| `RequestTrackers.RequestTracker.Serve` | snmp.go:383-429 | The loop over any possible sequence of events ends in the state the state machine ends in. |
| `RequestTrackers.ServeFromTheStart` | snmp.go:366-430 | Main result: a new tracker, served any events in which no id in use is reused, ends in the invariant with the right statistics; each request stands in the flow control queue at most once and once per retry that its client asked for, and exactly so often if it timed out. |
| `EndToEnd.IdComesBack` | msg.go:385-391 | For every id the tracker assigns: encode, decode, createResponse, encode and decode return a response PDU (0xA2) with that id, the request's version, an empty community and what the agent put into it. |
| `EndToEnd.ResponseFindsItsRequest` | snmp.go:393-403 | So the tracker finds the request that was sent, takes it out of the map with that response, and changes no other request. |
| `StatTrackers.StatTracker.Count` | snmp.go:288-289 | After any history, bin k still holds exactly the increments of the k-th last period, the new one in the current bin; no other bin is touched. |
| `StatTrackers.StatTracker.Shift` | snmp.go:309-311 | The loop moves every bin one place up. |
| `StatTrackers.StatTracker.OnTick` | snmp.go:306-314 | A second passes; when the period is over every bin object moves one place up and a new one starts, otherwise none moves; no counter changes, and bin k again holds exactly the increments of the k-th last period. |
| `StatTrackers.StatTracker.GetStat` | snmp.go:291-304 | A query returns the number of increments in the k-th last period, or panics exactly when there is no such bin. |
| `StatTrackers.StatTracker.GetStatsBin` | snmp.go:291-304 | For a bin that is there a query of all statistics returns a new copy with the counts of that period and how long it has lasted; otherwise it panics. |
| `StatTrackers.StatsBin.Copy` | snmp.go:271-278 | The loop copies every counter and the seconds into a new bin. |
| `StatTrackers.RolloverStep` | snmp.go:306-314 | The period ends after exactly its duration and the next starts at zero seconds; the first lasts what is asked for, the others 900 seconds. |
| `StatTrackers.ADayOfQuarters` | snmp.go:281-313 | In figures: 97 bins; the first period apart, a new one after every 900 seconds. |
| `StatTrackers.PeriodsHoldEverything` | snmp.go:286-314 | Conservation: the periods so far, discarded ones included, hold each increment exactly once. |
| `StatTrackers.ClosedPeriodsStay` | snmp.go:309-312 | No later event changes which increments belong to a closed period, so by the bins' invariant what is shown for it stays. |
| `StatTrackers.ZeroStartNeverRollsOver` | snmp.go:284-308 | Started on the quarter of an hour the bins never shift and everything stays in the current one. |

## Left out

- UDP sockets, address resolution, the receive loop and the writes of the outbound queue: the network is any source of responses, flow control a queue.
- The monitor, shutdown and restart timers: they depend on socket failures and goroutine scheduling.
- Wall-clock time and flight times: a timer is armed, may expire once, may be stopped. When a period of the statistics ends is counted in ticks.
- Channel capacities and blocking: sending to a channel always succeeds. `notify` blocks in the code until the client waits; here it is a mark that the client's return waits for.
- A request object sent again while an earlier timer of it is still in flight, or shared between clients: requests are freshly allocated, one send each, as the allocators in v2cClient.go:88-92 do.
- The llrb tree's own balancing: the tree is its sorted sequence of nodes, insertion replaces an equal node, and Ceil is a binary search.
- `processCommunityRequest`'s calls of handlers and the transactions around them: what an agent puts into its response is arbitrary.
- The V1 trap's own fields: `decode` reads none of them and `encode` writes none.
- Counter32, Gauge32, TimeTicks, Opaque, NSAP, Counter64 and Uint32 varbinds: they cannot be encoded; the decoder's refusal of them is modelled.
- Error texts, logging, `String` methods, `oid.go`, `requestPool.go`, `trapReceiver.go` and `agent_support`.
- The total length that `serialize` computes in advance: it only sizes the output buffer.
- Overflow of the statistics counters and of the decoder's position beyond 64 bits.
