/**
 One request all the way round: out of the tracker, over the wire to an agent, and back as a response
 that the tracker matches with it.
 */
module EndToEnd {
  import opened GoTypes
  import opened Headers
  import opened Messages
  import opened RoundTrip
  import T = Tracker

  /** createResponse: version and id of the request, and no community. */
  function CreateResponse(req: Message): Message {
    Message(req.version, [], RESPONSE, req.requestId, 0, 0, [])
  }

  /** The response with what the agent filled in. */
  function Answer(req: Message, errorVal: int32, errorIdx: int32, varbinds: seq<Varbind>): Message {
    CreateResponse(req).(errorVal := errorVal, errorIdx := errorIdx, varbinds := varbinds)
  }

  /** The message can be encoded, and the decoder's reading can undo it. */
  ghost predicate Travels(rd: Reading, m: Message) {
    && FieldsReadable(rd, m) && EncodeVarbinds(m.varbinds).Ok?
    && LengthReadable(rd, |MessageContent(m, EncodeVarbinds(m.varbinds).value)|)
  }

  /** The message that arrives when `m` is encoded, sent and decoded. */
  function Received(rd: Reading, m: Message): Option<Message> {
    match EncodeMessage(m)
    case Ok(octets) =>
      (match DecodeMsg(rd, octets)
       case Done(Pdu(received), _) => Some(received)
       case _ => None)
    case _ => None
  }

  /** The response that comes back when the agent answers the request `m`. */
  function Returned(rd: Reading, m: Message, errorVal: int32, errorIdx: int32, varbinds: seq<Varbind>): Option<Message> {
    match Received(rd, m)
    case None => None
    case Some(req) => Received(rd, Answer(req, errorVal, errorIdx, varbinds))
  }

  /** Whatever id the tracker gave the request, the agent's response carries the same one when it arrives: a
      response PDU (0xA2) of the request's version with what the agent put into it. */
  lemma IdComesBack(rd: Reading, m: Message, errorVal: int32, errorIdx: int32, varbinds: seq<Varbind>)
    requires Travels(rd, m) && Travels(rd, Answer(m, errorVal, errorIdx, varbinds))
    ensures Returned(rd, m, errorVal, errorIdx, varbinds)
            == Some(Message(m.version, [], 0xA2, m.requestId, errorVal, errorIdx, AsDecoded(varbinds)))
  {
    hide DecodeMsg, EncodeVarbinds, FieldsReadable, MessageContent, EncodeMessage, AsDecoded;
    MessageRoundTrip(rd, m, EncodeVarbinds(m.varbinds).value);
    MessageRoundTrip(rd, Answer(m, errorVal, errorIdx, varbinds), EncodeVarbinds(varbinds).value);
  }

  /** From `s` to `s'` the request `r` got a response with its own id and left the map, and no other request
      changed. */
  ghost predicate OnlyReleased<Q>(s: T.State<Q>, s': T.State<Q>, r: Q) {
    && r in s.requests
    && s'.requests == s.requests[r := s.requests[r].(
         phase := T.Answered, response := Some(T.Response(s.requests[r].id)), notified := s.requests[r].notified + 1)]
    && s'.outstanding == s.outstanding - {s.requests[r].id}
  }

  /** So the tracker finds the request that was sent, takes it out of its map and hands it exactly that
      response; no other request is touched. */
  lemma ResponseFindsItsRequest<Q>(rd: Reading, s: T.State<Q>, r: Q, m: Message, errorVal: int32, errorIdx: int32, varbinds: seq<Varbind>)
    requires T.Inv(s) && r in s.requests && s.requests[r].phase == T.Outstanding && m.requestId == s.requests[r].id
    requires Travels(rd, m) && Travels(rd, Answer(m, errorVal, errorIdx, varbinds))
    ensures var back := Returned(rd, m, errorVal, errorIdx, varbinds);
            back.Some? && OnlyReleased(s, T.Next(s, T.Respond(T.Response(back.value.requestId))), r)
  {
    hide FieldsReadable, Travels, Returned, T.Inv;
    IdComesBack(rd, m, errorVal, errorIdx, varbinds);
    HeldUnderItsId(s, r);
  }

  lemma HeldUnderItsId<Q>(s: T.State<Q>, r: Q)
    requires T.Inv(s) && r in s.requests && s.requests[r].phase == T.Outstanding
    ensures s.requests[r].id in s.outstanding && s.outstanding[s.requests[r].id] == r
  {
    hide T.AllOk, T.QueueInv, T.AcceptedInv, T.TimerInv, T.ClientInv, T.CountInv;
  }
}
