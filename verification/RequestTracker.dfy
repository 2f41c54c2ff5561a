/**
 The tracker's own code: the cases of its select loop working in place on the requests, the map of
 outstanding requests and the timers (snmp.go `trackRequests`, msg.go `communityRequest`, v2cClient.go
 `SendRequest`). Each method is one step of the state machine in Tracker.
 */
module RequestTrackers {
  import opened GoTypes
  import opened Tracker
  import opened TrackerRuns

  /** The timers of the process: time.AfterFunc, Stop, and expiry, which blocks until the tracker takes
      the request's id from the timeout channel. */
  class Clock {
    var armed: map<nat, CommunityRequest>
    var inFlight: map<nat, uint32>
    var started: nat

    constructor ()
      ensures armed == map[] && inFlight == map[] && started == 0
    {
      armed, inFlight, started := map[], map[], 0;
    }

    method AfterFunc(req: CommunityRequest) returns (timer: nat)
      modifies this
      ensures timer == old(started) == started - 1
      ensures armed == old(armed)[timer := req] && inFlight == old(inFlight)
    {
      timer := started;
      armed := armed[timer := req];
      started := started + 1;
    }

    /** Stopping a timer that has expired, or was never started, does nothing. */
    method Stop(timer: nat)
      modifies this
      ensures armed == old(armed) - {timer} && inFlight == old(inFlight) && started == old(started)
    {
      armed := armed - {timer};
    }

    /** handleTimeout and handleRequestTimeout: the id is read when the timer expires. */
    method Fire(timer: nat)
      requires timer in armed
      modifies this
      ensures armed == old(armed) - {timer} && started == old(started)
      ensures inFlight == old(inFlight)[timer := old(armed)[timer].requestId]
    {
      inFlight := inFlight[timer := armed[timer].requestId];
      armed := armed - {timer};
    }
  }

  class CommunityRequest {
    var requestId: uint32
    var retriesRemaining: int
    var timer: nat
    var response: Option<Response>
    var timeoutError: bool
    ghost var client: nat
    ghost var retries: int
    ghost var phase: Phase
    ghost var forwards: nat
    ghost var notified: nat

    ghost function Fields(): (x: Request)
      reads this
      ensures x.id == requestId && x.timer == timer && x.retriesRemaining == retriesRemaining
    {
      Request(client, retries, phase, requestId, retriesRemaining, timer, response, timeoutError, forwards, notified)
    }

    /** As allocated: allocateV2cRequest. */
    ghost predicate New()
      reads this
    {
      Fields() == Request(client, retries, Queued, 0, retriesRemaining, 0, None, false, 0, 0)
    }

    constructor ()
      ensures New()
    {
      requestId, retriesRemaining, timer, response, timeoutError := 0, 0, 0, None, false;
      client, retries, phase, forwards, notified := 0, 0, Queued, 0, 0;
    }

    /** What SendRequest sets on the request before it sends it. */
    method Prepare(c: nat, budget: int)
      requires New()
      modifies this
      ensures Fields() == Request(c, budget, Queued, 0, budget, 0, None, false, 0, 0)
    {
      retriesRemaining := budget;
      client, retries := c, budget;
    }

    method SetRequestId(id: uint32)
      modifies this
      ensures Fields() == old(Fields()).(id := id, phase := Outstanding)
    {
      requestId := id;
      phase := Outstanding;
    }

    /** The tracker starts a timer exactly when it hands the request over to flow control. */
    method StartTimer(clock: Clock)
      modifies this, clock
      ensures Fields() == old(Fields()).(timer := old(clock.started), forwards := old(Fields().forwards) + 1)
      ensures clock.started == old(clock.started) + 1 && clock.inFlight == old(clock.inFlight)
      ensures clock.armed == old(clock.armed)[old(clock.started) := this]
    {
      timer := clock.AfterFunc(this);
      forwards := forwards + 1;
    }

    /** Spends a retry if there is one. */
    method IsRetryRequired() returns (retry: bool)
      modifies this
      ensures retry <==> old(retriesRemaining) > 0
      ensures Fields() == old(Fields()).(retriesRemaining := old(retriesRemaining) - if retry then 1 else 0)
    {
      if retriesRemaining > 0 {
        retriesRemaining := retriesRemaining - 1;
        return true;
      }
      return false;
    }

    /** setResponse and notify */
    method Answer(resp: Response)
      modifies this
      ensures Fields() == old(Fields()).(response := Some(resp), phase := Answered, notified := old(Fields().notified) + 1)
    {
      response := Some(resp);
      phase, notified := Answered, notified + 1;
    }

    /** setTransportError(TimeoutError{}) and notify */
    method Expire()
      modifies this
      ensures Fields() == old(Fields()).(timeoutError := true, phase := Expired, notified := old(Fields().notified) + 1)
    {
      timeoutError := true;
      phase, notified := Expired, notified + 1;
    }
  }

  /** Every request is in the flow control queue as often as it was forwarded, and nothing else is. */
  ghost predicate QueuedAsForwarded(out: seq<CommunityRequest>, records: map<CommunityRequest, Request>) {
    && (forall r | r in out :: r in records)
    && (forall r | r in records :: multiset(out)[r] == records[r].forwards)
  }

  lemma SameForwards(out: seq<CommunityRequest>, records: map<CommunityRequest, Request>, r: CommunityRequest, x: Request)
    requires QueuedAsForwarded(out, records)
    requires x.forwards == if r in records then records[r].forwards else 0
    ensures QueuedAsForwarded(out, records[r := x])
  {
    if r !in records { assert r !in out && multiset(out)[r] == 0; }
  }

  lemma OneMoreForward(out: seq<CommunityRequest>, records: map<CommunityRequest, Request>, r: CommunityRequest, x: Request)
    requires QueuedAsForwarded(out, records) && r in records && x.forwards == records[r].forwards + 1
    ensures QueuedAsForwarded(out + [r], records[r := x])
  {
  }

  /** Accepting a request is putting it into the map and then handing it over. */
  lemma AcceptInTwo<R>(s: State<R>, mid: State<R>)
    requires Enabled(s, Accept)
    requires var r, id := s.queue[0], NextId(s);
             mid == s.(nextRequestId := id, outstanding := s.outstanding[id := r], queue := s.queue[1..],
                       accepted := s.accepted + [r], requests := s.requests[r := s.requests[r].(id := id, phase := Outstanding)])
    ensures Next(s, Accept) == StartAndForward(mid, s.queue[0], mid.requests[s.queue[0]])
  {
  }

  /** The request object that an event brings in. */
  ghost function Sent(e: Event<CommunityRequest>): set<CommunityRequest> {
    if e.Send? then {e.req} else {}
  }

  ghost function AllSent(es: seq<Event<CommunityRequest>>): set<CommunityRequest> {
    set i | 0 <= i < |es| && es[i].Send? :: es[i].req
  }

  class RequestTracker {
    var nextRequestId: uint32
    var outstandingRequests: map<uint32, CommunityRequest>
    var requestsFromClients: seq<CommunityRequest>
    var outboundFlowControlQueue: seq<CommunityRequest>
    var stats: Stats
    const clock: Clock
    ghost var records: map<CommunityRequest, Request>
    ghost var clients: map<nat, CommunityRequest>
    ghost var accepted: seq<CommunityRequest>

    /** The state of the state machine; `records` holds the fields of every request sent. */
    ghost function Abs(): State<CommunityRequest>
      reads this, clock
    {
      State(nextRequestId, outstandingRequests, records, requestsFromClients, clients,
            clock.armed, clock.inFlight, clock.started, accepted, stats)
    }

    /** Only requests that were sent are anywhere in the tracker, and every message counted as forwarded
        is in the flow control queue. */
    ghost predicate Valid()
      reads this, clock, records.Keys
    {
      && (forall r | r in records :: records[r] == r.Fields())
      && (forall r | r in requestsFromClients :: r in records)
      && (forall id | id in outstandingRequests :: outstandingRequests[id] in records)
      && (forall t | t in clock.armed :: clock.armed[t] in records)
      && |outboundFlowControlQueue| == stats.forwarded
      && QueuedAsForwarded(outboundFlowControlQueue, records)
    }

    constructor ()
      ensures Valid() && fresh(clock) && Abs() == Init() && outboundFlowControlQueue == []
    {
      nextRequestId, outstandingRequests, requestsFromClients := 0, map[], [];
      outboundFlowControlQueue, stats := [], Stats(0, 0, 0, 0, 0, 0, 0);
      clock := new Clock();
      records, clients, accepted := map[], map[], [];
    }

    /** The first half of V2cClient.SendRequest: everything up to the wait. */
    method SendRequest(c: nat, req: CommunityRequest, retries: int)
      requires Valid() && Enabled(Abs(), Send(c, req, retries)) && req.New()
      modifies this, req
      ensures Valid() && Abs() == Next(old(Abs()), Send(c, req, retries))
      ensures outboundFlowControlQueue == old(outboundFlowControlQueue)
    {
      hide DoAccept, DoRespond, DoDeliver, CommunityRequest.Fields, QueuedAsForwarded;
      req.Prepare(c, retries);
      stats := stats.(sent := stats.sent + 1);
      requestsFromClients := requestsFromClients + [req];
      SameForwards(outboundFlowControlQueue, records, req, req.Fields());
      records, clients := records[req := req.Fields()], clients[c := req];
    }

    /** Starts the request's timer and hands it over to flow control. */
    method Forward(req: CommunityRequest)
      requires Valid() && req in records
      modifies this`stats, this`outboundFlowControlQueue, this`records, clock, req
      ensures Valid() && Abs() == StartAndForward(old(Abs()), req, old(records[req]))
      ensures outboundFlowControlQueue == old(outboundFlowControlQueue) + [req]
    {
      hide CommunityRequest.Fields, QueuedAsForwarded;
      req.StartTimer(clock);
      stats := stats.(forwarded := stats.forwarded + 1);
      OneMoreForward(outboundFlowControlQueue, records, req, req.Fields());
      outboundFlowControlQueue := outboundFlowControlQueue + [req];
      records := records[req := req.Fields()];
    }

    /** Gives the next id to a request and puts it into the map. */
    method Register(req: CommunityRequest)
      requires Valid() && req in records
      modifies this`nextRequestId, this`outstandingRequests, this`records, this`accepted, req
      ensures Valid()
      ensures var s, id := old(Abs()), NextId(old(Abs()));
              Abs() == s.(nextRequestId := id, outstanding := s.outstanding[id := req], accepted := s.accepted + [req],
                          requests := s.requests[req := s.requests[req].(id := id, phase := Outstanding)])
    {
      hide CommunityRequest.Fields, QueuedAsForwarded;
      nextRequestId := (nextRequestId + 1) % 0x1_0000_0000;
      req.SetRequestId(nextRequestId);
      outstandingRequests := outstandingRequests[nextRequestId := req];
      SameForwards(outboundFlowControlQueue, records, req, req.Fields());
      records, accepted := records[req := req.Fields()], accepted + [req];
    }

    method Receive() returns (req: CommunityRequest)
      requires Valid() && requestsFromClients != []
      modifies this`requestsFromClients
      ensures Valid() && req == old(requestsFromClients[0]) && req in records
      ensures Abs() == old(Abs()).(queue := old(requestsFromClients)[1..])
    {
      req := requestsFromClients[0];
      requestsFromClients := requestsFromClients[1..];
    }

    /** case outboundReq := <-requestsFromClients */
    method HandleRequest()
      requires Valid() && requestsFromClients != []
      modifies this, clock, requestsFromClients[0]
      ensures Valid() && Abs() == Next(old(Abs()), Accept)
      ensures outboundFlowControlQueue == old(outboundFlowControlQueue) + [old(requestsFromClients[0])]
    {
      hide Valid, Next, StartAndForward;
      var outboundReq := Receive();
      Register(outboundReq);
      AcceptInTwo(old(Abs()), Abs());
      Forward(outboundReq);
    }

    /** case responseFromRemoteAgent := <-responsesFromAgents */
    method HandleResponse(resp: Response)
      requires Valid()
      modifies this, clock, records.Keys
      ensures Valid() && Abs() == Next(old(Abs()), Respond(resp))
      ensures outboundFlowControlQueue == old(outboundFlowControlQueue)
    {
      hide DoAccept, DoDeliver, CommunityRequest.Fields, QueuedAsForwarded;
      if resp.requestId !in outstandingRequests {
        stats := stats.(dropped := stats.dropped + 1);
        return;
      }
      Release(outstandingRequests[resp.requestId], resp);
    }

    /** What the response case does with the request it found. */
    method Release(originatingRequest: CommunityRequest, resp: Response)
      requires Valid() && originatingRequest in records
      modifies this`outstandingRequests, this`stats, this`records, clock, originatingRequest
      ensures Valid()
      ensures var s, q := old(Abs()), old(records[originatingRequest]);
              Abs() == s.(outstanding := s.outstanding - {q.id}, armed := s.armed - {q.timer},
                          requests := s.requests[originatingRequest := q.(response := Some(resp), phase := Answered, notified := q.notified + 1)],
                          stats := s.stats.(released := s.stats.released + 1))
    {
      hide CommunityRequest.Fields, QueuedAsForwarded;
      outstandingRequests := outstandingRequests - {originatingRequest.requestId};
      clock.Stop(originatingRequest.timer);
      originatingRequest.Answer(resp);
      stats := stats.(released := stats.released + 1);
      SameForwards(outboundFlowControlQueue, records, originatingRequest, originatingRequest.Fields());
      records := records[originatingRequest := originatingRequest.Fields()];
    }

    /** Takes a request that has run out of retries out of the map and notifies its client. */
    method GiveUp(req: CommunityRequest)
      requires Valid() && req in records && records[req].retriesRemaining <= 0
      modifies this`stats, this`outstandingRequests, this`records, req
      ensures Valid() && Abs() == TimeOut(old(Abs()), req, old(records[req]))
    {
      hide CommunityRequest.Fields, QueuedAsForwarded;
      outstandingRequests := outstandingRequests - {req.requestId};
      req.Expire();
      stats := stats.(exhausted := stats.exhausted + 1);
      SameForwards(outboundFlowControlQueue, records, req, req.Fields());
      records := records[req := req.Fields()];
    }

    /** Spends a retry of a request, if it has one. */
    method SpendRetry(req: CommunityRequest) returns (retry: bool)
      requires Valid() && req in records
      modifies this`records, req
      ensures Valid() && (retry <==> old(records[req].retriesRemaining) > 0)
      ensures var s, q := old(Abs()), old(records[req]);
              Abs() == s.(requests := s.requests[req := q.(retriesRemaining := q.retriesRemaining - if retry then 1 else 0)])
    {
      hide CommunityRequest.Fields, QueuedAsForwarded;
      retry := req.IsRetryRequired();
      SameForwards(outboundFlowControlQueue, records, req, req.Fields());
      records := records[req := req.Fields()];
    }

    /** What the timeout case does with the request it found. */
    method HandleTimeoutOf(timedoutRequest: CommunityRequest)
      requires Valid() && timedoutRequest in records
      modifies this`stats, this`outboundFlowControlQueue, this`outstandingRequests, this`records, clock, timedoutRequest
      ensures Valid() && Abs() == TimeOut(old(Abs()), timedoutRequest, old(records[timedoutRequest]))
      ensures outboundFlowControlQueue == old(outboundFlowControlQueue)
              + if old(records[timedoutRequest].retriesRemaining) > 0 then [timedoutRequest] else []
    {
      hide Valid;
      var retry := SpendRetry(timedoutRequest);
      if retry {
        CountTimeout();
        Forward(timedoutRequest);
      } else {
        assert records == old(records);
        GiveUp(timedoutRequest);
      }
    }

    method CountTimeout()
      requires Valid()
      modifies this`stats
      ensures Valid() && Abs() == old(Abs()).(stats := old(stats).(timedOut := old(stats.timedOut) + 1))
    {
      stats := stats.(timedOut := stats.timedOut + 1);
    }

    /** case requestId := <-requestTimeouts, the id coming from timer `t` */
    method HandleTimeout(t: nat)
      requires Valid() && t in clock.inFlight
      modifies this, clock, records.Keys
      ensures Valid() && Abs() == Next(old(Abs()), Deliver(t))
      ensures outboundFlowControlQueue == old(outboundFlowControlQueue)
              + if Retried(old(Abs()), t) then [old(outstandingRequests[clock.inFlight[t]])] else []
    {
      hide CommunityRequest.Fields, DoAccept, DoRespond, TimeOut, QueuedAsForwarded;
      var requestId := clock.inFlight[t];
      clock.inFlight := clock.inFlight - {t};
      if requestId !in outstandingRequests {
        stats := stats.(unknownTimedOut := stats.unknownTimedOut + 1);
        return;
      }
      HandleTimeoutOf(outstandingRequests[requestId]);
    }

    /** A timer expires, on its own goroutine. */
    method Expire(t: nat)
      requires Valid() && t in clock.armed
      modifies clock
      ensures Valid() && Abs() == Next(old(Abs()), Fire(t))
    {
      clock.Fire(t);
    }

    /** The second half of SendRequest: the wait is over and the client's mutex is free again. */
    method EndWait(c: nat)
      requires Valid() && Enabled(Abs(), Return(c))
      modifies this`clients
      ensures Valid() && Abs() == Next(old(Abs()), Return(c))
    {
      clients := clients - {c};
    }

    /** One event, whichever channel it comes from. */
    method Handle(e: Event<CommunityRequest>)
      requires Valid() && Enabled(Abs(), e) && (e.Send? ==> e.req.New())
      modifies this, clock, records.Keys, Sent(e)
      ensures Valid() && Abs() == Next(old(Abs()), e)
    {
      hide Valid, Next, CommunityRequest.New;
      match e {
        case Send(c, req, retries) => SendRequest(c, req, retries);
        case Accept => HandleRequest();
        case Respond(resp) => HandleResponse(resp);
        case Fire(t) => Expire(t);
        case Deliver(t) => HandleTimeout(t);
        case Return(c) => EndWait(c);
      }
    }

    /** The tracker, its timers and its clients through a whole run. */
    method Serve(es: seq<Event<CommunityRequest>>)
      requires Valid() && Possible(Abs(), es)
      requires forall i | 0 <= i < |es| && es[i].Send? :: es[i].req.New()
      modifies this, clock, records.Keys, AllSent(es)
      ensures Valid() && Abs() == After(old(Abs()), es)
    {
      hide Valid, Next, Enabled, CommunityRequest.New;
      var i := 0;
      while i < |es|
        invariant 0 <= i <= |es| && Valid()
        invariant Possible(Abs(), es[i..]) && After(Abs(), es[i..]) == After(old(Abs()), es)
        invariant forall j | i <= j < |es| && es[j].Send? :: es[j].req.New()
        invariant records.Keys <= old(records.Keys) + AllSent(es)
      {
        assert es[i..][0] == es[i] && es[i..][1..] == es[i + 1..];
        SendsAreNew(Abs(), es[i..]);
        RequestsAfter(Abs(), es[i]);
        Handle(es[i]);
        i := i + 1;
      }
    }
  }

  /** A new tracker served any events in which no id in use is reused ends in a state with the whole
      invariant, with each request in the flow control queue as often as it was forwarded. */
  method ServeFromTheStart(es: seq<Event<CommunityRequest>>) returns (tracker: RequestTracker)
    requires FreshRun(Init<CommunityRequest>(), es)
    requires forall i | 0 <= i < |es| && es[i].Send? :: es[i].req.New()
    modifies AllSent(es)
    ensures fresh(tracker) && tracker.Valid() && Possible(Init(), es) && tracker.Abs() == After(Init(), es)
    ensures Inv(tracker.Abs()) && StatsAreSums(tracker.Abs())
    ensures |tracker.outboundFlowControlQueue| == tracker.stats.forwarded
    ensures forall i | 0 <= i < |es| && es[i].Send? ::
              var sent := multiset(tracker.outboundFlowControlQueue)[es[i].req];
              && es[i].req in tracker.records
              && sent <= Max0(es[i].retries) + 1
              && (tracker.records[es[i].req].timeoutError ==> sent == Max0(es[i].retries) + 1)
  {
    hide Next, Enabled, Inv, StatsAreSums, CommunityRequest.New;
    RunsAreSafe(es);
    tracker := new RequestTracker();
    tracker.Serve(es);
    forall i | 0 <= i < |es| && es[i].Send?
      ensures es[i].req in tracker.records
      ensures tracker.records[es[i].req].forwards <= Max0(es[i].retries) + 1
      ensures tracker.records[es[i].req].timeoutError ==> tracker.records[es[i].req].forwards == Max0(es[i].retries) + 1
    {
      SentAsOftenAsAsked(es, i);
    }
  }

  /** Timer `t` belongs to a request with a retry left. */
  ghost predicate Retried<R>(s: State<R>, t: nat) {
    t in s.inFlight && Finds(s, s.inFlight[t]) && s.requests[s.outstanding[s.inFlight[t]]].retriesRemaining > 0
  }
}
