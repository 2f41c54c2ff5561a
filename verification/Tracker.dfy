/**
 The request tracker as a state machine (snmp.go `trackRequests`, the request's timer, retry and
 notify fields in msg.go, `SendRequest` in v2cClient.go).

 A step is one case of the tracker's select loop, one timer expiring, or a client calling
 SendRequest or returning from it. The network is an arbitrary source of responses.
 `R` identifies request objects.
 */
module Tracker {
  import opened GoTypes

  datatype Response = Response(requestId: uint32)

  /** Where a request is in its life. */
  datatype Phase = Queued | Outstanding | Answered | Expired

  /** The fields of a communityRequest that the tracker works on. `retries` is the budget it was sent
      with, `timer` its latest timer; `forwards` and `notified` count what happened to it. */
  datatype Request = Request(
    client: nat, retries: int, phase: Phase,
    id: uint32, retriesRemaining: int, timer: nat,
    response: Option<Response>, timeoutError: bool,
    forwards: nat, notified: nat)

  /** Timers are numbered in the order they are started. `armed` are the running ones, `inFlight` those
      that have expired and are waiting to hand their request's id to the tracker. */
  datatype State<R(==)> = State(
    nextRequestId: uint32,
    outstanding: map<uint32, R>,
    requests: map<R, Request>,
    queue: seq<R>,
    clients: map<nat, R>,
    armed: map<nat, R>,
    inFlight: map<nat, uint32>,
    timers: nat,
    accepted: seq<R>,
    stats: Stats)

  /** The counters of the same names in snmp.go. */
  datatype Stats = Stats(sent: nat, forwarded: nat, released: nat, dropped: nat,
                         timedOut: nat, exhausted: nat, unknownTimedOut: nat)

  datatype Event<R> =
    | Send(client: nat, req: R, retries: int)
    | Accept
    | Respond(resp: Response)
    | Fire(timer: nat)
    | Deliver(timer: nat)
    | Return(client: nat)

  function Init<R(==)>(): State<R> {
    State(0, map[], map[], [], map[], map[], map[], 0, [], Stats(0, 0, 0, 0, 0, 0, 0))
  }

  // ---------------------------------------------------------------------------
  // Steps

  function NextId<R(==)>(s: State<R>): uint32 {
    (s.nextRequestId + 1) % 0x1_0000_0000
  }

  predicate Enabled<R(==)>(s: State<R>, e: Event<R>) {
    match e
    case Send(c, r, _) => c !in s.clients && r !in s.requests
    case Accept => s.queue != [] && s.queue[0] in s.requests
    case Respond(_) => true
    case Fire(t) => t in s.armed && s.armed[t] in s.requests
    case Deliver(t) => t in s.inFlight
    case Return(c) => c in s.clients && s.clients[c] in s.requests && s.requests[s.clients[c]].notified > 0
  }

  /** startTimer and the hand-over to flow control, which go together in the tracker. */
  function StartAndForward<R(==)>(s: State<R>, r: R, q: Request): State<R> {
    s.(requests := s.requests[r := q.(timer := s.timers, forwards := q.forwards + 1)],
       armed := s.armed[s.timers := r],
       timers := s.timers + 1,
       stats := s.stats.(forwarded := s.stats.forwarded + 1))
  }

  function DoAccept<R(==)>(s: State<R>): State<R>
    requires Enabled(s, Accept)
  {
    var r, id := s.queue[0], NextId(s);
    var s' := s.(nextRequestId := id, outstanding := s.outstanding[id := r], queue := s.queue[1..], accepted := s.accepted + [r]);
    StartAndForward(s', r, s.requests[r].(id := id, phase := Outstanding))
  }

  /** Looking up an id finds a request object only if the tracker knows it. */
  predicate Finds<R(==)>(s: State<R>, id: uint32) {
    id in s.outstanding && s.outstanding[id] in s.requests
  }

  function DoRespond<R(==)>(s: State<R>, resp: Response): State<R> {
    if !Finds(s, resp.requestId) then s.(stats := s.stats.(dropped := s.stats.dropped + 1))
    else
      var r := s.outstanding[resp.requestId];
      var q := s.requests[r];
      s.(outstanding := s.outstanding - {q.id},
         armed := s.armed - {q.timer},
         requests := s.requests[r := q.(response := Some(resp), phase := Answered, notified := q.notified + 1)],
         stats := s.stats.(released := s.stats.released + 1))
  }

  /** A timeout of a request the tracker found: sent again while it has retries, ended after that. */
  function TimeOut<R(==)>(s: State<R>, r: R, q: Request): State<R> {
    if q.retriesRemaining > 0 then
      StartAndForward(s.(stats := s.stats.(timedOut := s.stats.timedOut + 1)), r,
                      q.(retriesRemaining := q.retriesRemaining - 1))
    else
      s.(outstanding := s.outstanding - {q.id},
         requests := s.requests[r := q.(timeoutError := true, phase := Expired, notified := q.notified + 1)],
         stats := s.stats.(exhausted := s.stats.exhausted + 1))
  }

  function DoDeliver<R(==)>(s: State<R>, t: nat): State<R>
    requires Enabled(s, Deliver(t))
  {
    var id := s.inFlight[t];
    var s' := s.(inFlight := s.inFlight - {t});
    if !Finds(s, id) then s'.(stats := s.stats.(unknownTimedOut := s.stats.unknownTimedOut + 1))
    else TimeOut(s', s.outstanding[id], s.requests[s.outstanding[id]])
  }

  function Next<R(==)>(s: State<R>, e: Event<R>): State<R>
    requires Enabled(s, e)
  {
    match e
    case Send(c, r, retries) =>
      s.(requests := s.requests[r := Request(c, retries, Queued, 0, retries, 0, None, false, 0, 0)],
         queue := s.queue + [r], clients := s.clients[c := r],
         stats := s.stats.(sent := s.stats.sent + 1))
    case Accept => DoAccept(s)
    case Respond(resp) => DoRespond(s, resp)
    case Fire(t) => s.(armed := s.armed - {t}, inFlight := s.inFlight[t := s.requests[s.armed[t]].id])
    case Deliver(t) => DoDeliver(s, t)
    case Return(c) => s.(clients := s.clients - {c})
  }

  // ---------------------------------------------------------------------------
  // The invariant

  function Max0(x: int): nat {
    if x > 0 then x else 0
  }

  /** A request's own fields, phase by phase. A request is notified when it leaves the tracker, with
      exactly one of a response to its own id and a timeout; it is forwarded once and then once for
      every retry it has spent. */
  predicate RequestOk(q: Request) {
    match q.phase
    case Queued => q.notified == 0 && q.response == None && !q.timeoutError && q.forwards == 0
                   && q.retriesRemaining == q.retries
    case Outstanding => q.notified == 0 && q.response == None && !q.timeoutError && q.forwards >= 1
                        && q.forwards + Max0(q.retriesRemaining) == Max0(q.retries) + 1
    case Answered => q.notified == 1 && q.response == Some(Response(q.id)) && !q.timeoutError
                     && 1 <= q.forwards <= Max0(q.retries) + 1
    case Expired => q.notified == 1 && q.response == None && q.timeoutError
                    && q.forwards == Max0(q.retries) + 1
  }

  type Requests<R> = map<R, Request>

  ghost predicate AllOk<R>(q: Requests<R>) {
    forall r | r in q :: RequestOk(q[r])
  }

  /** The queue holds exactly the requests that have not been accepted, each once. */
  ghost predicate QueueInv<R>(queue: seq<R>, q: Requests<R>) {
    && (forall i | 0 <= i < |queue| :: queue[i] in q && q[queue[i]].phase == Queued)
    && (forall i, j | 0 <= i < j < |queue| :: queue[i] != queue[j])
    && (forall r | r in q && q[r].phase == Queued :: r in queue)
  }

  /** Every request that was accepted, once, in order. */
  ghost predicate AcceptedInv<R>(accepted: seq<R>, q: Requests<R>) {
    && (forall i | 0 <= i < |accepted| :: accepted[i] in q && q[accepted[i]].phase != Queued)
    && (forall i, j | 0 <= i < j < |accepted| :: accepted[i] != accepted[j])
    && (forall r | r in q && q[r].phase != Queued :: r in accepted)
  }

  /** The map holds exactly the outstanding requests, each under its own id. */
  ghost predicate OutstandingInv<R>(o: map<uint32, R>, q: Requests<R>) {
    && (forall id | id in o :: o[id] in q && q[o[id]].id == id && q[o[id]].phase == Outstanding)
    && (forall r | r in q && q[r].phase == Outstanding :: q[r].id in o && o[q[r].id] == r)
  }

  /** Each outstanding request has exactly one timer, armed or in flight; nothing else is armed; a timer
      in flight for an outstanding id is that request's own, and no id has two in flight. */
  ghost predicate TimerInv<R>(armed: map<nat, R>, inFlight: map<nat, uint32>, timers: nat, o: map<uint32, R>, q: Requests<R>) {
    && (forall t | t in armed :: t < timers && t !in inFlight
          && armed[t] in q && q[armed[t]].phase == Outstanding && q[armed[t]].timer == t)
    && (forall t | t in inFlight :: t < timers)
    && (forall t | t in inFlight && inFlight[t] in o :: o[inFlight[t]] in q && q[o[inFlight[t]]].timer == t)
    && (forall t, t' | t in inFlight && t' in inFlight && inFlight[t] == inFlight[t'] :: t == t')
    && (forall r | r in q && q[r].phase == Outstanding :: HasTimer(armed, inFlight, r, q[r]))
  }

  predicate HasTimer<R(==)>(armed: map<nat, R>, inFlight: map<nat, uint32>, r: R, x: Request) {
    (x.timer in armed && armed[x.timer] == r) || (x.timer in inFlight && inFlight[x.timer] == x.id)
  }

  /** The client that sent a request holds it, and nothing else, until it is notified. */
  ghost predicate ClientInv<R>(clients: map<nat, R>, q: Requests<R>) {
    && (forall c | c in clients :: clients[c] in q && q[clients[c]].client == c)
    && (forall r | r in q && q[r].notified == 0 :: q[r].client in clients && clients[q[r].client] == r)
  }

  /** Timers in flight for a request that is gone. */
  ghost function Stale<R>(inFlight: map<nat, uint32>, o: map<uint32, R>): set<nat> {
    set t | t in inFlight && inFlight[t] !in o
  }

  ghost predicate CountInv<R>(s: State<R>) {
    && s.stats.sent == |s.accepted| + |s.queue|
    && |s.accepted| == s.stats.released + s.stats.exhausted + |s.outstanding|
    && s.stats.forwarded == |s.accepted| + s.stats.timedOut
    && s.stats.unknownTimedOut + |Stale(s.inFlight, s.outstanding)| <= s.stats.released
  }

  ghost predicate Inv<R>(s: State<R>) {
    && AllOk(s.requests) && QueueInv(s.queue, s.requests) && AcceptedInv(s.accepted, s.requests)
    && OutstandingInv(s.outstanding, s.requests)
    && TimerInv(s.armed, s.inFlight, s.timers, s.outstanding, s.requests)
    && ClientInv(s.clients, s.requests)
    && CountInv(s)
  }

  /** The id that the next accepted request gets is not in use, by a request or by a timer in flight. */
  predicate FreshId<R(==)>(s: State<R>) {
    NextId(s) !in s.outstanding && NextId(s) !in s.inFlight.Values
  }

  predicate FreshEvent<R(==)>(s: State<R>, e: Event<R>) {
    e.Accept? ==> FreshId(s)
  }

  lemma InitInv<R>()
    ensures Inv(Init<R>())
  {
  }

  // ---------------------------------------------------------------------------
  // How the parts of the invariant survive the changes a step makes

  /** A timer removed from the stale set, or not. */
  lemma StaleWithout<R>(inFlight: map<nat, uint32>, o: map<uint32, R>, t: nat)
    requires t in inFlight
    ensures |Stale(inFlight - {t}, o)| == |Stale(inFlight, o)| - if inFlight[t] in o then 0 else 1
  {
    assert Stale(inFlight - {t}, o) == Stale(inFlight, o) - {t};
  }

  lemma StaleAccept<R>(inFlight: map<nat, uint32>, o: map<uint32, R>, id: uint32, r: R)
    requires id !in inFlight.Values
    ensures Stale(inFlight, o[id := r]) == Stale(inFlight, o)
  {
  }

  lemma StaleFire<R>(inFlight: map<nat, uint32>, o: map<uint32, R>, t: nat, id: uint32)
    requires t !in inFlight && id in o
    ensures Stale(inFlight[t := id], o) == Stale(inFlight, o)
  {
  }

  /** Removing an id makes at most its own timer stale. */
  lemma StaleRemove<R>(inFlight: map<nat, uint32>, o: map<uint32, R>, id: uint32, t: nat)
    requires forall t' | t' in inFlight && inFlight[t'] == id :: t' == t
    ensures |Stale(inFlight, o - {id})| <= |Stale(inFlight, o)| + 1
    ensures t !in inFlight ==> Stale(inFlight, o - {id}) == Stale(inFlight, o)
  {
    var a, b := Stale(inFlight, o - {id}), Stale(inFlight, o);
    assert a <= b + {t};
    SubsetSize(a, b + {t});
  }

  lemma {:induction false} SubsetSize<T>(a: set<T>, b: set<T>)
    requires a <= b
    ensures |a| <= |b|
    decreases a
  {
    if a != {} {
      var x :| x in a;
      SubsetSize(a - {x}, b - {x});
    }
  }

  lemma MapSizes<K, V>(m: map<K, V>, k: K, v: V)
    ensures k !in m ==> |m[k := v]| == |m| + 1
    ensures k in m ==> |m - {k}| == |m| - 1
  {
    assert m[k := v].Keys == m.Keys + {k};
    assert (m - {k}).Keys == m.Keys - {k};
  }

  lemma OkUpdate<R>(q: Requests<R>, r: R, x: Request)
    requires AllOk(q) && RequestOk(x)
    ensures AllOk(q[r := x])
  {
    hide RequestOk;
  }

  lemma QueueUpdate<R>(queue: seq<R>, q: Requests<R>, r: R, x: Request)
    requires QueueInv(queue, q) && (r in q ==> q[r].phase != Queued) && x.phase != Queued
    ensures QueueInv(queue, q[r := x])
  {
  }

  lemma QueuePush<R>(queue: seq<R>, q: Requests<R>, r: R, x: Request)
    requires QueueInv(queue, q) && r !in q && x.phase == Queued
    ensures QueueInv(queue + [r], q[r := x])
  {
  }

  lemma QueuePop<R>(queue: seq<R>, q: Requests<R>, x: Request)
    requires QueueInv(queue, q) && queue != [] && x.phase != Queued
    ensures queue[0] in q && q[queue[0]].phase == Queued && QueueInv(queue[1..], q[queue[0] := x])
  {
  }

  lemma AcceptedUpdate<R>(accepted: seq<R>, q: Requests<R>, r: R, x: Request)
    requires AcceptedInv(accepted, q)
    requires if r in q then q[r].phase != Queued && x.phase != Queued else x.phase == Queued
    ensures AcceptedInv(accepted, q[r := x])
  {
  }

  lemma AcceptedPush<R>(accepted: seq<R>, q: Requests<R>, r: R, x: Request)
    requires AcceptedInv(accepted, q) && r in q && q[r].phase == Queued && x.phase != Queued
    ensures AcceptedInv(accepted + [r], q[r := x])
  {
  }

  lemma OutstandingUpdate<R>(o: map<uint32, R>, q: Requests<R>, r: R, x: Request)
    requires OutstandingInv(o, q)
    requires if r in q && q[r].phase == Outstanding then x.phase == Outstanding && x.id == q[r].id else x.phase != Outstanding
    ensures OutstandingInv(o, q[r := x])
  {
  }

  lemma OutstandingAdd<R>(o: map<uint32, R>, q: Requests<R>, r: R, x: Request)
    requires OutstandingInv(o, q) && r in q && q[r].phase != Outstanding
    requires x.phase == Outstanding && x.id !in o
    ensures OutstandingInv(o[x.id := r], q[r := x])
  {
  }

  lemma OutstandingRemove<R>(o: map<uint32, R>, q: Requests<R>, id: uint32, x: Request)
    requires OutstandingInv(o, q) && id in o && x.phase != Outstanding
    ensures OutstandingInv(o - {id}, q[o[id] := x])
  {
  }

  lemma TimerSend<R>(armed: map<nat, R>, inFlight: map<nat, uint32>, timers: nat, o: map<uint32, R>, q: Requests<R>, r: R, x: Request)
    requires TimerInv(armed, inFlight, timers, o, q) && r !in q && x.phase == Queued
    ensures TimerInv(armed, inFlight, timers, o, q[r := x])
  {
  }

  lemma TimerAccept<R>(armed: map<nat, R>, inFlight: map<nat, uint32>, timers: nat, o: map<uint32, R>, q: Requests<R>, r: R, x: Request)
    requires TimerInv(armed, inFlight, timers, o, q) && OutstandingInv(o, q) && r in q && q[r].phase == Queued
    requires x.phase == Outstanding && x.timer == timers && x.id !in o && x.id !in inFlight.Values
    ensures TimerInv(armed[timers := r], inFlight, timers + 1, o[x.id := r], q[r := x])
  {
    var o', q' := o[x.id := r], q[r := x];
    forall t | t in inFlight && inFlight[t] in o' ensures o'[inFlight[t]] in q' && q'[o'[inFlight[t]]].timer == t {
      assert inFlight[t] in inFlight.Values;
    }
  }

  lemma TimerFire<R>(armed: map<nat, R>, inFlight: map<nat, uint32>, timers: nat, o: map<uint32, R>, q: Requests<R>, t: nat)
    requires TimerInv(armed, inFlight, timers, o, q) && OutstandingInv(o, q) && t in armed
    ensures armed[t] in q && q[armed[t]].id in o && t !in inFlight
    ensures TimerInv(armed - {t}, inFlight[t := q[armed[t]].id], timers, o, q)
  {
  }

  /** The timer of `r` was delivered and a new one started. */
  lemma TimerRetry<R>(armed: map<nat, R>, inFlight: map<nat, uint32>, timers: nat, o: map<uint32, R>, q: Requests<R>, t: nat, x: Request)
    requires TimerInv(armed, inFlight, timers, o, q) && OutstandingInv(o, q) && t in inFlight && inFlight[t] in o
    requires x.phase == Outstanding && x.timer == timers && x.id == inFlight[t]
    ensures TimerInv(armed[timers := o[inFlight[t]]], inFlight - {t}, timers + 1, o, q[o[inFlight[t]] := x])
  {
  }

  /** The timer of `r` was delivered and the request removed. */
  lemma TimerExpire<R>(armed: map<nat, R>, inFlight: map<nat, uint32>, timers: nat, o: map<uint32, R>, q: Requests<R>, t: nat, x: Request)
    requires TimerInv(armed, inFlight, timers, o, q) && OutstandingInv(o, q) && t in inFlight && inFlight[t] in o
    requires x.phase == Expired
    ensures TimerInv(armed, inFlight - {t}, timers, o - {inFlight[t]}, q[o[inFlight[t]] := x])
  {
  }

  lemma TimerStale<R>(armed: map<nat, R>, inFlight: map<nat, uint32>, timers: nat, o: map<uint32, R>, q: Requests<R>, t: nat)
    requires TimerInv(armed, inFlight, timers, o, q) && OutstandingInv(o, q) && t in inFlight && inFlight[t] !in o
    ensures TimerInv(armed, inFlight - {t}, timers, o, q)
  {
  }

  /** The request was removed and its timer stopped, if it was still running. */
  lemma TimerRespond<R>(armed: map<nat, R>, inFlight: map<nat, uint32>, timers: nat, o: map<uint32, R>, q: Requests<R>, id: uint32, x: Request)
    requires TimerInv(armed, inFlight, timers, o, q) && OutstandingInv(o, q) && id in o && o[id] in q && x.phase == Answered
    ensures TimerInv(armed - {q[o[id]].timer}, inFlight, timers, o - {id}, q[o[id] := x])
  {
  }

  lemma ClientUpdate<R>(clients: map<nat, R>, q: Requests<R>, r: R, x: Request)
    requires ClientInv(clients, q) && r in q && x.client == q[r].client && x.notified >= q[r].notified
    ensures ClientInv(clients, q[r := x])
  {
  }

  lemma ClientSend<R>(clients: map<nat, R>, q: Requests<R>, r: R, x: Request)
    requires ClientInv(clients, q) && r !in q && x.client !in clients
    ensures ClientInv(clients[x.client := r], q[r := x])
  {
  }

  lemma ClientReturn<R>(clients: map<nat, R>, q: Requests<R>, c: nat)
    requires ClientInv(clients, q) && c in clients && clients[c] in q && q[clients[c]].notified > 0
    ensures ClientInv(clients - {c}, q)
  {
  }

  // ---------------------------------------------------------------------------
  // Every step keeps the invariant

  lemma SendKeeps<R>(s: State<R>, c: nat, r: R, retries: int)
    requires Inv(s) && Enabled(s, Send(c, r, retries))
    ensures Inv(Next(s, Send(c, r, retries)))
  {
    hide DoAccept, DoRespond, DoDeliver, AllOk, QueueInv, AcceptedInv, OutstandingInv, TimerInv, ClientInv, Stale;
    var x := Request(c, retries, Queued, 0, retries, 0, None, false, 0, 0);
    OkUpdate(s.requests, r, x);
    QueuePush(s.queue, s.requests, r, x);
    AcceptedUpdate(s.accepted, s.requests, r, x);
    OutstandingUpdate(s.outstanding, s.requests, r, x);
    TimerSend(s.armed, s.inFlight, s.timers, s.outstanding, s.requests, r, x);
    ClientSend(s.clients, s.requests, r, x);
  }

  lemma FireKeeps<R>(s: State<R>, t: nat)
    requires Inv(s) && Enabled(s, Fire(t))
    ensures Inv(Next(s, Fire(t)))
  {
    hide DoAccept, DoRespond, DoDeliver, RequestOk, AllOk, QueueInv, AcceptedInv, OutstandingInv, TimerInv, ClientInv, Stale;
    TimerFire(s.armed, s.inFlight, s.timers, s.outstanding, s.requests, t);
    StaleFire(s.inFlight, s.outstanding, t, s.requests[s.armed[t]].id);
  }

  lemma ReturnKeeps<R>(s: State<R>, c: nat)
    requires Inv(s) && Enabled(s, Return(c))
    ensures Inv(Next(s, Return(c)))
  {
    hide DoAccept, DoRespond, DoDeliver, RequestOk, AllOk, QueueInv, AcceptedInv, OutstandingInv, TimerInv, ClientInv, Stale;
    ClientReturn(s.clients, s.requests, c);
  }

  lemma AcceptKeeps<R>(s: State<R>)
    requires Inv(s) && Enabled(s, Accept) && FreshId(s)
    ensures Inv(Next(s, Accept))
  {
    hide QueueInv, AcceptedInv, OutstandingInv, TimerInv, ClientInv, Stale;
    var r, id := s.queue[0], NextId(s);
    var x := s.requests[r].(id := id, phase := Outstanding, timer := s.timers, forwards := s.requests[r].forwards + 1);
    QueuePop(s.queue, s.requests, x);
    OkUpdate(s.requests, r, x);
    AcceptedPush(s.accepted, s.requests, r, x);
    OutstandingAdd(s.outstanding, s.requests, r, x);
    TimerAccept(s.armed, s.inFlight, s.timers, s.outstanding, s.requests, r, x);
    ClientUpdate(s.clients, s.requests, r, x);
    MapSizes(s.outstanding, id, r);
    StaleAccept(s.inFlight, s.outstanding, id, r);
  }

  lemma RespondKeeps<R>(s: State<R>, resp: Response)
    requires Inv(s)
    ensures Inv(Next(s, Respond(resp)))
  {
    hide AllOk, QueueInv, AcceptedInv, OutstandingInv, TimerInv, ClientInv, Stale;
    var id := resp.requestId;
    if Finds(s, id) {
      FoundIsOutstanding(s, id);
      var r := s.outstanding[id];
      var q := s.requests[r];
      var x := q.(response := Some(resp), phase := Answered, notified := q.notified + 1);
      OkUpdate(s.requests, r, x);
      QueueUpdate(s.queue, s.requests, r, x);
      AcceptedUpdate(s.accepted, s.requests, r, x);
      OutstandingRemove(s.outstanding, s.requests, id, x);
      TimerRespond(s.armed, s.inFlight, s.timers, s.outstanding, s.requests, id, x);
      ClientUpdate(s.clients, s.requests, r, x);
      MapSizes(s.outstanding, id, r);
      OwnTimerOnly(s, id);
      StaleRemove(s.inFlight, s.outstanding, id, q.timer);
    }
  }

  /** What the tracker's map holds under an id. */
  lemma FoundIsOutstanding<R>(s: State<R>, id: uint32)
    requires Inv(s) && id in s.outstanding
    ensures Finds(s, id)
    ensures var q := s.requests[s.outstanding[id]];
            q.id == id && q.phase == Outstanding && RequestOk(q)
  {
  }

  lemma OwnTimerOnly<R>(s: State<R>, id: uint32)
    requires Inv(s) && Finds(s, id)
    ensures forall t | t in s.inFlight && s.inFlight[t] == id :: t == s.requests[s.outstanding[id]].timer
  {
  }

  lemma DeliverKeeps<R>(s: State<R>, t: nat)
    requires Inv(s) && Enabled(s, Deliver(t))
    ensures Inv(Next(s, Deliver(t)))
  {
    hide Inv, DoDeliver;
    var id := s.inFlight[t];
    if !Finds(s, id) {
      UnknownKeeps(s, t);
    } else if s.requests[s.outstanding[id]].retriesRemaining > 0 {
      RetryKeeps(s, t);
    } else {
      ExpireKeeps(s, t);
    }
  }

  lemma UnknownKeeps<R>(s: State<R>, t: nat)
    requires Inv(s) && Enabled(s, Deliver(t)) && !Finds(s, s.inFlight[t])
    ensures Inv(Next(s, Deliver(t)))
  {
    hide RequestOk, AllOk, QueueInv, AcceptedInv, OutstandingInv, TimerInv, ClientInv, Stale;
    var id := s.inFlight[t];
    if id in s.outstanding { FoundIsOutstanding(s, id); }
    StaleWithout(s.inFlight, s.outstanding, t);
    TimerStale(s.armed, s.inFlight, s.timers, s.outstanding, s.requests, t);
  }

  lemma RetryKeeps<R>(s: State<R>, t: nat)
    requires Inv(s) && Enabled(s, Deliver(t)) && Finds(s, s.inFlight[t])
    requires s.requests[s.outstanding[s.inFlight[t]]].retriesRemaining > 0
    ensures Inv(Next(s, Deliver(t)))
  {
    hide AllOk, QueueInv, AcceptedInv, OutstandingInv, TimerInv, ClientInv, Stale;
    var id := s.inFlight[t];
    FoundIsOutstanding(s, id);
    var r := s.outstanding[id];
    var q := s.requests[r];
    var x := q.(retriesRemaining := q.retriesRemaining - 1, timer := s.timers, forwards := q.forwards + 1);
    OkUpdate(s.requests, r, x);
    QueueUpdate(s.queue, s.requests, r, x);
    AcceptedUpdate(s.accepted, s.requests, r, x);
    OutstandingUpdate(s.outstanding, s.requests, r, x);
    StaleWithout(s.inFlight, s.outstanding, t);
    TimerRetry(s.armed, s.inFlight, s.timers, s.outstanding, s.requests, t, x);
    ClientUpdate(s.clients, s.requests, r, x);
  }

  lemma ExpireKeeps<R>(s: State<R>, t: nat)
    requires Inv(s) && Enabled(s, Deliver(t)) && Finds(s, s.inFlight[t])
    requires s.requests[s.outstanding[s.inFlight[t]]].retriesRemaining <= 0
    ensures Inv(Next(s, Deliver(t)))
  {
    hide AllOk, QueueInv, AcceptedInv, OutstandingInv, TimerInv, ClientInv, Stale;
    var id := s.inFlight[t];
    FoundIsOutstanding(s, id);
    var r := s.outstanding[id];
    var q := s.requests[r];
    var x := q.(timeoutError := true, phase := Expired, notified := q.notified + 1);
    OkUpdate(s.requests, r, x);
    QueueUpdate(s.queue, s.requests, r, x);
    AcceptedUpdate(s.accepted, s.requests, r, x);
    OutstandingRemove(s.outstanding, s.requests, id, x);
    TimerExpire(s.armed, s.inFlight, s.timers, s.outstanding, s.requests, t, x);
    ClientUpdate(s.clients, s.requests, r, x);
    MapSizes(s.outstanding, id, r);
    OwnTimerOnly(s, id);
    StaleWithout(s.inFlight, s.outstanding, t);
    StaleRemove(s.inFlight - {t}, s.outstanding, id, t);
  }

  /** Every enabled step that does not reuse an id keeps the invariant. */
  lemma StepKeeps<R>(s: State<R>, e: Event<R>)
    requires Inv(s) && Enabled(s, e) && FreshEvent(s, e)
    ensures Inv(Next(s, e))
  {
    match e
    case Send(c, r, retries) => SendKeeps(s, c, r, retries);
    case Accept => AcceptKeeps(s);
    case Respond(resp) => RespondKeeps(s, resp);
    case Fire(t) => FireKeeps(s, t);
    case Deliver(t) => DeliverKeeps(s, t);
    case Return(c) => ReturnKeeps(s, c);
  }
}
