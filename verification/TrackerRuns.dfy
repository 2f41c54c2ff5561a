/**
 Whole runs of the request tracker: which runs keep the invariant, what a client gets, how often a
 request is sent, that timeouts come to an end, and what happens when request ids wrap around.
 */
module TrackerRuns {
  import opened GoTypes
  import opened Tracker

  const IDS: nat := 0x1_0000_0000

  // ---------------------------------------------------------------------------
  // Runs

  /** The events can happen one after the other from `s`. */
  predicate Possible<R(==)>(s: State<R>, es: seq<Event<R>>)
    decreases |es|
  {
    es == [] || (Enabled(s, es[0]) && Possible(Next(s, es[0]), es[1..]))
  }

  function After<R(==)>(s: State<R>, es: seq<Event<R>>): State<R>
    requires Possible(s, es)
    decreases |es|
  {
    if es == [] then s else After(Next(s, es[0]), es[1..])
  }

  function Accepts<R(==)>(es: seq<Event<R>>): nat {
    if es == [] then 0 else (if es[0].Accept? then 1 else 0) + Accepts(es[1..])
  }

  lemma {:induction false} RunsCompose<R>(s: State<R>, es: seq<Event<R>>, es': seq<Event<R>>)
    requires Possible(s, es) && Possible(After(s, es), es')
    ensures Possible(s, es + es') && After(s, es + es') == After(After(s, es), es')
    decreases |es|
  {
    hide Next, Enabled;
    if es == [] {
      assert es + es' == es';
    } else {
      RunsCompose(Next(s, es[0]), es[1..], es');
      assert (es + es')[0] == es[0] && (es + es')[1..] == es[1..] + es';
    }
  }

  lemma RequestsAfter<R>(s: State<R>, e: Event<R>)
    requires Enabled(s, e)
    ensures Next(s, e).requests.Keys == s.requests.Keys + if e.Send? then {e.req} else {}
  {
  }

  /** A run sends each request object once, and none that was sent before. */
  lemma {:induction false} SendsAreNew<R>(s: State<R>, es: seq<Event<R>>)
    requires Possible(s, es)
    ensures forall i | 0 <= i < |es| && es[i].Send? :: es[i].req !in s.requests
    ensures forall i, j | 0 <= i < j < |es| && es[i].Send? && es[j].Send? :: es[i].req != es[j].req
    decreases |es|
  {
    hide Next;
    if es != [] {
      RequestsAfter(s, es[0]);
      SendsAreNew(Next(s, es[0]), es[1..]);
      forall j | 0 < j < |es| && es[j].Send? ensures es[j].req !in Next(s, es[0]).requests.Keys {
        assert es[1..][j - 1] == es[j];
      }
      forall i, j | 0 < i < j < |es| && es[i].Send? && es[j].Send? ensures es[i].req != es[j].req {
        assert es[1..][i - 1] == es[i] && es[1..][j - 1] == es[j];
      }
    }
  }

  // ---------------------------------------------------------------------------
  // Request ids

  /** The id of the n-th request accepted. */
  function IdOf(n: nat): uint32 {
    n % IDS
  }

  lemma NextIdIs<R>(s: State<R>, n: nat)
    requires s.nextRequestId == IdOf(n)
    ensures NextId(s) == IdOf(n + 1)
  {
  }

  predicate Issued(id: uint32, n: nat) {
    n < IDS ==> 1 <= id <= n
  }

  /** The n-th request accepted got id n modulo 2^32, and nothing else is in flight. */
  ghost predicate IdInv<R>(s: State<R>) {
    && s.nextRequestId == IdOf(|s.accepted|)
    && (forall i | 0 <= i < |s.accepted| :: s.accepted[i] in s.requests && s.requests[s.accepted[i]].id == IdOf(i + 1))
    && (forall t | t in s.inFlight :: Issued(s.inFlight[t], |s.accepted|))
  }

  lemma AcceptedIsIssued<R>(s: State<R>, r: R)
    requires Inv(s) && IdInv(s) && r in s.requests && s.requests[r].phase != Queued
    ensures Issued(s.requests[r].id, |s.accepted|)
  {
    hide AllOk, QueueInv, OutstandingInv, TimerInv, ClientInv, CountInv;
    var i :| 0 <= i < |s.accepted| && s.accepted[i] == r;
  }

  lemma UsedIsIssued<R>(s: State<R>, id: uint32)
    requires Inv(s) && IdInv(s) && (id in s.outstanding || id in s.inFlight.Values)
    ensures Issued(id, |s.accepted|)
  {
    hide AllOk, QueueInv, AcceptedInv, TimerInv, ClientInv, CountInv;
    if id in s.outstanding {
      AcceptedIsIssued(s, s.outstanding[id]);
    }
  }

  /** What accepting a request changes. */
  lemma AcceptEffect<R>(s: State<R>)
    requires Enabled(s, Accept)
    ensures var s', r := Next(s, Accept), s.queue[0];
            && s'.requests == s.requests[r := s.requests[r].(id := NextId(s), phase := Outstanding, timer := s.timers,
                                                             forwards := s.requests[r].forwards + 1)]
            && s'.nextRequestId == NextId(s) && s'.accepted == s.accepted + [r] && s'.queue == s.queue[1..]
            && s'.outstanding == s.outstanding[NextId(s) := r]
            && s'.inFlight == s.inFlight && s'.clients == s.clients
            && s'.stats == s.stats.(forwarded := s.stats.forwarded + 1)
  {
  }

  lemma AcceptKeepsIds<R>(s: State<R>)
    requires Inv(s) && IdInv(s) && Enabled(s, Accept)
    ensures IdInv(Next(s, Accept))
  {
    hide Inv, IdOf, NextId, Next;
    NextIsNotAccepted(s);
    NextIdIs(s, |s.accepted|);
    AcceptEffect(s);
    var r, s' := s.queue[0], Next(s, Accept);
    forall i | 0 <= i < |s'.accepted|
      ensures s'.accepted[i] in s'.requests && s'.requests[s'.accepted[i]].id == IdOf(i + 1)
    {
      assert i < |s.accepted| ==> s'.accepted[i] == s.accepted[i] && s.accepted[i] != r;
    }
  }

  lemma NextIsNotAccepted<R>(s: State<R>)
    requires Inv(s) && Enabled(s, Accept)
    ensures s.requests[s.queue[0]].phase == Queued && s.queue[0] !in s.accepted && RequestOk(s.requests[s.queue[0]])
  {
    hide OutstandingInv, TimerInv, ClientInv, CountInv;
  }

  lemma FireKeepsIds<R>(s: State<R>, t: nat)
    requires Inv(s) && IdInv(s) && Enabled(s, Fire(t))
    ensures IdInv(Next(s, Fire(t)))
  {
    hide AllOk, QueueInv, AcceptedInv, OutstandingInv, ClientInv, CountInv;
    AcceptedIsIssued(s, s.armed[t]);
  }

  lemma RespondKeepsIds<R>(s: State<R>, resp: Response)
    requires IdInv(s)
    ensures IdInv(Next(s, Respond(resp)))
  {
    hide IdOf, Issued;
  }

  lemma DeliverKeepsIds<R>(s: State<R>, t: nat)
    requires IdInv(s) && Enabled(s, Deliver(t))
    ensures IdInv(Next(s, Deliver(t)))
  {
    hide IdOf, Issued;
  }

  lemma StepKeepsIds<R>(s: State<R>, e: Event<R>)
    requires Inv(s) && IdInv(s) && Enabled(s, e)
    ensures IdInv(Next(s, e))
  {
    hide Inv, DoAccept, DoRespond, DoDeliver;
    match e {
      case Fire(t) => FireKeepsIds(s, t);
      case Accept => AcceptKeepsIds(s);
      case Respond(resp) => RespondKeepsIds(s, resp);
      case Deliver(t) => DeliverKeepsIds(s, t);
      case Return(c) =>
      case Send(c, r, n) =>
    }
  }

  /** Until 2^32 requests have been accepted, the next id is unused. */
  lemma FreshWhileFewerThan2To32<R>(s: State<R>)
    requires Inv(s) && IdInv(s) && |s.accepted| < IDS
    ensures FreshId(s)
  {
    hide Inv;
    var id := NextId(s);
    if !FreshId(s) {
      UsedIsIssued(s, id);
    }
  }

  lemma AcceptedGrows<R>(s: State<R>, e: Event<R>)
    requires Enabled(s, e)
    ensures |Next(s, e).accepted| == |s.accepted| + if e.Accept? then 1 else 0
  {
  }

  /** Accepting a request keeps the invariant exactly when its id is unused. */
  lemma AcceptKeepsInvIffFresh<R>(s: State<R>)
    requires Inv(s) && Enabled(s, Accept)
    ensures Inv(Next(s, Accept)) <==> FreshId(s)
  {
    hide AllOk, QueueInv, AcceptedInv, ClientInv, Stale, RequestOk, CountInv;
    if FreshId(s) {
      AcceptKeeps(s);
    } else {
      var id, s' := NextId(s), Next(s, Accept);
      if id in s.outstanding {
        assert s.requests[s.queue[0]].phase == Queued by { QueuePop(s.queue, s.requests, s.requests[s.queue[0]].(phase := Answered)); }
        assert !OutstandingInv(s'.outstanding, s'.requests) by {
          var r := s.outstanding[id];
          assert r in s'.requests && s'.requests[r] == s.requests[r] && s'.outstanding[id] != r;
        }
      } else {
        var t :| t in s.inFlight && s.inFlight[t] == id;
        assert s'.inFlight[t] in s'.outstanding && s'.requests[s'.outstanding[id]].timer == s.timers;
      }
    }
  }

  // ---------------------------------------------------------------------------
  // What becomes of a request

  ghost predicate Held<R>(s: State<R>, r: R) {
    r in s.outstanding.Values
  }

  ghost predicate NotifiedBy<R>(e: Event<R>, x: Request) {
    match e
    case Respond(resp) => resp.requestId == x.id && x.response == Some(resp) && !x.timeoutError
    case Deliver(_) => x.response == None && x.timeoutError
    case _ => false
  }

  /** A request is notified on the step that takes it out of the tracker's map, and on no other; that
      step is the arrival of a response with its id or the delivery of a timeout, and the request then
      carries exactly that outcome. */
  lemma NotifiedExactlyWhenRemoved<R>(s: State<R>, e: Event<R>, r: R)
    requires Inv(s) && Enabled(s, e) && FreshEvent(s, e) && r in s.requests
    ensures var s' := Next(s, e);
            && r in s'.requests
            && s'.requests[r].notified == s.requests[r].notified + (if Held(s, r) && !Held(s', r) then 1 else 0)
            && (Held(s, r) && !Held(s', r) ==> NotifiedBy(e, s'.requests[r]))
            && (!Held(s, r) && Held(s', r) ==> e.Accept? && r == s.queue[0])
  {
    hide Inv, Next, RequestOk;
    StepMoves(s, e, r);
    HeldIsOutstanding(s, r);
    StepKeeps(s, e);
    HeldIsOutstanding(Next(s, e), r);
  }

  /** The same in terms of phases: how a step takes a request from `x` to `x'`. */
  ghost predicate Moves<R>(e: Event<R>, next: bool, x: Request, x': Request) {
    && x'.notified == x.notified + (if x.phase == Outstanding && x'.phase != Outstanding then 1 else 0)
    && (x.phase == Outstanding && x'.phase != Outstanding ==> NotifiedBy(e, x'))
    && (x.phase != Outstanding && x'.phase == Outstanding ==> e.Accept? && next)
  }

  ghost predicate IsNext<R>(s: State<R>, r: R) {
    s.queue != [] && r == s.queue[0]
  }

  lemma AcceptMoves<R>(s: State<R>, r: R)
    requires Inv(s) && Enabled(s, Accept) && r in s.requests
    ensures r in Next(s, Accept).requests && Moves<R>(Accept, IsNext(s, r), s.requests[r], Next(s, Accept).requests[r])
  {
    hide AllOk, AcceptedInv, OutstandingInv, TimerInv, ClientInv, CountInv;
    assert s.requests[s.queue[0]].phase == Queued;
  }

  lemma RespondMoves<R>(s: State<R>, resp: Response, r: R)
    requires Inv(s) && r in s.requests
    ensures r in Next(s, Respond(resp)).requests
    ensures Moves<R>(Respond(resp), IsNext(s, r), s.requests[r], Next(s, Respond(resp)).requests[r])
  {
    hide Inv;
    if Finds(s, resp.requestId) { FoundIsOutstanding(s, resp.requestId); }
  }

  lemma DeliverMoves<R>(s: State<R>, t: nat, r: R)
    requires Inv(s) && Enabled(s, Deliver(t)) && r in s.requests
    ensures r in Next(s, Deliver(t)).requests
    ensures Moves<R>(Deliver(t), IsNext(s, r), s.requests[r], Next(s, Deliver(t)).requests[r])
  {
    hide Inv;
    if Finds(s, s.inFlight[t]) { FoundIsOutstanding(s, s.inFlight[t]); }
  }

  lemma StepMoves<R>(s: State<R>, e: Event<R>, r: R)
    requires Inv(s) && Enabled(s, e) && r in s.requests
    ensures r in Next(s, e).requests && Moves(e, IsNext(s, r), s.requests[r], Next(s, e).requests[r])
  {
    hide Inv, DoAccept, DoRespond, DoDeliver;
    match e {
      case Accept => AcceptMoves(s, r);
      case Respond(resp) => RespondMoves(s, resp, r);
      case Deliver(t) => DeliverMoves(s, t, r);
      case Fire(t) =>
      case Return(c) =>
      case Send(c, r', n) =>
    }
  }

  lemma HeldIsOutstanding<R>(s: State<R>, r: R)
    requires Inv(s) && r in s.requests
    ensures Held(s, r) <==> s.requests[r].phase == Outstanding
  {
    hide AllOk, QueueInv, AcceptedInv, ClientInv, Stale, TimerInv, RequestOk, CountInv;
    if s.requests[r].phase == Outstanding {
      assert s.outstanding[s.requests[r].id] == r;
    }
  }

  /** When SendRequest returns, the request carries a response to its own id or a timeout error, not
      both; with a timeout it was sent exactly once more than its budget of retries, with a response at
      most that often. */
  lemma ReturnedWithOneOutcome<R>(s: State<R>, c: nat)
    requires Inv(s) && Enabled(s, Return(c))
    ensures var x := s.requests[s.clients[c]];
            && x.client == c
            && x.notified == 1
            && (x.timeoutError <==> x.response == None)
            && (x.response.Some? ==> x.response.value.requestId == x.id)
            && 1 <= x.forwards <= Max0(x.retries) + 1
            && (x.timeoutError ==> x.forwards == Max0(x.retries) + 1)
  {
    hide QueueInv, AcceptedInv, Stale, TimerInv;
  }

  // ---------------------------------------------------------------------------
  // What the clients asked for

  lemma StepKeepsTheAsked<R>(s: State<R>, e: Event<R>, r: R)
    requires Enabled(s, e) && r in s.requests
    ensures r in Next(s, e).requests
    ensures Next(s, e).requests[r].client == s.requests[r].client && Next(s, e).requests[r].retries == s.requests[r].retries
  {
  }

  lemma {:induction false} RunKeepsTheAsked<R>(s: State<R>, es: seq<Event<R>>, r: R)
    requires Possible(s, es) && r in s.requests
    ensures r in After(s, es).requests
    ensures After(s, es).requests[r].client == s.requests[r].client && After(s, es).requests[r].retries == s.requests[r].retries
    decreases |es|
  {
    hide Next, Enabled;
    if es != [] {
      StepKeepsTheAsked(s, es[0], r);
      RunKeepsTheAsked(Next(s, es[0]), es[1..], r);
    }
  }

  lemma SendRecords<R>(s: State<R>, c: nat, r: R, n: int)
    requires Enabled(s, Send(c, r, n))
    ensures var q := Next(s, Send(c, r, n)).requests; r in q && q[r].client == c && q[r].retries == n
  {
  }

  /** In every run a request belongs to the client that sent it and has the budget of retries that this
      client asked for. */
  lemma {:induction false} AsTheClientAsked<R>(s: State<R>, es: seq<Event<R>>, i: nat)
    requires Possible(s, es) && i < |es| && es[i].Send?
    ensures es[i].req in After(s, es).requests
    ensures After(s, es).requests[es[i].req].client == es[i].client && After(s, es).requests[es[i].req].retries == es[i].retries
    decreases |es|
  {
    hide Next, Enabled;
    if i == 0 {
      SendRecords(s, es[0].client, es[0].req, es[0].retries);
      RunKeepsTheAsked(Next(s, es[0]), es[1..], es[0].req);
    } else {
      AsTheClientAsked(Next(s, es[0]), es[1..], i - 1);
    }
  }

  /** Every request the tracker knows was sent by a client. */
  lemma {:induction false} KnownWasSent<R>(s: State<R>, es: seq<Event<R>>, r: R)
    requires Possible(s, es) && r in After(s, es).requests && r !in s.requests
    ensures exists i :: 0 <= i < |es| && es[i].Send? && es[i].req == r
    decreases |es|
  {
    hide Next, Enabled;
    if es != [] {
      RequestsAfter(s, es[0]);
      if es[0].Send? && es[0].req == r {
        assert es[0].Send?;
      } else {
        assert r !in Next(s, es[0]).requests.Keys;
        KnownWasSent(Next(s, es[0]), es[1..], r);
        var i :| 0 <= i < |es[1..]| && es[1..][i].Send? && es[1..][i].req == r;
        assert es[i + 1].Send? && es[i + 1].req == r;
      }
    }
  }

  /** No request is forwarded more often than once and once per retry; one that timed out, exactly as often. */
  lemma SentWithinBudget<R>(s: State<R>)
    requires Inv(s)
    ensures forall r | r in s.requests ::
              && s.requests[r].forwards <= Max0(s.requests[r].retries) + 1
              && (s.requests[r].timeoutError ==> s.requests[r].forwards == Max0(s.requests[r].retries) + 1)
  {
    hide QueueInv, AcceptedInv, OutstandingInv, TimerInv, ClientInv, CountInv;
    forall r | r in s.requests ensures RequestOk(s.requests[r]) {
    }
  }

  /** A client that has been waiting is either still queued, held by the tracker with a timer that will
      speak for it, or free to return. */
  lemma NobodyIsStuck<R>(s: State<R>, c: nat)
    requires Inv(s) && c in s.clients
    ensures var r := s.clients[c];
            && r in s.requests
            && (r in s.queue
                || (Held(s, r) && (Enabled(s, Fire(s.requests[r].timer)) || Enabled(s, Deliver(s.requests[r].timer))))
                || Enabled(s, Return(c)))
    ensures s.queue != [] ==> Enabled(s, Accept)
  {
    hide AcceptedInv, OutstandingInv, TimerInv, CountInv;
    var r := s.clients[c];
    HeldIsOutstanding(s, r);
    if s.requests[r].phase == Outstanding { OutstandingHasTimer(s, r); }
  }

  // ---------------------------------------------------------------------------
  // Sums over the accepted requests

  function Sum<R(==)>(rs: seq<R>, q: map<R, Request>, f: Request -> nat): nat {
    if rs == [] then 0
    else (if rs[0] in q then f(q[rs[0]]) else 0) + Sum(rs[1..], q, f)
  }

  lemma {:induction false} SumOutside<R>(rs: seq<R>, q: map<R, Request>, f: Request -> nat, r: R, x: Request)
    requires r !in rs
    ensures Sum(rs, q[r := x], f) == Sum(rs, q, f)
  {
    if rs != [] { SumOutside(rs[1..], q, f, r, x); }
  }

  lemma {:induction false} SumUpdate<R>(rs: seq<R>, q: map<R, Request>, f: Request -> nat, r: R, x: Request)
    requires r in rs && r in q
    requires forall i, j | 0 <= i < j < |rs| :: rs[i] != rs[j]
    ensures Sum(rs, q[r := x], f) == Sum(rs, q, f) - f(q[r]) + f(x)
  {
    if rs[0] == r {
      SumOutside(rs[1..], q, f, r, x);
    } else {
      SumUpdate(rs[1..], q, f, r, x);
    }
  }

  lemma {:induction false} SumPush<R>(rs: seq<R>, q: map<R, Request>, f: Request -> nat, r: R)
    requires r in q
    ensures Sum(rs + [r], q, f) == Sum(rs, q, f) + f(q[r])
  {
    if rs == [] {
      assert rs + [r] == [r];
    } else {
      assert (rs + [r])[1..] == rs[1..] + [r];
      SumPush(rs[1..], q, f, r);
    }
  }

  lemma {:induction false} SumPointwise<R>(rs: seq<R>, q: map<R, Request>, f: Request -> nat, g: Request -> nat)
    requires forall r | r in rs && r in q :: f(q[r]) <= g(q[r])
    ensures Sum(rs, q, f) <= Sum(rs, q, g)
  {
    if rs != [] { SumPointwise(rs[1..], q, f, g); }
  }

  lemma {:induction false} SumConstant<R>(rs: seq<R>, q: map<R, Request>, f: Request -> nat, k: nat)
    requires forall r | r in rs :: r in q && f(q[r]) == k
    ensures Sum(rs, q, f) == |rs| * k
  {
    if rs != [] { SumConstant(rs[1..], q, f, k); }
  }

  /** How the sum changes when one accepted request changes, or one is accepted. */
  lemma SumStep<R>(s: State<R>, r: R, x: Request, f: Request -> nat)
    requires Inv(s) && r in s.requests && (r in s.accepted || r in s.queue)
    ensures r in s.accepted ==> Sum(s.accepted, s.requests[r := x], f) == Sum(s.accepted, s.requests, f) - f(s.requests[r]) + f(x)
    ensures r in s.queue ==> Sum(s.accepted + [r], s.requests[r := x], f) == Sum(s.accepted, s.requests, f) + f(x)
  {
    hide AllOk, OutstandingInv, ClientInv, Stale, TimerInv, RequestOk;
    if r in s.accepted {
      SumUpdate(s.accepted, s.requests, f, r, x);
    }
    if r in s.queue {
      assert s.requests[r].phase == Queued;
      SumPush(s.accepted, s.requests[r := x], f, r);
      SumOutside(s.accepted, s.requests, f, r, x);
    }
  }

  // ---------------------------------------------------------------------------
  // Retries and timeouts

  function Forwards(x: Request): nat { x.forwards }

  function Budget(x: Request): nat { Max0(x.retries) + 1 }

  function Answers(x: Request): nat { if x.phase == Answered then 1 else 0 }

  function Expiries(x: Request): nat { if x.phase == Expired then 1 else 0 }

  /** The timeouts a request can still take. */
  function Pending(x: Request): nat { if x.phase == Outstanding then Max0(x.retriesRemaining) + 1 else 0 }

  /** The timeouts that all the tracker's outstanding requests can still take. */
  function Work<R(==)>(s: State<R>): nat {
    Sum(s.accepted, s.requests, Pending)
  }

  /** The statistics are sums over the requests. */
  ghost predicate StatsAreSums<R>(s: State<R>) {
    && s.stats.forwarded == Sum(s.accepted, s.requests, Forwards)
    && s.stats.released == Sum(s.accepted, s.requests, Answers)
    && s.stats.exhausted == Sum(s.accepted, s.requests, Expiries)
  }

  /** The request that a step works on, and what it becomes. */
  lemma SumsAfter<R>(s: State<R>, r: R, x: Request)
    requires Inv(s) && r in s.accepted
    ensures r in s.requests
    ensures var q, q' := s.requests, s.requests[r := x];
            && Sum(s.accepted, q', Forwards) == Sum(s.accepted, q, Forwards) - Forwards(q[r]) + Forwards(x)
            && Sum(s.accepted, q', Answers) == Sum(s.accepted, q, Answers) - Answers(q[r]) + Answers(x)
            && Sum(s.accepted, q', Expiries) == Sum(s.accepted, q, Expiries) - Expiries(q[r]) + Expiries(x)
            && Sum(s.accepted, q', Pending) == Sum(s.accepted, q, Pending) - Pending(q[r]) + Pending(x)
  {
    assert r in s.requests;
    hide *;
    SumStep(s, r, x, Forwards);
    SumStep(s, r, x, Answers);
    SumStep(s, r, x, Expiries);
    SumStep(s, r, x, Pending);
  }

  lemma SumsAccept<R>(s: State<R>, r: R, x: Request)
    requires Inv(s) && r in s.queue && r in s.requests
    ensures var q, q' := s.requests, s.requests[r := x];
            && Sum(s.accepted + [r], q', Forwards) == Sum(s.accepted, q, Forwards) + Forwards(x)
            && Sum(s.accepted + [r], q', Answers) == Sum(s.accepted, q, Answers) + Answers(x)
            && Sum(s.accepted + [r], q', Expiries) == Sum(s.accepted, q, Expiries) + Expiries(x)
            && Sum(s.accepted + [r], q', Pending) == Sum(s.accepted, q, Pending) + Pending(x)
  {
    hide *;
    SumStep(s, r, x, Forwards);
    SumStep(s, r, x, Answers);
    SumStep(s, r, x, Expiries);
    SumStep(s, r, x, Pending);
  }

  /** What a step does to the sums and to the timeouts still to come. */
  ghost predicate Accounted<R>(s: State<R>, e: Event<R>, s': State<R>) {
    && StatsAreSums(s')
    && match e
       case Accept => s.queue != [] && s.queue[0] in s.requests && Work(s') == Work(s) + Budget(s.requests[s.queue[0]])
       case Respond(resp) => if Finds(s, resp.requestId) then Work(s') < Work(s) else Work(s') == Work(s)
       case Deliver(t) => t in s.inFlight && Work(s') == Work(s) - if Finds(s, s.inFlight[t]) then 1 else 0
       case _ => Work(s') == Work(s)
  }

  lemma AcceptAccounted<R>(s: State<R>)
    requires Inv(s) && StatsAreSums(s) && Enabled(s, Accept)
    ensures Accounted(s, Accept, Next(s, Accept))
  {
    hide Inv, Sum, Next, NextId, RequestOk, Forwards, Answers, Expiries, Pending, Budget;
    NextIsNotAccepted(s);
    AcceptEffect(s);
    NewlyAccepted(s.requests[s.queue[0]], Next(s, Accept).requests[s.queue[0]]);
    SumsAccept(s, s.queue[0], Next(s, Accept).requests[s.queue[0]]);
  }

  lemma NewlyAccepted(x: Request, x': Request)
    requires RequestOk(x) && x.phase == Queued && x'.phase == Outstanding
    requires x'.forwards == x.forwards + 1 && x'.retries == x.retries && x'.retriesRemaining == x.retriesRemaining
    ensures Forwards(x') == 1 && Answers(x') == 0 && Expiries(x') == 0 && Pending(x') == Budget(x)
  {
  }

  lemma RespondAccounted<R>(s: State<R>, resp: Response)
    requires Inv(s) && StatsAreSums(s)
    ensures Accounted(s, Respond(resp), Next(s, Respond(resp)))
  {
    hide Inv, Sum;
    if Finds(s, resp.requestId) {
      var r := s.outstanding[resp.requestId];
      FoundIsOutstanding(s, resp.requestId);
      FoundIsAccepted(s, resp.requestId);
      SumsAfter(s, r, Next(s, Respond(resp)).requests[r]);
    }
  }

  lemma FoundIsAccepted<R>(s: State<R>, id: uint32)
    requires Inv(s) && Finds(s, id)
    ensures s.outstanding[id] in s.accepted
  {
    hide AllOk, QueueInv, TimerInv, ClientInv, CountInv;
  }

  lemma DeliverAccounted<R>(s: State<R>, t: nat)
    requires Inv(s) && StatsAreSums(s) && Enabled(s, Deliver(t))
    ensures Accounted(s, Deliver(t), Next(s, Deliver(t)))
  {
    hide Inv, Sum;
    var id := s.inFlight[t];
    if Finds(s, id) {
      var r := s.outstanding[id];
      FoundIsOutstanding(s, id);
      FoundIsAccepted(s, id);
      SumsAfter(s, r, Next(s, Deliver(t)).requests[r]);
    }
  }

  lemma SendAccounted<R>(s: State<R>, c: nat, r: R, n: int)
    requires Inv(s) && StatsAreSums(s) && Enabled(s, Send(c, r, n))
    ensures Accounted(s, Send(c, r, n), Next(s, Send(c, r, n)))
  {
    assert r !in s.accepted;
    var x := Next(s, Send(c, r, n)).requests[r];
    hide Inv, Sum;
    SumOutside(s.accepted, s.requests, Forwards, r, x);
    SumOutside(s.accepted, s.requests, Answers, r, x);
    SumOutside(s.accepted, s.requests, Expiries, r, x);
    SumOutside(s.accepted, s.requests, Pending, r, x);
  }

  /** Every step keeps the statistics equal to the sums over the requests. A timeout delivered for an
      outstanding request spends exactly one of the timeouts still to come, a response spends at least
      one, and only accepting a request adds to them. */
  lemma StepAccounted<R>(s: State<R>, e: Event<R>)
    requires Inv(s) && StatsAreSums(s) && Enabled(s, e)
    ensures Accounted(s, e, Next(s, e))
  {
    hide Inv, DoAccept, DoRespond, DoDeliver, Sum;
    match e {
      case Accept => AcceptAccounted(s);
      case Respond(resp) => RespondAccounted(s, resp);
      case Deliver(t) => DeliverAccounted(s, t);
      case Fire(t) =>
      case Return(c) =>
      case Send(c, r, n) => SendAccounted(s, c, r, n);
    }
  }

  lemma KeepsSums<R>(s: State<R>, e: Event<R>)
    requires Inv(s) && StatsAreSums(s) && Enabled(s, e)
    ensures StatsAreSums(Next(s, e))
  {
    hide Inv, Next, Enabled, StatsAreSums;
    StepAccounted(s, e);
  }

  /** Every request accepted in the run gets an id that is not in use. */
  predicate FreshRun<R(==)>(s: State<R>, es: seq<Event<R>>)
    decreases |es|
  {
    es == [] || (Enabled(s, es[0]) && FreshEvent(s, es[0]) && FreshRun(Next(s, es[0]), es[1..]))
  }

  /** The invariant holds in every state of the run. */
  ghost predicate InvThroughout<R>(s: State<R>, es: seq<Event<R>>)
    requires Possible(s, es)
    decreases |es|
  {
    Inv(s) && (es != [] ==> InvThroughout(Next(s, es[0]), es[1..]))
  }

  lemma {:induction false} FreshRunIsPossible<R>(s: State<R>, es: seq<Event<R>>)
    requires FreshRun(s, es)
    ensures Possible(s, es)
    decreases |es|
  {
    hide Next, Enabled, FreshId;
    if es != [] { FreshRunIsPossible(Next(s, es[0]), es[1..]); }
  }

  /** The runs that keep the invariant all the way are exactly those that never reuse an id in use. */
  lemma {:induction false} InvThroughoutIffFresh<R>(s: State<R>, es: seq<Event<R>>)
    requires Inv(s) && Possible(s, es)
    ensures InvThroughout(s, es) <==> FreshRun(s, es)
    decreases |es|
  {
    hide Inv, Next, Enabled, FreshId;
    if es != [] {
      var s' := Next(s, es[0]);
      if es[0].Accept? {
        AcceptKeepsInvIffFresh(s);
      } else {
        StepKeeps(s, es[0]);
      }
      if Inv(s') {
        InvThroughoutIffFresh(s', es[1..]);
      } else {
        NotThroughout(s', es[1..]);
      }
    }
  }

  lemma NotThroughout<R>(s: State<R>, es: seq<Event<R>>)
    requires !Inv(s) && Possible(s, es)
    ensures !InvThroughout(s, es)
  {
    hide Inv, Next, Enabled;
  }

  lemma {:induction false} FreshRunKeeps<R>(s: State<R>, es: seq<Event<R>>)
    requires Inv(s) && StatsAreSums(s) && FreshRun(s, es)
    ensures Possible(s, es) && Inv(After(s, es)) && StatsAreSums(After(s, es))
    decreases |es|
  {
    hide Inv, StatsAreSums, Next, Enabled, FreshId;
    if es != [] {
      StepKeeps(s, es[0]);
      KeepsSums(s, es[0]);
      FreshRunKeeps(Next(s, es[0]), es[1..]);
    }
  }

  /** Main result: every run from the start that never reuses an id in use, however many requests it accepts
      and whatever the network, the timers and the clients do in it, ends in a state with the whole
      invariant and the right statistics. */
  lemma RunsAreSafe<R>(es: seq<Event<R>>)
    requires FreshRun(Init<R>(), es)
    ensures Possible(Init<R>(), es) && Inv(After(Init<R>(), es)) && StatsAreSums(After(Init<R>(), es))
  {
    hide Inv, StatsAreSums, FreshRun, Possible, After;
    InitInv<R>();
    StatsStartAtZero<R>();
    FreshRunKeeps(Init<R>(), es);
  }

  lemma StatsStartAtZero<R>()
    ensures StatsAreSums(Init<R>()) && IdInv(Init<R>())
  {
  }

  /** Runs that accept at most 2^32 requests never reuse an id in use. */
  lemma {:induction false} FewAcceptsAreFresh<R>(s: State<R>, es: seq<Event<R>>)
    requires Inv(s) && IdInv(s) && Possible(s, es) && |s.accepted| + Accepts(es) <= IDS
    ensures FreshRun(s, es)
    decreases |es|
  {
    hide Inv, IdInv, Next, Enabled, FreshId;
    if es != [] {
      if es[0].Accept? { FreshWhileFewerThan2To32(s); }
      AcceptedGrows(s, es[0]);
      StepKeeps(s, es[0]);
      StepKeepsIds(s, es[0]);
      FewAcceptsAreFresh(Next(s, es[0]), es[1..]);
    }
  }

  lemma ShortRunsAreSafe<R>(es: seq<Event<R>>)
    requires Possible(Init<R>(), es) && Accepts(es) <= IDS
    ensures FreshRun(Init<R>(), es)
    ensures Inv(After(Init<R>(), es)) && StatsAreSums(After(Init<R>(), es))
  {
    hide Inv, StatsAreSums, IdInv, FreshRun, Possible, After;
    InitInv<R>();
    StatsStartAtZero<R>();
    FewAcceptsAreFresh(Init<R>(), es);
    RunsAreSafe(es);
  }

  function Spent(x: Request): nat {
    (if x.forwards > 0 then x.forwards - 1 else 0) + Expiries(x) + Pending(x)
  }

  lemma {:induction false} SumSpent<R>(rs: seq<R>, q: map<R, Request>)
    requires forall r | r in rs :: r in q && q[r].forwards >= 1
    ensures Sum(rs, q, Spent) + |rs| == Sum(rs, q, Forwards) + Sum(rs, q, Expiries) + Sum(rs, q, Pending)
  {
    if rs != [] { SumSpent(rs[1..], q); }
  }

  /** The timeouts handled so far and those still to come never exceed the budgets of the requests
      accepted, so however timers, late and duplicate responses interleave, only so many messages are
      sent: one per request and one per retry of its budget. */
  lemma TimeoutsAreBounded<R>(s: State<R>)
    requires Inv(s) && StatsAreSums(s)
    ensures s.stats.timedOut + s.stats.exhausted + Work(s) <= Sum(s.accepted, s.requests, Budget)
    ensures s.stats.forwarded <= Sum(s.accepted, s.requests, Budget)
  {
    forall r | r in s.accepted
      ensures r in s.requests && s.requests[r].forwards >= 1 && Spent(s.requests[r]) <= Budget(s.requests[r])
              && Forwards(s.requests[r]) <= Budget(s.requests[r])
    {
      AcceptedIsOk(s, r);
    }
    hide AllOk, QueueInv, AcceptedInv, OutstandingInv, TimerInv, ClientInv, Sum;
    SumSpent(s.accepted, s.requests);
    SumPointwise(s.accepted, s.requests, Spent, Budget);
    SumPointwise(s.accepted, s.requests, Forwards, Budget);
  }

  lemma AcceptedIsOk<R>(s: State<R>, r: R)
    requires Inv(s) && r in s.accepted
    ensures r in s.requests && s.requests[r].phase != Queued && RequestOk(s.requests[r])
  {
    hide QueueInv, OutstandingInv, TimerInv, ClientInv, CountInv;
  }

  lemma SumOfNone<R>(rs: seq<R>, q: map<R, Request>, f: Request -> nat, r: R)
    requires Sum(rs, q, f) == 0 && r in rs && r in q
    ensures f(q[r]) == 0
  {
    if rs[0] != r { SumOfNone(rs[1..], q, f, r); }
  }

  /** When nobody answers and every request has run its course, each was sent once and then once per
      retry, and each ran out of retries. */
  lemma UnansweredCounts<R>(s: State<R>)
    requires Inv(s) && StatsAreSums(s)
    requires s.stats.released == 0 && s.outstanding == map[]
    ensures s.stats.exhausted == |s.accepted|
    ensures s.stats.forwarded == Sum(s.accepted, s.requests, Budget)
    ensures forall r | r in s.accepted :: r in s.requests && s.requests[r].phase == Expired
  {
    hide QueueInv, TimerInv, ClientInv, Sum;
    forall r | r in s.accepted
      ensures r in s.requests && s.requests[r].phase == Expired && Forwards(s.requests[r]) == Budget(s.requests[r])
    {
      AcceptedIsOk(s, r);
      SumOfNone(s.accepted, s.requests, Answers, r);
      HeldIsOutstanding(s, r);
    }
    SumPointwise(s.accepted, s.requests, Forwards, Budget);
    SumPointwise(s.accepted, s.requests, Budget, Forwards);
  }

  lemma UnansweredState<R>(s: State<R>, b: nat)
    requires Inv(s) && StatsAreSums(s)
    requires s.stats.released == 0 && s.outstanding == map[] && s.queue == []
    requires forall r | r in s.requests :: s.requests[r].retries == b
    ensures s.stats.exhausted == s.stats.sent
    ensures s.stats.timedOut == s.stats.sent * b
    ensures s.stats.forwarded == s.stats.sent * (b + 1)
  {
    UnansweredCounts(s);
    hide Sum;
    SumConstant(s.accepted, s.requests, Budget, b + 1);
  }

  // ---------------------------------------------------------------------------
  // Counting the events of a run

  function Sends<R(==)>(es: seq<Event<R>>): nat {
    if es == [] then 0 else (if es[0].Send? then 1 else 0) + Sends(es[1..])
  }

  function Responds<R(==)>(es: seq<Event<R>>): nat {
    if es == [] then 0 else (if es[0].Respond? then 1 else 0) + Responds(es[1..])
  }

  function Delivers<R(==)>(es: seq<Event<R>>): nat {
    if es == [] then 0 else (if es[0].Deliver? then 1 else 0) + Delivers(es[1..])
  }

  /** The requests that clients send in a run, in order. */
  function SentInOrder<R>(es: seq<Event<R>>): seq<R> {
    if es == [] then [] else (if es[0].Send? then [es[0].req] else []) + SentInOrder(es[1..])
  }

  lemma StepKeepsOrder<R>(s: State<R>, e: Event<R>)
    requires Enabled(s, e)
    ensures Next(s, e).accepted + Next(s, e).queue == s.accepted + s.queue + if e.Send? then [e.req] else []
  {
  }

  /** Requests are accepted, and so numbered, in the order in which the clients sent them, and none is left
      out. */
  lemma {:induction false} AcceptedInOrder<R>(s: State<R>, es: seq<Event<R>>)
    requires Possible(s, es)
    ensures After(s, es).accepted + After(s, es).queue == s.accepted + s.queue + SentInOrder(es)
    decreases |es|
  {
    hide Next, Enabled;
    if es != [] {
      StepKeepsOrder(s, es[0]);
      AcceptedInOrder(Next(s, es[0]), es[1..]);
    }
  }

  lemma StepCounts<R>(s: State<R>, e: Event<R>)
    requires Enabled(s, e)
    ensures var t, t' := s.stats, Next(s, e).stats;
            && t'.sent == t.sent + (if e.Send? then 1 else 0)
            && t'.released + t'.dropped == t.released + t.dropped + (if e.Respond? then 1 else 0)
            && t'.timedOut + t'.exhausted + t'.unknownTimedOut
               == t.timedOut + t.exhausted + t.unknownTimedOut + (if e.Deliver? then 1 else 0)
  {
  }

  /** In every run, fresh or not: every request sent is counted once, every response as released or dropped,
      every timeout as a retry, a last timeout or one for an unknown id. */
  lemma {:induction false} EveryEventIsCounted<R>(s: State<R>, es: seq<Event<R>>)
    requires Possible(s, es)
    ensures var t, t' := s.stats, After(s, es).stats;
            && t'.sent == t.sent + Sends(es)
            && t'.released + t'.dropped == t.released + t.dropped + Responds(es)
            && t'.timedOut + t'.exhausted + t'.unknownTimedOut == t.timedOut + t.exhausted + t.unknownTimedOut + Delivers(es)
    decreases |es|
  {
    hide Next, Enabled;
    if es != [] {
      StepCounts(s, es[0]);
      EveryEventIsCounted(Next(s, es[0]), es[1..]);
    }
  }

  /** The equations the repository's client tests check for a few sizes, for any number of requests that
      their clients send with the same budget b and nobody answers: all of them exhausted, b timeouts and
      b + 1 messages for each. */
  lemma UnansweredWithEqualBudgets<R>(es: seq<Event<R>>, b: nat)
    requires FreshRun(Init<R>(), es) && forall i | 0 <= i < |es| && es[i].Send? :: es[i].retries == b
    requires Possible(Init<R>(), es)
    requires var s := After(Init<R>(), es); s.stats.released == 0 && s.outstanding == map[] && s.queue == []
    ensures var t := After(Init<R>(), es).stats;
            && t.sent == Sends(es)
            && t.exhausted == Sends(es) && t.timedOut == Sends(es) * b && t.forwarded == Sends(es) * (b + 1)
  {
    hide Inv, StatsAreSums, FreshRun, Possible, After;
    var s := After(Init<R>(), es);
    RunsAreSafe(es);
    EveryEventIsCounted(Init<R>(), es);
    forall r | r in s.requests ensures s.requests[r].retries == b {
      KnownWasSent(Init<R>(), es, r);
      var i :| 0 <= i < |es| && es[i].Send? && es[i].req == r;
      AsTheClientAsked(Init<R>(), es, i);
    }
    UnansweredState(s, b);
  }

  /** What a client asked for is what it gets: its request is forwarded at most once and once per retry it
      asked for, and exactly so often if it timed out. */
  lemma SentAsOftenAsAsked<R>(es: seq<Event<R>>, i: nat)
    requires FreshRun(Init<R>(), es) && i < |es| && es[i].Send?
    ensures Possible(Init<R>(), es) && es[i].req in After(Init<R>(), es).requests
    ensures var x := After(Init<R>(), es).requests[es[i].req];
            && x.client == es[i].client
            && x.forwards <= Max0(es[i].retries) + 1
            && (x.timeoutError ==> x.forwards == Max0(es[i].retries) + 1)
  {
    hide Inv, StatsAreSums, FreshRun, Possible, After;
    RunsAreSafe(es);
    AsTheClientAsked(Init<R>(), es, i);
    SentWithinBudget(After(Init<R>(), es));
  }

  // ---------------------------------------------------------------------------
  // The timers run down

  /** Drops with every timer event. */
  function Clock<R(==)>(s: State<R>): nat {
    3 * Work(s) + 2 * |s.armed| + |s.inFlight|
  }

  predicate IsTimerEvent<R(==)>(e: Event<R>) {
    e.Fire? || e.Deliver?
  }

  lemma TimersRunDown<R>(s: State<R>, e: Event<R>)
    requires Inv(s) && StatsAreSums(s) && Enabled(s, e) && IsTimerEvent(e)
    ensures Clock(Next(s, e)) < Clock(s)
  {
    StepAccounted(s, e);
    TimersOnly(s, e);
  }

  lemma TimersOnly<R>(s: State<R>, e: Event<R>)
    requires Inv(s) && Enabled(s, e) && IsTimerEvent(e)
    ensures var s' := Next(s, e);
            match e
            case Fire(t) => |s'.armed| == |s.armed| - 1 && |s'.inFlight| == |s.inFlight| + 1
            case Deliver(t) => |s'.inFlight| == |s.inFlight| - 1
                               && |s'.armed| <= |s.armed| + if Finds(s, s.inFlight[t]) then 1 else 0
            case _ => true
  {
    hide AllOk, QueueInv, AcceptedInv, OutstandingInv, ClientInv, CountInv;
    match e {
      case Fire(t) =>
        MapSizes(s.armed, t, s.armed[t]);
        MapSizes(s.inFlight, t, s.requests[s.armed[t]].id);
      case Deliver(t) =>
        MapSizes(s.inFlight, t, s.inFlight[t]);
        if Finds(s, s.inFlight[t]) {
          MapSizes(s.armed, s.timers, s.outstanding[s.inFlight[t]]);
        }
    }
  }

  lemma OutstandingHasTimer<R>(s: State<R>, r: R)
    requires Inv(s) && r in s.requests && s.requests[r].phase == Outstanding
    ensures HasTimer(s.armed, s.inFlight, r, s.requests[r])
  {
    hide AllOk, QueueInv, AcceptedInv, OutstandingInv, ClientInv, CountInv, HasTimer;
  }

  /** When no timer event is left, no request is left. */
  lemma QuietMeansDone<R>(s: State<R>)
    requires Inv(s) && s.outstanding != map[]
    ensures exists t :: Enabled<R>(s, Fire(t)) || Enabled<R>(s, Deliver(t))
  {
    hide Inv;
    var id :| id in s.outstanding;
    FoundIsOutstanding(s, id);
    var r := s.outstanding[id];
    OutstandingHasTimer(s, r);
    assert Enabled<R>(s, Fire(s.requests[r].timer)) || Enabled<R>(s, Deliver(s.requests[r].timer));
  }

  /** From any reachable state the timers alone bring every outstanding request to its end; by
      TimersRunDown they do so in whatever order they fire. */
  lemma {:induction false} TimersFinishEveryRequest<R>(s: State<R>) returns (es: seq<Event<R>>)
    requires Inv(s) && StatsAreSums(s)
    ensures Possible(s, es) && After(s, es).outstanding == map[] && Inv(After(s, es))
    ensures forall i | 0 <= i < |es| :: IsTimerEvent(es[i])
    ensures |es| <= Clock(s)
    decreases Clock(s)
  {
    hide Inv, StatsAreSums, Next, Enabled, Clock;
    es := [];
    if s.outstanding != map[] {
      QuietMeansDone(s);
      var t :| Enabled<R>(s, Fire(t)) || Enabled<R>(s, Deliver(t));
      var e := if Enabled<R>(s, Fire(t)) then Fire(t) else Deliver(t);
      StepKeeps(s, e);
      KeepsSums(s, e);
      TimersRunDown(s, e);
      var rest := TimersFinishEveryRequest(Next(s, e));
      es := [e] + rest;
      assert es[1..] == rest;
    }
  }

  // ---------------------------------------------------------------------------
  // Ids that wrap around

  /** A request the tracker has lost: accepted, not ended, but no id leads to it. */
  predicate Lost<R(==)>(s: State<R>, r: R) {
    && r in s.requests && s.requests[r].phase == Outstanding && s.requests[r].notified == 0
    && r !in s.queue && r !in s.outstanding.Values
  }

  /** Accepting a request under an id still in use loses the request that held it. */
  lemma ReuseLoses<R>(s: State<R>)
    requires Inv(s) && Enabled(s, Accept) && NextId(s) in s.outstanding
    ensures Lost(Next(s, Accept), s.outstanding[NextId(s)])
  {
    hide ClientInv, TimerInv, CountInv, AcceptedInv;
    FoundIsOutstanding(s, NextId(s));
    var r, s' := s.outstanding[NextId(s)], Next(s, Accept);
    assert s.requests[s.queue[0]].phase == Queued;
    forall id | id in s'.outstanding ensures s'.outstanding[id] != r {
    }
  }

  lemma LostStays<R>(s: State<R>, e: Event<R>, r: R)
    requires Lost(s, r) && Enabled(s, e)
    ensures Lost(Next(s, e), r)
  {
    forall id | id in s.outstanding ensures s.outstanding[id] != r {
      assert s.outstanding[id] in s.outstanding.Values;
    }
  }

  /** A lost request is never notified, whatever happens afterwards. */
  lemma {:induction false} LostForever<R>(s: State<R>, es: seq<Event<R>>, r: R)
    requires Lost(s, r) && Possible(s, es)
    ensures Lost(After(s, es), r)
    decreases |es|
  {
    hide Lost, Next, Enabled;
    if es != [] {
      LostStays(s, es[0], r);
      LostForever(Next(s, es[0]), es[1..], r);
    }
  }

  /** One client after another sends a request that nobody answers. */
  function Flood(i: nat, n: nat): seq<Event<nat>>
    decreases n - i
  {
    if i >= n then [] else [Send(i, i, 0), Accept] + Flood(i + 1, n)
  }

  ghost predicate Flooded(s: State<nat>, n: nat) {
    && Inv(s) && IdInv(s) && |s.accepted| == n && s.queue == []
    && (forall r | r in s.requests :: r < n && s.requests[r].phase == Outstanding)
    && (forall c | c in s.clients :: c < n)
    && (n > 0 ==> s.accepted[0] == 0)
  }

  lemma FloodSend(s: State<nat>, n: nat)
    requires Flooded(s, n)
    ensures Enabled(s, Send(n, n, 0))
    ensures var s' := Next(s, Send(n, n, 0)); Enabled(s', Accept) && Inv(s') && IdInv(s') && s'.queue == [n] && s'.accepted == s.accepted
  {
    StepKeeps(s, Send(n, n, 0));
    StepKeepsIds(s, Send(n, n, 0));
  }

  lemma FloodSendOthers(s: State<nat>, n: nat)
    requires Flooded(s, n)
    ensures var s' := Next(s, Send(n, n, 0));
            (forall r: nat | r in s'.requests && r != n :: r < n && s'.requests[r].phase == Outstanding)
            && (forall c | c in s'.clients :: c <= n)
  {
    hide Inv, IdInv;
  }

  lemma FloodAccept(s: State<nat>, n: nat)
    requires Inv(s) && IdInv(s) && |s.accepted| == n < IDS && s.queue == [n] && Enabled(s, Accept)
    requires n > 0 ==> s.accepted[0] == 0
    requires forall r: nat | r in s.requests && r != n :: r < n && s.requests[r].phase == Outstanding
    requires forall c | c in s.clients :: c <= n
    ensures Flooded(Next(s, Accept), n + 1)
  {
    hide Inv, IdInv, Next, NextId, FreshId, IdOf, Issued;
    AcceptEffect(s);
    FreshWhileFewerThan2To32(s);
    StepKeeps(s, Accept);
    StepKeepsIds(s, Accept);
  }

  lemma FloodOnce(s: State<nat>, n: nat)
    requires Flooded(s, n) && n < IDS
    ensures Enabled(s, Send(n, n, 0)) && Enabled(Next(s, Send(n, n, 0)), Accept)
    ensures Flooded(Next(Next(s, Send(n, n, 0)), Accept), n + 1)
  {
    hide Inv, IdInv, Next, Enabled;
    FloodSend(s, n);
    FloodSendOthers(s, n);
    FloodAccept(Next(s, Send(n, n, 0)), n);
  }

  lemma {:induction false} FloodRuns(s: State<nat>, i: nat, n: nat)
    requires Flooded(s, i) && i <= n <= IDS
    ensures Possible(s, Flood(i, n)) && Flooded(After(s, Flood(i, n)), n) && Accepts(Flood(i, n)) == n - i
    decreases n - i
  {
    hide Flooded, Next, Enabled;
    if i < n {
      FloodOnce(s, i);
      var s' := Next(s, Send(i, i, 0));
      FloodRuns(Next(s', Accept), i + 1, n);
      var es := Flood(i, n);
      assert es[0] == Send(i, i, 0) && es[1..][0] == Accept && es[1..][1..] == Flood(i + 1, n);
    }
  }

  lemma {:induction false} AcceptsAppend<R>(es: seq<Event<R>>, es': seq<Event<R>>)
    ensures Accepts(es + es') == Accepts(es) + Accepts(es')
  {
    if es == [] {
      assert es + es' == es';
    } else {
      assert (es + es')[1..] == es[1..] + es';
      AcceptsAppend(es[1..], es');
    }
  }

  /** 2^32 accepted requests is the most that is safe: one more, sent while the first is outstanding,
      loses the first, and its client waits for ever. */
  lemma OneMoreLosesARequest() returns (es: seq<Event<nat>>)
    ensures Possible(Init<nat>(), es) && Accepts(es) == IDS + 1
    ensures Lost(After(Init<nat>(), es), 0)
  {
    var s0 := Init<nat>();
    InitInv<nat>();
    hide Inv, Next, Enabled, Lost, Flood;
    FloodRuns(s0, 0, IDS);
    var s := After(s0, Flood(0, IDS));
    FloodedHoldsTheFirst(s);
    LastFlood(s);
    var last := [Send(IDS, IDS, 0), Accept];
    RunsCompose(s0, Flood(0, IDS), last);
    AcceptsAppend(Flood(0, IDS), last);
    es := Flood(0, IDS) + last;
  }

  lemma LastFlood(s: State<nat>)
    requires Flooded(s, IDS) && NextId(s) == 1 && 1 in s.outstanding && s.outstanding[1] == 0
    ensures var last := [Send(IDS, IDS, 0), Accept];
            Possible(s, last) && Lost(After(s, last), 0) && Accepts(last) == 1
  {
    hide Flooded, Inv, IdInv, Enabled, Lost, Next;
    FloodSend(s, IDS);
    SendKeepsIds(s, IDS);
    ReuseLoses(Next(s, Send(IDS, IDS, 0)));
    TwoSteps(s, Send(IDS, IDS, 0), Accept);
  }

  lemma SendKeepsIds(s: State<nat>, n: nat)
    requires Enabled(s, Send(n, n, 0))
    ensures var s' := Next(s, Send(n, n, 0)); s'.outstanding == s.outstanding && NextId(s') == NextId(s)
  {
  }

  lemma TwoSteps<R>(s: State<R>, e: Event<R>, e': Event<R>)
    requires Enabled(s, e) && Enabled(Next(s, e), e')
    ensures Possible(s, [e, e']) && After(s, [e, e']) == Next(Next(s, e), e')
    ensures Accepts([e, e']) == (if e.Accept? then 1 else 0) + if e'.Accept? then 1 else 0
  {
    hide Next, Enabled;
    assert [e, e'][1..] == [e'] && [e'][1..] == [];
    assert Possible(Next(s, e), [e']) && After(Next(s, e), [e']) == Next(Next(s, e), e');
    assert Accepts([e']) == if e'.Accept? then 1 else 0;
  }

  lemma FloodedHoldsTheFirst(s: State<nat>)
    requires Flooded(s, IDS)
    ensures NextId(s) == 1 && 1 in s.outstanding && s.outstanding[1] == 0
  {
    assert s.requests[s.accepted[0]].id == 1;
  }

  // ---------------------------------------------------------------------------
  // There is no bound on the runs that stay safe

  /** One client after another sends a request and gets its answer. */
  function InTurn(i: nat, n: nat): seq<Event<nat>>
    decreases n - i
  {
    if i >= n then [] else [Send(i, i, 0), Accept, Respond(Response(IdOf(i + 1)))] + InTurn(i + 1, n)
  }

  predicate Idle(s: State<nat>, n: nat) {
    && s.queue == [] && s.outstanding == map[] && s.inFlight == map[] && s.nextRequestId == IdOf(n)
    && (forall r | r in s.requests :: r < n) && (forall c | c in s.clients :: c < n)
  }

  lemma SendWhenIdle(s: State<nat>, n: nat)
    requires Idle(s, n)
    ensures Enabled(s, Send(n, n, 0))
    ensures var s' := Next(s, Send(n, n, 0));
            && Enabled(s', Accept) && FreshId(s') && s'.queue == [n] && s'.outstanding == map[] && s'.inFlight == map[]
            && s'.nextRequestId == IdOf(n)
            && (forall r | r in s'.requests :: r <= n) && (forall c | c in s'.clients :: c <= n)
  {
    hide IdOf, NextId;
  }

  lemma AnswerFirst(s: State<nat>, n: nat)
    requires Enabled(s, Accept) && s.queue == [n] && s.outstanding == map[] && s.inFlight == map[]
    requires s.nextRequestId == IdOf(n)
    requires (forall r | r in s.requests :: r <= n) && (forall c | c in s.clients :: c <= n)
    ensures Idle(Next(Next(s, Accept), Respond(Response(IdOf(n + 1)))), n + 1)
  {
    hide IdOf, NextId, DoAccept;
    NextIdIs(s, n);
    AcceptEffect(s);
  }

  lemma {:induction false} InTurnIsFresh(s: State<nat>, i: nat, n: nat)
    requires Idle(s, i) && i <= n
    ensures FreshRun(s, InTurn(i, n)) && Accepts(InTurn(i, n)) == n - i
    decreases n - i
  {
    hide Idle, Next, Enabled, FreshId;
    if i < n {
      SendWhenIdle(s, i);
      var s' := Next(s, Send(i, i, 0));
      AnswerFirst(s', i);
      var answer := Respond(Response(IdOf(i + 1)));
      AnswerIsPossible(Next(s', Accept), IdOf(i + 1));
      InTurnIsFresh(Next(Next(s', Accept), answer), i + 1, n);
      SendFirst(s, i, answer, InTurn(i + 1, n));
    }
  }

  lemma SendFirst(s: State<nat>, i: nat, answer: Event<nat>, es: seq<Event<nat>>)
    requires var e := Send(i, i, 0);
             && Enabled(s, e) && Enabled(Next(s, e), Accept) && FreshId(Next(s, e))
             && answer.Respond? && Enabled(Next(Next(s, e), Accept), answer)
             && FreshRun(Next(Next(Next(s, e), Accept), answer), es)
    ensures FreshRun(s, [Send(i, i, 0), Accept, answer] + es)
    ensures Accepts([Send(i, i, 0), Accept, answer] + es) == 1 + Accepts(es)
  {
    hide Next, Enabled, FreshId;
    var all := [Send(i, i, 0), Accept, answer] + es;
    assert all[1..] == [Accept, answer] + es && all[1..][1..] == [answer] + es && all[1..][1..][1..] == es;
    assert FreshRun(Next(Next(s, Send(i, i, 0)), Accept), all[1..][1..]);
    assert FreshRun(Next(s, Send(i, i, 0)), all[1..]);
    assert Accepts(all[1..][1..]) == Accepts(es) && Accepts(all[1..]) == 1 + Accepts(es);
  }

  lemma AnswerIsPossible(s: State<nat>, id: uint32)
    ensures Enabled(s, Respond(Response(id))) && FreshEvent(s, Respond(Response(id)))
  {
  }

  /** For every n there is a run that accepts n requests, ids wrapping around as often as it takes, and keeps
      the whole invariant. */
  lemma SafeRunsOfAnyLength(n: nat) returns (es: seq<Event<nat>>)
    ensures Accepts(es) == n && FreshRun(Init<nat>(), es)
    ensures Possible(Init<nat>(), es) && Inv(After(Init<nat>(), es))
  {
    es := InTurn(0, n);
    InTurnIsFresh(Init<nat>(), 0, n);
    RunsAreSafe(es);
  }

  // ---------------------------------------------------------------------------
  // A request that nobody answers, from beginning to end

  /** The only request is 7, outstanding under id 1 with its `t`-th timer armed. */
  predicate Waiting(s: State<nat>, left: int, t: nat) {
    && s.outstanding == map[1 := 7] && s.armed == map[t := 7] && s.inFlight == map[] && s.timers == t + 1
    && 7 in s.requests
    && var x := s.requests[7];
       x.id == 1 && x.phase == Outstanding && x.timer == t && x.retriesRemaining == left && x.notified == 0 && !x.timeoutError
  }

  function TimesOut(t: nat, k: nat): seq<Event<nat>>
    decreases k
  {
    if k == 0 then [Fire(t), Deliver(t)] else [Fire(t), Deliver(t)] + TimesOut(t + 1, k - 1)
  }

  lemma OneTimeout(s: State<nat>, left: int, t: nat)
    requires Waiting(s, left, t)
    ensures Enabled(s, Fire(t)) && Enabled(Next(s, Fire(t)), Deliver(t))
    ensures var s' := Next(Next(s, Fire(t)), Deliver(t));
            && 7 in s'.requests
            && if left > 0 then
                 && Waiting(s', left - 1, t + 1)
                 && s'.requests[7].forwards == s.requests[7].forwards + 1
                 && s'.stats == s.stats.(timedOut := s.stats.timedOut + 1, forwarded := s.stats.forwarded + 1)
               else
                 && s'.outstanding == map[] && s'.requests[7].id == 1 && s'.requests[7].timeoutError && s'.requests[7].notified == 1
                 && s'.requests[7].forwards == s.requests[7].forwards
                 && s'.stats == s.stats.(exhausted := s.stats.exhausted + 1)
  {
    var s1 := Next(s, Fire(t));
    assert s1.inFlight == map[t := 1] && s1.armed == map[] && Finds(s1, 1);
  }

  lemma {:induction false} TimesOutAsOften(s: State<nat>, left: int, t: nat)
    requires Waiting(s, left, t)
    ensures Possible(s, TimesOut(t, Max0(left)))
    ensures var s' := After(s, TimesOut(t, Max0(left)));
            && s'.outstanding == map[] && 7 in s'.requests && s'.requests[7].id == 1 && s'.requests[7].timeoutError && s'.requests[7].notified == 1
            && s'.requests[7].forwards == s.requests[7].forwards + Max0(left)
            && s'.stats == s.stats.(timedOut := s.stats.timedOut + Max0(left), exhausted := s.stats.exhausted + 1,
                                    forwarded := s.stats.forwarded + Max0(left))
    decreases Max0(left)
  {
    hide Waiting, Next, Enabled;
    OneTimeout(s, left, t);
    TwoSteps(s, Fire(t), Deliver(t));
    if left > 0 {
      TimesOutAsOften(Next(Next(s, Fire(t)), Deliver(t)), left - 1, t + 1);
      RunsCompose(s, [Fire(t), Deliver(t)], TimesOut(t + 1, Max0(left - 1)));
    }
  }

  /** Whatever number of retries the client asks for, there is a run in which its request is sent once and once
      per retry, and then ends in a timeout; a negative number counts as none. */
  lemma SilentAgent(n: int) returns (es: seq<Event<nat>>)
    ensures es == [Send(0, 7, n), Accept] + TimesOut(0, Max0(n)) && Possible(Init<nat>(), es)
    ensures var s, k := After(Init<nat>(), es), if n > 0 then n else 0;
            && 7 in s.requests && s.requests[7].client == 0 && s.requests[7].id == 1
            && s.requests[7].timeoutError && s.requests[7].notified == 1 && s.requests[7].forwards == k + 1
            && s.stats == Stats(1, k + 1, 0, 0, k, 1, 0)
  {
    var s := Init<nat>();
    var e: Event<nat> := Send(0, 7, n);
    es := [e, Accept] + TimesOut(0, Max0(n));
    FirstIsWaiting(n);
    hide Waiting, Next, Enabled;
    TwoSteps(s, e, Accept);
    TimesOutAsOften(Next(Next(s, e), Accept), n, 0);
    RunsCompose(s, [e, Accept], TimesOut(0, Max0(n)));
    RunKeepsTheAsked(Next(Next(s, e), Accept), TimesOut(0, Max0(n)), 7);
  }

  lemma FirstIsWaiting(n: int)
    ensures var s, e := Init<nat>(), Send(0, 7, n);
            && Enabled(s, e) && Enabled(Next(s, e), Accept)
            && var s' := Next(Next(s, e), Accept);
               Waiting(s', n, 0) && s'.requests[7].forwards == 1 && s'.requests[7].client == 0 && s'.stats == Stats(1, 1, 0, 0, 0, 0, 0)
  {
  }
}
