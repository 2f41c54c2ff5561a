/**
 Several encoders at work on one pool, their calls interleaved in any way: each of them writes what it
 would write alone.
 */
module Interleaving {
  import opened GoTypes
  import opened Integers
  import opened Headers
  import M = Messages
  import opened Encoders

  /** What a caller adds to an encoder. */
  datatype Piece = AnInteger(i: int64) | AnOctetString(b: bytes) | AVarbind(vb: M.Varbind) | AMessage(m: M.Message)

  datatype Op = Create(id: nat) | Add(id: nat, piece: Piece) | Finish(id: nat)

  function Encoding(p: Piece): Outcome<bytes> {
    match p
    case AnInteger(i) => Ok(Block(M.INTEGER, IntBytes(i)))
    case AnOctetString(b) => Ok(Block(M.OCTET_STRING, b))
    case AVarbind(vb) => M.EncodeVarbind(vb)
    case AMessage(m) => M.EncodeMessage(m)
  }

  /** The octets so far, or the first failure. */
  function Extend(o: Outcome<bytes>, piece: Outcome<bytes>): Outcome<bytes> {
    match o
    case Ok(b) => (match piece case Ok(c) => Ok(b + c) case Err => Err case Panic => Panic)
    case _ => o
  }

  /** The encoders at work, each on its own, and what the finished ones returned. */
  datatype Work = Work(open: map<nat, Outcome<bytes>>, finished: seq<(nat, Outcome<bytes>)>)

  function Do(w: Work, op: Op): Work {
    match op
    case Create(id) => if id in w.open then w else w.(open := w.open[id := Ok([])])
    case Add(id, p) => if id in w.open then w.(open := w.open[id := Extend(w.open[id], Encoding(p))]) else w
    case Finish(id) => if id in w.open then Work(w.open - {id}, w.finished + [(id, w.open[id])]) else w
  }

  function DoAll(w: Work, ops: seq<Op>): Work
    decreases |ops|
  {
    if ops == [] then w else DoAll(Do(w, ops[0]), ops[1..])
  }

  method AddPiece(e: BerEncoder, p: Piece) returns (o: Outcome<nat>)
    requires e.Ready()
    modifies e, e.bufPool, e.bufPool.buffers
    ensures e.Appended(o, Encoding(p))
  {
    hide BerEncoder.Ready, BufferPool.Valid, BufferPool.ValidFor, BerEncoder.Others, BerEncoder.Data;
    match p
    case AnInteger(i) => var n := e.EncodeInteger(i); o := Ok(n);
    case AnOctetString(b) => var n := e.EncodeOctetString(b); o := Ok(n);
    case AVarbind(vb) => o := e.EncodeVarbind(vb);
    case AMessage(m) => o := e.EncodeFields(m);
  }

  /** What the encoder holds, if nothing failed. */
  ghost predicate Holds(e: BerEncoder, o: Outcome<bytes>)
    reads e, e.bufChain
  {
    o.Ok? ==> Concat(e.Data()) == o.value
  }

  /** Each open encoder is one of the pool's and holds what it would hold alone; the pool's other encoders
      are guests. */
  ghost predicate AtWork(pool: BufferPool, guests: set<BerEncoder>, encoders: map<nat, BerEncoder>, open: map<nat, Outcome<bytes>>): (r: bool)
    reads pool, pool.encoders, pool.buffers
    ensures r ==> pool.Valid() && guests <= pool.encoders && encoders.Keys == open.Keys
    ensures r ==> forall id, id' | id in encoders && id' in encoders && id != id' :: encoders[id] != encoders[id']
  {
    && pool.Valid()
    && encoders.Keys == open.Keys
    && pool.encoders == guests + encoders.Values
    && (forall id | id in encoders :: encoders[id] in pool.encoders && encoders[id] !in guests && encoders[id].bufPool == pool)
    && (forall id | id in encoders :: Holds(encoders[id], open[id]))
    && (forall id, id' | id in encoders && id' in encoders && id != id' :: encoders[id] != encoders[id'])
  }

  /** No guest noticed anything, and what joined the pool is new. */
  twostate predicate GuestsUntouched(pool: BufferPool, guests: set<BerEncoder>)
    requires old(guests <= pool.encoders && pool.Valid()) && guests <= pool.encoders && pool.Valid()
    reads pool, pool.encoders, pool.buffers
  {
    && old(pool.buffers) <= pool.buffers && fresh(pool.buffers - old(pool.buffers))
    && forall e | e in guests :: e.bufChain == old(e.bufChain) && e.Data() == old(e.Data())
  }

  method CreateOne(pool: BufferPool, ghost guests: set<BerEncoder>, encoders: map<nat, BerEncoder>, ghost open: map<nat, Outcome<bytes>>, id: nat)
    returns (encoders': map<nat, BerEncoder>)
    requires AtWork(pool, guests, encoders, open) && id !in open
    modifies pool`encoders
    ensures AtWork(pool, guests, encoders', open[id := Ok([])]) && GuestsUntouched(pool, guests)
    ensures encoders'.Keys == encoders.Keys + {id} && fresh(encoders'[id]) && encoders' == encoders[id := encoders'[id]]
  {
    hide Concat;
    var e := new BerEncoder(pool);
    encoders' := encoders[id := e];
    NothingYet(e);
    assert encoders'.Values == encoders.Values + {e} by { ValuesOfNew(encoders, id, e); }
  }

  lemma ValuesOfNew<K, V>(m: map<K, V>, k: K, v: V)
    requires k !in m
    ensures m[k := v].Values == m.Values + {v}
  {
    var m' := m[k := v];
    forall x ensures x in m'.Values <==> x in m.Values + {v} {
      if x in m.Values {
        var j :| j in m && m[j] == x;
        assert m'[j] == x;
      }
      if x == v { assert m'[k] == v; }
    }
  }

  lemma ValuesWithout<K, V>(m: map<K, V>, k: K)
    requires k in m && forall j | j in m && j != k :: m[j] != m[k]
    ensures (m - {k}).Values == m.Values - {m[k]}
  {
    var m' := m - {k};
    forall x ensures x in m'.Values <==> x in m.Values - {m[k]} {
      if x in m.Values && x != m[k] {
        var j :| j in m && m[j] == x;
        assert m'[j] == x;
      }
    }
  }

  lemma NothingYet(e: BerEncoder)
    requires e.bufChain == []
    ensures Concat(e.Data()) == []
  {
  }

  method AddOne(pool: BufferPool, ghost guests: set<BerEncoder>, encoders: map<nat, BerEncoder>, ghost open: map<nat, Outcome<bytes>>, id: nat, p: Piece)
    returns (o: Outcome<nat>)
    requires AtWork(pool, guests, encoders, open) && id in open && open[id].Ok?
    modifies pool, pool.buffers, encoders.Values
    ensures AtWork(pool, guests, encoders, open[id := Extend(open[id], Encoding(p))]) && GuestsUntouched(pool, guests)
    ensures o.Ok? <==> Encoding(p).Ok?
    ensures o.Err? <==> Encoding(p).Err?
  {
    hide Concat, Encoding, BufferPool.ValidFor, BerEncoder.Data, BerEncoder.Others;
    var e := encoders[id];
    ghost var before := e.Data();
    o := AddPiece(e, p);
    e.OthersKept();
    assert e.Data() == e.Data()[..|before|] + e.Data()[|before|..];
    ConcatAppend(before, e.Data()[|before|..]);
  }

  method FinishOne(pool: BufferPool, ghost guests: set<BerEncoder>, encoders: map<nat, BerEncoder>, ghost open: map<nat, Outcome<bytes>>, id: nat)
    returns (msg: bytes)
    requires AtWork(pool, guests, encoders, open) && id in open
    modifies pool, pool.buffers, encoders.Values
    ensures AtWork(pool, guests, encoders - {id}, open - {id}) && GuestsUntouched(pool, guests)
    ensures open[id].Ok? ==> msg == open[id].value
  {
    hide Concat, BufferPool.ValidFor, BerEncoder.Data, BerEncoder.Others, BerEncoder.OthersUntouched;
    var e := encoders[id];
    msg := e.Serialize();
    e.OthersKept();
    e.Destroy();
    ValuesWithout(encoders, id);
  }

  /** How far the operations have been carried out: the encoders at work, the failures the callers were told
      of, and the messages of the finished ones. */
  ghost predicate Agrees(encoders: map<nat, BerEncoder>, failed: map<nat, Outcome<bytes>>, finished: seq<(nat, Outcome<bytes>)>, w: Work) {
    && encoders.Keys == w.open.Keys && finished == w.finished
    && forall id | id in w.open :: if id in failed then w.open[id] == failed[id] && !failed[id].Ok? else w.open[id].Ok?
  }

  lemma AgreesCreate(encoders: map<nat, BerEncoder>, failed: map<nat, Outcome<bytes>>, finished: seq<(nat, Outcome<bytes>)>, w: Work,
                     encoders': map<nat, BerEncoder>, id: nat)
    requires Agrees(encoders, failed, finished, w) && id !in encoders && encoders'.Keys == encoders.Keys + {id}
    ensures Agrees(encoders', failed - {id}, finished, Do(w, Create(id)))
  {
  }

  lemma AgreesAdd(encoders: map<nat, BerEncoder>, failed: map<nat, Outcome<bytes>>, finished: seq<(nat, Outcome<bytes>)>, w: Work,
                  id: nat, p: Piece)
    requires Agrees(encoders, failed, finished, w) && id in encoders
    ensures id in failed ==> Do(w, Add(id, p)) == w
    ensures id !in failed ==> w.open[id].Ok?
    ensures id !in failed && Encoding(p).Ok? ==> Agrees(encoders, failed, finished, Do(w, Add(id, p)))
    ensures id !in failed && !Encoding(p).Ok? ==>
              Agrees(encoders, failed[id := if Encoding(p).Err? then Err else Panic], finished, Do(w, Add(id, p)))
  {
    hide Encoding;
    if id in failed { assert w.open[id := w.open[id]] == w.open; }
  }

  lemma AgreesFinish(encoders: map<nat, BerEncoder>, failed: map<nat, Outcome<bytes>>, finished: seq<(nat, Outcome<bytes>)>, w: Work,
                     id: nat, o: Outcome<bytes>)
    requires Agrees(encoders, failed, finished, w) && id in encoders
    requires if id in failed then o == failed[id] else o == w.open[id]
    ensures Agrees(encoders - {id}, failed, finished + [(id, o)], Do(w, Finish(id)))
  {
  }

  lemma AgreesOn(encoders: map<nat, BerEncoder>, failed: map<nat, Outcome<bytes>>, finished: seq<(nat, Outcome<bytes>)>, w: Work, id: nat)
    requires Agrees(encoders, failed, finished, w)
    ensures id in encoders <==> id in w.open
    ensures id in encoders && id !in failed ==> w.open[id].Ok?
  {
  }

  /** Carries out one operation. */
  method Step(pool: BufferPool, ghost guests: set<BerEncoder>, encoders: map<nat, BerEncoder>, failed: map<nat, Outcome<bytes>>,
              finished: seq<(nat, Outcome<bytes>)>, ghost w: Work, op: Op)
    returns (encoders': map<nat, BerEncoder>, failed': map<nat, Outcome<bytes>>, finished': seq<(nat, Outcome<bytes>)>)
    requires AtWork(pool, guests, encoders, w.open) && Agrees(encoders, failed, finished, w)
    modifies pool, pool.buffers, encoders.Values
    ensures AtWork(pool, guests, encoders', Do(w, op).open) && Agrees(encoders', failed', finished', Do(w, op))
    ensures GuestsUntouched(pool, guests) && fresh(encoders'.Values - encoders.Values)
  {
    hide BufferPool.ValidFor, BufferPool.Valid, Encoding, AtWork, Agrees;
    encoders', failed', finished' := encoders, failed, finished;
    AgreesOn(encoders, failed, finished, w, op.id);
    match op {
      case Create(id) =>
        if id !in encoders {
          encoders' := CreateOne(pool, guests, encoders, w.open, id);
          failed' := failed - {id};
          ValuesOfNew(encoders, id, encoders'[id]);
          AgreesCreate(encoders, failed, finished, w, encoders', id);
        }
      case Add(id, p) =>
        if id in encoders {
          AgreesAdd(encoders, failed, finished, w, id, p);
          if id !in failed {
            var o := AddOne(pool, guests, encoders, w.open, id, p);
            if !o.Ok? {
              failed' := failed[id := if o.Err? then Err else Panic];
            }
          }
        }
      case Finish(id) =>
        if id in encoders {
          var msg := FinishOne(pool, guests, encoders, w.open, id);
          var o := if id in failed then failed[id] else Ok(msg);
          finished' := finished + [(id, o)];
          encoders' := encoders - {id};
          ValuesWithout(encoders, id);
          AgreesFinish(encoders, failed, finished, w, id, o);
        }
    }
  }

  /** Main result: whatever encoders are created, used and destroyed on a sound pool, in whatever order their
      calls come, each finished one returns what it would have written alone, the encoders that were on the
      pool before keep what they hold, and the pool stays sound. */
  method Interleave(pool: BufferPool, ops: seq<Op>) returns (finished: seq<(nat, Outcome<bytes>)>)
    requires pool.Valid()
    modifies pool, pool.buffers
    ensures finished == DoAll(Work(map[], []), ops).finished
    ensures pool.Valid() && old(pool.encoders) <= pool.encoders && fresh(pool.encoders - old(pool.encoders))
    ensures GuestsUntouched(pool, old(pool.encoders))
  {
    hide BufferPool.ValidFor, BufferPool.Valid, Do, Holds;
    ghost var guests := pool.encoders;
    var encoders: map<nat, BerEncoder> := map[];
    var failed: map<nat, Outcome<bytes>> := map[];
    finished := [];
    ghost var w := Work(map[], []);
    var i := 0;
    while i < |ops|
      invariant 0 <= i <= |ops|
      invariant AtWork(pool, guests, encoders, w.open) && guests == old(pool.encoders)
      invariant GuestsUntouched(pool, guests) && fresh(encoders.Values)
      invariant Agrees(encoders, failed, finished, w)
      invariant DoAll(w, ops[i..]) == DoAll(Work(map[], []), ops)
    {
      hide Agrees;
      assert ops[i..][0] == ops[i] && ops[i..][1..] == ops[i + 1..];
      encoders, failed, finished := Step(pool, guests, encoders, failed, finished, w, ops[i]);
      w := Do(w, ops[i]);
      i := i + 1;
    }
  }
}
