/**
 The statistics tracker (snmp.go `trackStats`): a day of fifteen-minute bins and the current one, shifted
 in place when a period ends. The specification says in which period an increment belongs from the number
 of seconds that went before it, without any bins.
 */
module StatTrackers {
  import opened GoTypes

  const BINS: nat := 97
  const QUARTER: nat := 900

  type StatType = nat

  datatype Event = Increment(stat: StatType) | Tick

  // ---------------------------------------------------------------------------
  // What happened

  function Ticks(es: seq<Event>): (t: nat)
    ensures t <= |es|
  {
    if es == [] then 0 else Ticks(es[..|es| - 1]) + if es[|es| - 1].Tick? then 1 else 0
  }

  /** How many periods have ended after `t` seconds, when the first one was to last `start` seconds. One
      that is to last no time never ends. */
  function Rollovers(start: nat, t: nat): nat {
    if start == 0 || t < start then 0 else 1 + (t - start) / QUARTER
  }

  /** The increments that arrived in period `p`. */
  function InPeriod(es: seq<Event>, start: nat, p: nat): multiset<StatType> {
    if es == [] then multiset{}
    else
      var front := es[..|es| - 1];
      match es[|es| - 1]
      case Increment(s) => InPeriod(front, start, p) + if Rollovers(start, Ticks(front)) == p then multiset{s} else multiset{}
      case Tick => InPeriod(front, start, p)
  }

  function AllIncrements(es: seq<Event>): multiset<StatType> {
    if es == [] then multiset{}
    else AllIncrements(es[..|es| - 1]) + if es[|es| - 1].Increment? then multiset{es[|es| - 1].stat} else multiset{}
  }

  /** The increments of the first `n` periods together. */
  function Together(es: seq<Event>, start: nat, n: nat): multiset<StatType> {
    if n == 0 then multiset{} else Together(es, start, n - 1) + InPeriod(es, start, n - 1)
  }

  lemma RolloverStep(start: nat, t: nat)
    ensures Rollovers(start, t) <= Rollovers(start, t + 1) <= Rollovers(start, t) + 1
    ensures Rollovers(start, t + 1) == Rollovers(start, t) + 1 <==> Since(start, t) + 1 == Duration(start, Rollovers(start, t))
    ensures Since(start, t + 1) == if Rollovers(start, t + 1) == Rollovers(start, t) then Since(start, t) + 1 else 0
  {
  }

  /** How long the current period has lasted. */
  function Since(start: nat, t: nat): nat {
    if Rollovers(start, t) == 0 then t else (t - start) % QUARTER
  }

  /** How long period `p` lasts. */
  function Duration(start: nat, p: nat): nat {
    if p == 0 then start else QUARTER
  }

  /** How long the k-th last period has lasted after `t` seconds. */
  function Lasted(start: nat, t: nat, k: nat): nat
    requires k <= Rollovers(start, t)
  {
    if k == 0 then Since(start, t) else Duration(start, Rollovers(start, t) - k)
  }

  /** A second passes: the current period is a second longer, or it was that of its duration and a new one is
      the current. */
  lemma LastedTick(start: nat, t: nat, k: nat)
    requires k <= Rollovers(start, t)
    ensures if Rollovers(start, t + 1) == Rollovers(start, t)
            then Lasted(start, t + 1, k) == Lasted(start, t, k) + if k == 0 then 1 else 0
            else Lasted(start, t + 1, 0) == 0
                 && Lasted(start, t + 1, k + 1) == Lasted(start, t, k) + if k == 0 then 1 else 0
  {
    RolloverStep(start, t);
    hide Rollovers;
  }

  /** In figures: 97 bins, the current one and a day's 96 quarters of an hour; every period but the first
      lasts 900 seconds. */
  lemma ADayOfQuarters(start: nat, r: nat)
    ensures BINS == 97
    ensures start > 0 ==> Rollovers(start, start + 900 * r) == r + 1 && Since(start, start + 900 * r) == 0
    ensures start > 0 && start + 900 * r > 0 ==> Rollovers(start, start + 900 * r - 1) == r
    ensures Duration(start, r + 1) == 900
  {
  }

  lemma {:induction false} NothingYet(es: seq<Event>, start: nat, p: nat)
    requires p > Rollovers(start, Ticks(es))
    ensures InPeriod(es, start, p) == multiset{}
  {
    if es != [] {
      var front := es[..|es| - 1];
      RolloverStep(start, Ticks(front));
      NothingYet(front, start, p);
    }
  }

  lemma NothingYetNext(es: seq<Event>, start: nat)
    ensures InPeriod(es, start, Rollovers(start, Ticks(es)) + 1) == multiset{}
  {
    NothingYet(es, start, Rollovers(start, Ticks(es)) + 1);
  }

  lemma AddTick(es: seq<Event>, start: nat)
    ensures Ticks(es + [Tick]) == Ticks(es) + 1
    ensures forall p :: InPeriod(es + [Tick], start, p) == InPeriod(es, start, p)
  {
    assert (es + [Tick])[..|es|] == es;
  }

  lemma AddIncrement(es: seq<Event>, s: StatType, start: nat)
    ensures Ticks(es + [Increment(s)]) == Ticks(es)
    ensures forall p :: InPeriod(es + [Increment(s)], start, p)
                        == InPeriod(es, start, p) + if p == Rollovers(start, Ticks(es)) then multiset{s} else multiset{}
  {
    assert (es + [Increment(s)])[..|es|] == es;
  }

  lemma {:induction false} TogetherTick(es: seq<Event>, start: nat, n: nat)
    ensures Together(es + [Tick], start, n) == Together(es, start, n)
  {
    hide InPeriod;
    if n > 0 {
      TogetherTick(es, start, n - 1);
      AddTick(es, start);
    }
  }

  lemma {:induction false} TogetherIncrement(es: seq<Event>, s: StatType, start: nat, n: nat)
    ensures Together(es + [Increment(s)], start, n)
            == Together(es, start, n) + if Rollovers(start, Ticks(es)) < n then multiset{s} else multiset{}
  {
    hide InPeriod, Rollovers;
    if n > 0 {
      TogetherIncrement(es, s, start, n - 1);
      AddIncrement(es, s, start);
    }
  }

  /** No increment is lost and none is counted twice: the periods so far, the discarded ones included,
      hold all of them. */
  lemma {:induction false} PeriodsHoldEverything(es: seq<Event>, start: nat)
    ensures Together(es, start, Rollovers(start, Ticks(es)) + 1) == AllIncrements(es)
    decreases |es|
  {
    hide Rollovers, InPeriod, Since, Ticks, AllIncrements, Together;
    if es == [] {
      NoEvents(start);
    } else {
      var front := es[..|es| - 1];
      PeriodsHoldEverything(front, start);
      if es[|es| - 1].Tick? {
        HoldEverythingTick(front, start);
      } else {
        HoldEverythingIncrement(front, es[|es| - 1].stat, start);
      }
      assert es == front + [es[|es| - 1]];
    }
  }

  lemma HoldEverythingTick(es: seq<Event>, start: nat)
    requires Together(es, start, Rollovers(start, Ticks(es)) + 1) == AllIncrements(es)
    ensures Together(es + [Tick], start, Rollovers(start, Ticks(es + [Tick])) + 1) == AllIncrements(es + [Tick])
  {
    hide Rollovers, InPeriod, Since, Ticks, Together, AllIncrements;
    RolloverStep(start, Ticks(es));
    AddTick(es, start);
    TogetherTick(es, start, Rollovers(start, Ticks(es + [Tick])) + 1);
    NothingYetNext(es, start);
    OneMorePeriod(es, start, Rollovers(start, Ticks(es)) + 1);
    AllWith(es, Tick);
  }

  lemma HoldEverythingIncrement(es: seq<Event>, s: StatType, start: nat)
    requires Together(es, start, Rollovers(start, Ticks(es)) + 1) == AllIncrements(es)
    ensures var es' := es + [Increment(s)]; Together(es', start, Rollovers(start, Ticks(es')) + 1) == AllIncrements(es')
  {
    hide Rollovers, InPeriod, Since, Ticks, Together, AllIncrements;
    AddIncrement(es, s, start);
    TogetherIncrement(es, s, start, Rollovers(start, Ticks(es)) + 1);
    AllWith(es, Increment(s));
  }

  lemma OneMorePeriod(es: seq<Event>, start: nat, n: nat)
    ensures Together(es, start, n + 1) == Together(es, start, n) + InPeriod(es, start, n)
  {
  }

  lemma AllWith(es: seq<Event>, e: Event)
    ensures AllIncrements(es + [e]) == AllIncrements(es) + if e.Increment? then multiset{e.stat} else multiset{}
  {
    assert (es + [e])[..|es|] == es;
  }

  lemma NoEvents(start: nat)
    ensures Rollovers(start, Ticks([])) == 0 && Together([], start, 1) == multiset{} == AllIncrements([])
  {
    assert Together([], start, 0) == multiset{};
  }

  /** What a period holds is settled when it ends. */
  lemma ClosedPeriodsStay(es: seq<Event>, e: Event, start: nat, p: nat)
    requires p < Rollovers(start, Ticks(es))
    ensures InPeriod(es + [e], start, p) == InPeriod(es, start, p)
  {
    assert (es + [e])[..|es|] == es;
  }

  lemma {:induction false} ZeroStartNeverRollsOver(es: seq<Event>)
    ensures Rollovers(0, Ticks(es)) == 0 && InPeriod(es, 0, 0) == AllIncrements(es)
  {
    if es != [] { ZeroStartNeverRollsOver(es[..|es| - 1]); }
  }

  // ---------------------------------------------------------------------------
  // The bins

  class StatsBin {
    var stats: map<StatType, int>
    var numSeconds: int

    constructor ()
      ensures stats == map[] && numSeconds == 0 && Counts(multiset{})
    {
      stats, numSeconds := map[], 0;
    }

    function Count(s: StatType): int
      reads this
    {
      if s in stats then stats[s] else 0
    }

    /** The bin counts the statistics of `m`. */
    ghost predicate Counts(m: multiset<StatType>)
      reads this
    {
      forall s: StatType :: Count(s) == m[s]
    }

    method AddSecond()
      modifies this`numSeconds
      ensures numSeconds == old(numSeconds) + 1
      ensures forall m :: Counts(m) == old(Counts(m))
    {
      numSeconds := numSeconds + 1;
      assert forall s :: Count(s) == old(Count(s));
    }

    method Copy() returns (binCopy: StatsBin)
      ensures fresh(binCopy) && binCopy.stats == stats && binCopy.numSeconds == numSeconds
    {
      binCopy := new StatsBin();
      var left := stats.Keys;
      while left != {}
        invariant left <= stats.Keys
        invariant binCopy.stats == map k | k in stats && k !in left :: stats[k]
        invariant fresh(binCopy) && stats == old(stats) && numSeconds == old(numSeconds)
        decreases |left|
      {
        var k :| k in left;
        binCopy.stats := binCopy.stats[k := stats[k]];
        left := left - {k};
      }
      binCopy.numSeconds := numSeconds;
    }
  }

  class StatTracker {
    const fifteenMinuteBins: array<StatsBin?>
    var nextRollover: int
    ghost const start: nat
    ghost var events: seq<Event>
    ghost var bins: set<StatsBin>

    /** The periods that have ended. */
    ghost function Closed(): nat
      reads this
    {
      Rollovers(start, Ticks(events))
    }

    /** Bin k holds what arrived in the k-th last period, and how long that lasted, as far back as there are
        periods. */
    ghost predicate BinOk(k: nat)
      requires k < fifteenMinuteBins.Length
      reads this, fifteenMinuteBins, bins
    {
      var bin := fifteenMinuteBins[k];
      if k <= Closed() then
        && bin != null && bin in bins && bin.Counts(InPeriod(events, start, Closed() - k))
        && bin.numSeconds == Lasted(start, Ticks(events), k)
      else bin == null
    }

    ghost predicate Valid()
      reads this, fifteenMinuteBins, bins
    {
      && fifteenMinuteBins.Length == BINS
      && (forall k | 0 <= k < BINS :: BinOk(k))
      && (forall k | 0 < k < BINS :: fifteenMinuteBins[k] != fifteenMinuteBins[0])
      && fifteenMinuteBins[0] != null && fifteenMinuteBins[0] in bins
      && fifteenMinuteBins[0].numSeconds == Since(start, Ticks(events))
      && nextRollover == Duration(start, Closed())
    }

    /** `seconds` is how far the clock is into its quarter of an hour. */
    constructor (seconds: nat)
      ensures Valid() && fresh(fifteenMinuteBins) && fresh(bins) && events == [] && start == seconds
    {
      fifteenMinuteBins := new StatsBin?[BINS](_ => null);
      nextRollover, start, events, bins := seconds, seconds, [], {};
      new;
      fifteenMinuteBins[0] := new StatsBin();
      bins := {fifteenMinuteBins[0]};
    }

    /** case statType := <-statIncrementNotifications */
    method Count(stat: StatType)
      requires Valid()
      modifies this`events, fifteenMinuteBins[0]
      ensures Valid() && events == old(events) + [Increment(stat)]
    {
      hide InPeriod, Ticks, Rollovers, Since, Duration, Lasted;
      AddIncrement(events, stat, start);
      var bin := fifteenMinuteBins[0];
      bin.stats := bin.stats[stat := bin.Count(stat) + 1];
      events := events + [Increment(stat)];
      forall k | 0 <= k < BINS ensures BinOk(k) {
        assert old(BinOk(k)) && old(BinOk(0));
      }
    }

    /** The loop that shifts the bins, the oldest first. */
    method Shift()
      requires fifteenMinuteBins.Length == BINS
      modifies fifteenMinuteBins
      ensures forall k | 0 < k < BINS :: fifteenMinuteBins[k] == old(fifteenMinuteBins[k - 1])
    {
      var idx := fifteenMinuteBins.Length - 1;
      while idx > 0
        invariant 0 <= idx < BINS
        invariant forall k | idx < k < BINS :: fifteenMinuteBins[k] == old(fifteenMinuteBins[k - 1])
        invariant forall k | 0 <= k <= idx :: fifteenMinuteBins[k] == old(fifteenMinuteBins[k])
      {
        fifteenMinuteBins[idx] := fifteenMinuteBins[idx - 1];
        idx := idx - 1;
      }
    }

    /** case <-ticker.C */
    method OnTick()
      requires Valid()
      modifies this, fifteenMinuteBins, fifteenMinuteBins[0]
      ensures Valid() && events == old(events) + [Tick] && fresh(bins - old(bins))
      ensures Closed() == old(Closed()) ==> fifteenMinuteBins[..] == old(fifteenMinuteBins[..])
      ensures Closed() != old(Closed()) ==> Closed() == old(Closed()) + 1 && fresh(fifteenMinuteBins[0])
      ensures Closed() != old(Closed()) ==> fifteenMinuteBins[1..] == old(fifteenMinuteBins[..BINS - 1])
      ensures old(fifteenMinuteBins[0]).stats == old(fifteenMinuteBins[0].stats)
    {
      hide InPeriod, Ticks, Rollovers, Since, Lasted, StatsBin.Counts;
      AddTick(events, start);
      RolloverStep(start, Ticks(events));
      forall k: nat | k <= Closed() { LastedTick(start, Ticks(events), k); }
      NothingYetNext(events, start);
      var bin := fifteenMinuteBins[0];
      bin.AddSecond();
      events := events + [Tick];
      if bin.numSeconds == nextRollover {
        Shift();
        fifteenMinuteBins[0] := new StatsBin();
        bins := bins + {fifteenMinuteBins[0]};
        nextRollover := QUARTER;
      }
      forall k | 0 <= k < BINS ensures BinOk(k) {
        assert old(BinOk(k)) && (k > 0 ==> old(BinOk(k - 1)));
      }
      assert Closed() != old(Closed()) ==> forall k | 0 < k < BINS :: fifteenMinuteBins[k] == old(fifteenMinuteBins[k - 1]);
    }

    /** case req := <-statRequests, for one statistic. A bin that does not exist is answered with nil and
        then brings the tracker down; one that is not filled yet brings it down at once. */
    method GetStat(stat: StatType, bin: byte) returns (o: Outcome<int>)
      requires Valid()
      ensures o == if bin < BINS && bin <= Closed() then Ok(InPeriod(events, start, Closed() - bin)[stat]) else Panic
    {
      if bin >= fifteenMinuteBins.Length { return Panic; }
      var statsBin := fifteenMinuteBins[bin];
      assert BinOk(bin);
      if statsBin == null { return Panic; }
      return Ok(statsBin.Count(stat));
    }

    /** The same for all of them: the copy that is handed out is the caller's own. */
    method GetStatsBin(bin: byte) returns (o: Outcome<StatsBin>)
      requires Valid()
      ensures !o.Err? && (o.Ok? <==> bin < BINS && bin <= Closed())
      ensures o.Ok? ==> fresh(o.value) && o.value.Counts(InPeriod(events, start, Closed() - bin))
      ensures o.Ok? ==> o.value.numSeconds == Lasted(start, Ticks(events), bin)
    {
      if bin >= fifteenMinuteBins.Length { return Panic; }
      var statsBin := fifteenMinuteBins[bin];
      assert BinOk(bin);
      if statsBin == null { return Panic; }
      var binCopy := statsBin.Copy();
      return Ok(binCopy);
    }
  }
}
