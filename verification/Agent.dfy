/**
 The agent's handler table (agent.go): registration, and the lookup of a requested identifier, as it is
 written and as its comment describes it. The llrb tree is a sequence of nodes sorted by `Order`.
 */
module Agents {
  import opened GoTypes
  import opened ObjectIdentifiers
  import opened OidOrder

  datatype Node<H> = Node(oid: Oid, handler: H)

  // ---------------------------------------------------------------------------
  // Sorted tables

  ghost predicate Sorted<H>(t: seq<Node<H>>) {
    forall i, j | 0 <= i < j < |t| :: Order(t[i].oid, t[j].oid) < 0
  }

  ghost predicate Has<H>(t: seq<Node<H>>, oid: Oid) {
    exists i | 0 <= i < |t| :: t[i].oid == oid
  }

  /** `oid` is before everything from `k` on, and after everything below `k`. */
  ghost predicate Splits<H>(t: seq<Node<H>>, oid: Oid, k: nat) {
    && k <= |t|
    && (forall i | 0 <= i < k :: Order(t[i].oid, oid) < 0)
    && (forall i | k <= i < |t| :: Order(oid, t[i].oid) <= 0)
  }

  /** The map that registering the nodes of `t` one after the other gives. */
  ghost function Table<H>(t: seq<Node<H>>): map<Oid, H> {
    if t == [] then map[] else Table(t[..|t| - 1])[t[|t| - 1].oid := t[|t| - 1].handler]
  }

  lemma {:induction false} TableHas<H>(t: seq<Node<H>>, oid: Oid)
    ensures oid in Table(t) <==> Has(t, oid)
  {
    if t != [] {
      var front := t[..|t| - 1];
      TableHas(front, oid);
      if Has(t, oid) {
        var i :| 0 <= i < |t| && t[i].oid == oid;
        assert i < |front| ==> front[i] == t[i];
      }
    }
  }

  lemma {:induction false} TableAt<H>(t: seq<Node<H>>, i: nat)
    requires Sorted(t) && i < |t|
    ensures t[i].oid in Table(t) && Table(t)[t[i].oid] == t[i].handler
  {
    var n := |t| - 1;
    if i < n {
      TableAt(t[..n], i);
      OrderZero(t[i].oid, t[n].oid);
    }
  }

  /** One node more, or one node changed, is one entry of the map. */
  lemma TableInsert<H>(t: seq<Node<H>>, k: nat, x: Node<H>, t': seq<Node<H>>)
    requires Sorted(t) && Sorted(t') && Splits(t, x.oid, k)
    requires t' == t[..k] + [x] + t[if k < |t| && t[k].oid == x.oid then k + 1 else k..]
    ensures Table(t') == Table(t)[x.oid := x.handler]
  {
    var m, m' := Table(t)[x.oid := x.handler], Table(t');
    forall oid ensures oid in m' <==> oid in m {
      TableHas(t, oid);
      TableHas(t', oid);
      SameOids(t, k, x, t', oid);
    }
    forall oid | oid in m' ensures m'[oid] == m[oid] {
      TableHas(t', oid);
      var i :| 0 <= i < |t'| && t'[i].oid == oid;
      InsertedAt(t, k, x, t', i);
    }
  }

  lemma InsertedAt<H>(t: seq<Node<H>>, k: nat, x: Node<H>, t': seq<Node<H>>, i: nat)
    requires Sorted(t) && Sorted(t') && k <= |t| && i < |t'|
    requires t' == t[..k] + [x] + t[if k < |t| && t[k].oid == x.oid then k + 1 else k..]
    ensures t'[i].oid in Table(t') && Table(t')[t'[i].oid] == t'[i].handler
    ensures t'[i].oid == x.oid ==> t'[i].handler == x.handler
    ensures t'[i].oid != x.oid ==> t'[i].oid in Table(t) && t'[i].handler == Table(t)[t'[i].oid]
  {
    TableAt(t', i);
    TableAt(t', k);
    assert t'[k] == x;
    if t'[i].oid != x.oid {
      var j := if i < k || (k < |t| && t[k].oid == x.oid) then i else i - 1;
      assert t[j] == t'[i];
      TableAt(t, j);
    }
  }

  lemma SameOids<H>(t: seq<Node<H>>, k: nat, x: Node<H>, t': seq<Node<H>>, oid: Oid)
    requires k <= |t|
    requires t' == t[..k] + [x] + t[if k < |t| && t[k].oid == x.oid then k + 1 else k..]
    ensures Has(t', oid) <==> oid == x.oid || Has(t, oid)
  {
    var d := if k < |t| && t[k].oid == x.oid then 0 else 1;
    assert t'[k] == x;
    forall i | 0 <= i < |t| && t[i].oid != x.oid ensures exists j | 0 <= j < |t'| :: t'[j].oid == t[i].oid {
      var j := if i < k then i else i + d;
      assert t'[j] == t[i];
    }
    forall j | 0 <= j < |t'| && j != k ensures exists i | 0 <= i < |t| :: t[i].oid == t'[j].oid {
      var i := if j < k then j else j - d;
      assert t'[j] == t[i];
    }
  }

  lemma InsertSorted<H>(t: seq<Node<H>>, k: nat, x: Node<H>)
    requires Sorted(t) && Splits(t, x.oid, k)
    ensures Sorted(t[..k] + [x] + t[if k < |t| && t[k].oid == x.oid then k + 1 else k..])
  {
    var same := k < |t| && t[k].oid == x.oid;
    var from := if same then k + 1 else k;
    forall i | from <= i < |t| ensures Order(x.oid, t[i].oid) < 0 {
      OrderZero(x.oid, t[i].oid);
      if t[i].oid == x.oid && !same { OrderZero(x.oid, t[k].oid); OrderAntisymmetric(x.oid, t[k].oid); OrderAntisymmetric(t[i].oid, t[k].oid); }
    }
  }

  // ---------------------------------------------------------------------------
  // The agent

  class Agent<H> {
    var oidTree: seq<Node<H>>

    ghost predicate Valid()
      reads this
    {
      Sorted(oidTree)
    }

    /** The handler registered under each identifier. */
    ghost function Handlers(): map<Oid, H>
      reads this
    {
      Table(oidTree)
    }

    constructor ()
      ensures Valid() && Handlers() == map[]
    {
      oidTree := [];
    }

    /** The position of the least node that is not below `oid`. */
    method Search(oid: Oid) returns (k: nat)
      requires Valid()
      ensures Splits(oidTree, oid, k)
    {
      k := 0;
      var hi := |oidTree|;
      while k < hi
        invariant k <= hi <= |oidTree|
        invariant forall i | 0 <= i < k :: Order(oidTree[i].oid, oid) < 0
        invariant forall i | hi <= i < |oidTree| :: Order(oid, oidTree[i].oid) <= 0
      {
        var mid := (k + hi) / 2;
        var order := Compare(oid, oidTree[mid].oid);
        OrderAntisymmetric(oid, oidTree[mid].oid);
        if order <= 0 {
          forall i | mid < i < |oidTree| ensures Order(oid, oidTree[i].oid) <= 0 {
            OrderTransitive(oid, oidTree[mid].oid, oidTree[i].oid);
          }
          hi := mid;
        } else {
          forall i | 0 <= i < mid ensures Order(oidTree[i].oid, oid) < 0 {
            OrderTransitive(oidTree[i].oid, oidTree[mid].oid, oid);
          }
          k := mid + 1;
        }
      }
    }

    /** RegisterSingleVarOidHandler: the last handler registered under an identifier counts. */
    method Register(oid: Oid, handler: H)
      requires Valid()
      modifies this
      ensures Valid() && Handlers() == old(Handlers())[oid := handler]
    {
      var k := Search(oid);
      var same := false;
      if k < |oidTree| { same := Equal(oidTree[k].oid, oid); }
      InsertSorted(oidTree, k, Node(oid, handler));
      oidTree := oidTree[..k] + [Node(oid, handler)] + oidTree[if same then k + 1 else k..];
      TableInsert(old(oidTree), k, Node(oid, handler), oidTree);
    }

    /** lookupHandler: the least node not below the request, if all its arcs match. It is found exactly
        when the request itself is registered: identifiers that extend a registered one are not served,
        whatever the comment in the source says. `complained` is the log message that no handlers are bound;
        it appears for every request above all that are. */
    method LookupHandler(oid: Oid) returns (node: Option<Node<H>>, complained: bool)
      requires Valid()
      ensures node == if oid in Handlers() then Some(Node(oid, Handlers()[oid])) else None
      ensures complained <==> forall p | p in Handlers() :: Order(p, oid) < 0
    {
      TableHas(oidTree, oid);
      var k := Search(oid);
      if oid in Handlers() { SplitsAtOid(oidTree, oid, k); }
      if k == |oidTree| {
        forall p | p in Handlers() ensures Order(p, oid) < 0 { TableHas(oidTree, p); }
        return None, true;
      }
      var tnode := oidTree[k];
      TableAt(oidTree, k);
      OrderAntisymmetric(tnode.oid, oid);
      var m := MatchLength(tnode.oid, oid);
      if m != |tnode.oid| { return None, false; }
      PrefixComesFirst(tnode.oid, oid);
      OrderZero(oid, tnode.oid);
      return Some(tnode), false;
    }

    /** The lookup that the comment describes: the greatest node not above the request, if all its arcs
        match. */
    method LookupCovering(oid: Oid) returns (node: Option<Node<H>>)
      requires Valid()
      ensures node.Some? ==> node.value.oid in Handlers() && Handlers()[node.value.oid] == node.value.handler
      ensures node.Some? ==> Covers(Handlers().Keys, node.value.oid, oid)
      ensures node == None ==> forall p | p in Handlers() :: !Covers(Handlers().Keys, p, oid)
    {
      var k := Search(oid);
      if k < |oidTree| {
        var same := Equal(oidTree[k].oid, oid);
        if same {
          TableAt(oidTree, k);
          return Some(oidTree[k]);
        }
      }
      forall p | p in Handlers() && Order(p, oid) <= 0 ensures k > 0 && Order(p, oidTree[k - 1].oid) <= 0 {
        FloorIsAbove(oidTree, oid, k, p);
      }
      forall p | p in Handlers() && IsPrefix(p, oid) ensures Order(p, oid) <= 0 {
        PrefixComesFirst(p, oid);
      }
      if k == 0 { return None; }
      var floor := oidTree[k - 1];
      var m := MatchLength(floor.oid, oid);
      TableAt(oidTree, k - 1);
      if m == |floor.oid| { return Some(floor); }
      forall p | p in Handlers() ensures !Covers(Handlers().Keys, p, oid) {
        OrderAntisymmetric(p, floor.oid);
        OrderZero(p, floor.oid);
      }
      return None;
    }
  }

  /** The position found for an identifier that is in the table is its own. */
  lemma SplitsAtOid<H>(t: seq<Node<H>>, oid: Oid, k: nat)
    requires Splits(t, oid, k) && Has(t, oid) && Sorted(t)
    ensures k < |t| && t[k].oid == oid
  {
    var i :| 0 <= i < |t| && t[i].oid == oid;
    OrderZero(oid, oid);
    OrderAntisymmetric(oid, t[k].oid);
    OrderZero(t[k].oid, oid);
  }

  lemma FloorIsAbove<H>(t: seq<Node<H>>, oid: Oid, k: nat, p: Oid)
    requires Splits(t, oid, k) && Sorted(t) && p in Table(t) && Order(p, oid) <= 0
    requires k < |t| ==> t[k].oid != oid
    ensures k > 0 && Order(p, t[k - 1].oid) <= 0
  {
    TableHas(t, p);
    var i :| 0 <= i < |t| && t[i].oid == p;
    if i >= k {
      OrderAntisymmetric(p, oid);
      OrderZero(p, oid);
      SplitsAtOid(t, oid, k);
    }
    OrderZero(p, p);
  }

  // ---------------------------------------------------------------------------
  // What the lookups mean

  /** No registered identifier extends another one. */
  ghost predicate PrefixFree(oids: set<Oid>) {
    forall p, q | p in oids && q in oids && IsPrefix(p, q) :: p == q
  }

  /** `p` is the greatest identifier of the set that is not above the request, and its arcs all match. */
  ghost predicate Covers(oids: set<Oid>, p: Oid, oid: Oid) {
    p in oids && IsPrefix(p, oid) && forall q | q in oids && Order(q, oid) <= 0 :: Order(q, p) <= 0
  }

  /** What covers a request extends every other prefix of it that is registered. */
  lemma CoverIsLongest(oids: set<Oid>, p: Oid, q: Oid, oid: Oid)
    requires Covers(oids, p, oid) && q in oids && IsPrefix(q, oid)
    ensures IsPrefix(q, p)
  {
    PrefixComesFirst(p, oid);
    PrefixComesFirst(q, oid);
    PrefixInterval(q, p, oid);
  }

  /** In a prefix-free set every prefix of a request covers it. */
  lemma PrefixCovers(oids: set<Oid>, p: Oid, oid: Oid)
    requires PrefixFree(oids) && p in oids && IsPrefix(p, oid)
    ensures Covers(oids, p, oid)
  {
    forall q | q in oids && Order(q, oid) <= 0 ensures Order(q, p) <= 0 {
      OrderAntisymmetric(p, q);
      if Order(p, q) < 0 {
        PrefixInterval(p, q, oid);
        OrderZero(p, p);
      }
    }
  }

  /** In a prefix-free set at most one identifier is a prefix of a request. */
  lemma CoverIsUnique(oids: set<Oid>, p: Oid, q: Oid, oid: Oid)
    requires PrefixFree(oids) && p in oids && q in oids && IsPrefix(p, oid) && IsPrefix(q, oid)
    ensures p == q
  {
    assert p <= q || q <= p;
  }

  /** Any sequence of registrations. */
  method RegisterAll<H>(regs: seq<Node<H>>) returns (agent: Agent<H>)
    ensures fresh(agent) && agent.Valid() && agent.Handlers() == Table(regs)
  {
    agent := new Agent();
    for i := 0 to |regs|
      invariant agent.Valid() && agent.Handlers() == Table(regs[..i])
    {
      agent.Register(regs[i].oid, regs[i].handler);
      assert regs[..i + 1][..i] == regs[..i];
    }
    assert regs[..|regs|] == regs;
  }

  /** The handler that counts is the last one registered. */
  lemma {:induction false} LastRegistrationCounts<H>(regs: seq<Node<H>>, i: nat)
    requires i < |regs| && forall j | i < j < |regs| :: regs[j].oid != regs[i].oid
    ensures regs[i].oid in Table(regs) && Table(regs)[regs[i].oid] == regs[i].handler
  {
    if i < |regs| - 1 {
      LastRegistrationCounts(regs[..|regs| - 1], i);
    }
  }
}
