/**
 The order on object identifiers (objectIdentifier.go) that the agent's handler tree is sorted by.
 */
module OidOrder {
  import opened ObjectIdentifiers

  /** The first difference of two identifiers; a proper prefix comes first. */
  function Order(a: Oid, b: Oid): int {
    if a == [] then if b == [] then 0 else -1
    else if b == [] then 1
    else if a[0] != b[0] then (a[0] as int) - b[0]
    else Order(a[1..], b[1..])
  }

  predicate IsPrefix(a: Oid, b: Oid) {
    a <= b
  }

  /** `m` arcs agree, and no more. */
  predicate AgreesUpTo(a: Oid, b: Oid, m: nat) {
    && m <= |a| && m <= |b| && a[..m] == b[..m]
    && (m == |a| || m == |b| || a[m] != b[m])
  }

  method Equal(a: Oid, b: Oid) returns (equal: bool)
    ensures equal <==> a == b
  {
    if |a| != |b| { return false; }
    for i := 0 to |a|
      invariant a[..i] == b[..i]
    {
      if a[i] != b[i] { return false; }
    }
    return true;
  }

  /** Returns the difference itself, not only its sign. */
  method Compare(a: Oid, b: Oid) returns (order: int)
    ensures order == Order(a, b)
  {
    for i := 0 to |a|
      invariant i <= |b| && Order(a, b) == Order(a[i..], b[i..])
    {
      if i == |b| { return 1; }
      var diff := (a[i] as int) - b[i];
      if diff != 0 { return diff; }
      assert a[i..][1..] == a[i + 1..] && b[i..][1..] == b[i + 1..];
    }
    if |a| == |b| { return 0; }
    return -1;
  }

  method MatchLength(a: Oid, b: Oid) returns (m: nat)
    ensures AgreesUpTo(a, b, m)
    ensures m == |a| <==> IsPrefix(a, b)
  {
    for i := 0 to |a|
      invariant i <= |b| && a[..i] == b[..i]
    {
      if i == |b| { return |b|; }
      if a[i] != b[i] { return i; }
    }
    return |a|;
  }

  /** What the sign of a comparison says about the arcs. */
  lemma {:induction false} OrderMeaning(a: Oid, b: Oid, m: nat)
    requires AgreesUpTo(a, b, m)
    ensures Order(a, b) == 0 <==> a == b
    ensures Order(a, b) < 0 <==> (m == |a| < |b|) || (m < |a| && m < |b| && a[m] < b[m])
    decreases m
  {
    if m > 0 {
      assert a[0] == a[..m][0] == b[..m][0] == b[0];
      assert a[1..][..m - 1] == a[..m][1..] && b[1..][..m - 1] == b[..m][1..];
      OrderMeaning(a[1..], b[1..], m - 1);
      assert a == [a[0]] + a[1..] && b == [b[0]] + b[1..];
    }
  }

  lemma {:induction false} OrderZero(a: Oid, b: Oid)
    ensures Order(a, b) == 0 <==> a == b
  {
    if a != [] && b != [] {
      OrderZero(a[1..], b[1..]);
      assert a == [a[0]] + a[1..] && b == [b[0]] + b[1..];
    }
  }

  lemma {:induction false} OrderAntisymmetric(a: Oid, b: Oid)
    ensures Order(a, b) == -Order(b, a)
  {
    if a != [] && b != [] && a[0] == b[0] { OrderAntisymmetric(a[1..], b[1..]); }
  }

  lemma {:induction false} OrderTransitive(a: Oid, b: Oid, c: Oid)
    requires Order(a, b) <= 0 && Order(b, c) <= 0
    ensures Order(a, c) <= 0
    ensures Order(a, b) < 0 || Order(b, c) < 0 ==> Order(a, c) < 0
  {
    if a != [] && b != [] && c != [] && a[0] == b[0] == c[0] {
      OrderTransitive(a[1..], b[1..], c[1..]);
    }
  }

  lemma {:induction false} PrefixComesFirst(a: Oid, b: Oid)
    requires IsPrefix(a, b)
    ensures Order(a, b) <= 0
  {
    if a != [] {
      assert a[0] == b[0] && a[1..] <= b[1..];
      PrefixComesFirst(a[1..], b[1..]);
    }
  }

  /** Everything between a prefix and an extension of it extends that prefix. */
  lemma {:induction false} PrefixInterval(p: Oid, x: Oid, q: Oid)
    requires IsPrefix(p, q) && Order(p, x) <= 0 && Order(x, q) <= 0
    ensures IsPrefix(p, x)
  {
    if p != [] {
      assert p[0] == q[0] && p[1..] <= q[1..];
      assert x != [] && x[0] == p[0];
      PrefixInterval(p[1..], x[1..], q[1..]);
      assert p == [p[0]] + p[1..] && x == [x[0]] + x[1..];
    }
  }
}
