/**
 Object identifiers (objectIdentifier.go, the base-128 half of integer.go): their order, and their
 BER form (section 8.19 of X.690).
 */
module ObjectIdentifiers {
  import opened GoTypes
  import opened Integers
  import opened Headers

  type Oid = seq<uint32>

  const OBJECT_IDENTIFIER: byte := 0x06

  // ---------------------------------------------------------------------------
  // Base-128 integers

  function Pow128(n: nat): (p: nat)
    ensures p >= 1
  {
    if n == 0 then 1 else 128 * Pow128(n - 1)
  }

  /** Number of seven-bit groups in `v`; none for zero. */
  function Base128Len(v: nat): nat {
    if v == 0 then 0 else 1 + Base128Len(v / 128)
  }

  /** The low `n` groups of `v`, highest first; all but the last carry the continuation bit. */
  function Groups(v: nat, n: nat): (s: bytes)
    ensures |s| == n
  {
    if n == 0 then []
    else [(v / Pow128(n - 1)) % 128 + if n > 1 then 128 else 0] + Groups(v, n - 1)
  }

  function Base128(v: nat): (s: bytes)
    ensures |s| >= 1
  {
    if v == 0 then [0] else Groups(v, Base128Len(v))
  }

  method CalculateBase128IntLen(val: nat) returns (numBytes: nat)
    ensures numBytes == Base128Len(val)
    ensures forall n: nat :: val < Pow128(n) <==> numBytes <= n
  {
    numBytes := 0;
    var i := val;
    while i > 0
      invariant numBytes + Base128Len(i) == Base128Len(val)
    {
      i := i / 128;
      numBytes := numBytes + 1;
    }
    forall n: nat ensures val < Pow128(n) <==> numBytes <= n {
      Base128LenIsLeast(val, n);
    }
  }

  lemma {:induction false} Base128LenIsLeast(v: nat, n: nat)
    ensures v < Pow128(n) <==> Base128Len(v) <= n
    decreases n
  {
    if n > 0 && v > 0 {
      Base128LenIsLeast(v / 128, n - 1);
      assert Pow128(n) == 128 * Pow128(n - 1);
    }
  }

  /** Minimality (section 8.19.2 of X.690): the first octet is never 0x80, and every octet but the
      last has the continuation bit. */
  lemma Base128IsMinimal(v: nat)
    ensures Base128(v)[0] != 0x80
    ensures forall i | 0 <= i < |Base128(v)| :: Base128(v)[i] >= 128 <==> i < |Base128(v)| - 1
  {
    if v > 0 {
      var n := Base128Len(v);
      var p := Pow128(n - 1);
      Base128LenIsLeast(v, n - 1);
      Base128LenIsLeast(v, n);
      assert v / p >= 1 by { ModBelow(v, p); }
      assert v / p < 128 by { assert v < 128 * p; QuotientBelow(v, p, 128); }
      ContinuationBits(v, n);
    }
  }

  lemma ModBelow(v: nat, p: nat)
    requires 1 <= p <= v
    ensures v / p >= 1
  {
    var q := v / p;
    assert v == p * q + v % p;
    MulMonotone(p, if q < 1 then q else 0, 0);
  }

  lemma QuotientBelow(v: nat, p: nat, b: nat)
    requires p >= 1 && v < b * p
    ensures v / p < b
  {
    if v / p >= b { MulMonotone(p, b, v / p); }
  }

  lemma {:induction false} ContinuationBits(v: nat, n: nat)
    ensures forall i | 0 <= i < n :: Groups(v, n)[i] >= 128 <==> i < n - 1
    decreases n
  {
    if n > 0 {
      ContinuationBits(v, n - 1);
      forall i | 0 <= i < n ensures Groups(v, n)[i] >= 128 <==> i < n - 1 {
        if i > 0 { assert Groups(v, n)[i] == Groups(v, n - 1)[i - 1]; }
      }
    }
  }

  /** The code stops after four octets; 32-bit arcs would need five. */
  function MaxGroups(rd: Reading): nat {
    if rd.AsWritten? then 4 else 5
  }

  /** decodeBase128Int from the state in which `read` octets have been read into `val`. */
  function Base128Loop(limit: nat, read: nat, val: nat, s: bytes): (st: Step<nat>)
    requires read <= limit
    ensures !st.Crash? && |st.rest| <= |s|
    ensures st.Done? ==> |st.rest| < |s|
    decreases limit - read
  {
    if read == limit then Fail(s)
    else if s == [] then Fail([])
    else
      var v := val * 128 + s[0] % 128;
      if s[0] < 128 then Done(v, s[1..]) else Base128Loop(limit, read + 1, v, s[1..])
  }

  function DecodeBase128(rd: Reading, s: bytes): (st: Step<nat>)
    ensures !st.Crash? && |st.rest| <= |s|
    ensures st.Done? ==> |st.rest| < |s|
  {
    Base128Loop(MaxGroups(rd), 0, 0, s)
  }

  lemma {:induction false} GroupsRoundTrip(limit: nat, read: nat, val: nat, v: nat, n: nat, rest: bytes)
    requires n >= 1 && read + n <= limit
    ensures Base128Loop(limit, read, val, Groups(v, n) + rest) == Done(val * Pow128(n) + v % Pow128(n), rest)
    decreases n
  {
    var p, more := Pow128(n - 1), Groups(v, n - 1);
    var t := (v / p) % 128;
    GroupsHead(v, n, rest);
    SplitTopDigit(v, 128, p);
    DistributeDigit(val, 128, t, p);
    if n == 1 {
      ModUnique(v, 1, v, 0);
    } else {
      GroupsRoundTrip(limit, read + 1, val * 128 + t, v, n - 1, rest);
    }
  }

  lemma GroupsHead(v: nat, n: nat, rest: bytes)
    requires n >= 1
    ensures var s := Groups(v, n) + rest;
            && s != [] && s[1..] == Groups(v, n - 1) + rest
            && s[0] % 128 == (v / Pow128(n - 1)) % 128 && (s[0] >= 128 <==> n > 1)
            && (n == 1 ==> s[1..] == rest)
  {
  }

  predicate ArcReadable(rd: Reading, v: nat) {
    v < if rd.AsWritten? then 0x1000_0000 else 0x1_0000_0000
  }

  lemma Pow128Values()
    ensures Pow128(4) == 0x1000_0000 && Pow128(5) == 0x8_0000_0000
  {
    assert Pow128(2) == 128 * Pow128(1);
    assert Pow128(3) == 128 * Pow128(2);
    assert Pow128(4) == 128 * Pow128(3);
  }

  /** Self-delimiting: every value in the decoder's range comes back, with exactly what follows it. */
  lemma Base128RoundTrip(rd: Reading, v: nat, rest: bytes)
    requires ArcReadable(rd, v)
    ensures DecodeBase128(rd, Base128(v) + rest) == Done(v, rest)
  {
    var n := Base128Len(v);
    Pow128Values();
    Base128LenIsLeast(v, MaxGroups(rd));
    if v == 0 {
      assert ([0] + rest)[1..] == rest;
    } else {
      Base128LenIsLeast(v, n);
      ModUnique(v, Pow128(n), 0, v);
      GroupsRoundTrip(MaxGroups(rd), 0, 0, v, n, rest);
    }
  }

  lemma GrowBound(val: nat, group: nat, v: nat, n: nat)
    requires group < 128 && v < (val * 128 + group + 1) * Pow128(n)
    ensures v < (val + 1) * Pow128(n + 1)
  {
    var p := Pow128(n);
    MulMonotone(p, val * 128 + group + 1, (val + 1) * 128);
    assert p * ((val + 1) * 128) == (val + 1) * (128 * p);
  }

  lemma {:induction false} Base128LoopCost(limit: nat, read: nat, val: nat, s: bytes)
    requires read <= limit
    ensures var st := Base128Loop(limit, read, val, s);
            && !st.Crash? && |st.rest| <= |s|
            && st.rest == s[|s| - |st.rest|..]
            && (st.Done? ==> |s| - |st.rest| <= limit - read)
            && (st.Done? ==> st.value < (val + 1) * Pow128(|s| - |st.rest|))
    decreases limit - read
  {
    hide Pow128;
    if read < limit && s != [] {
      var v := val * 128 + s[0] % 128;
      var st := Base128Loop(limit, read, val, s);
      if s[0] >= 128 {
        Base128LoopCost(limit, read + 1, v, s[1..]);
        if st.Done? { GrowBound(val, s[0] % 128, st.value, |s| - |st.rest| - 1); }
      } else {
        GrowBound(val, s[0] % 128, v, 0);
      }
    }
  }

  /** What decodeBase128Int accepts is in its range, and no cheaper than the encoder's form. */
  lemma Base128Cost(rd: Reading, s: bytes)
    ensures var st := DecodeBase128(rd, s);
            && !st.Crash? && |st.rest| <= |s| && st.rest == s[|s| - |st.rest|..]
            && (st.Done? ==> |st.rest| < |s| && |Base128(st.value)| <= |s| - |st.rest|)
            && (st.Done? && rd.AsWritten? ==> ArcReadable(rd, st.value))
  {
    hide Base128Loop, Base128Len;
    Base128LoopCost(MaxGroups(rd), 0, 0, s);
    var st := DecodeBase128(rd, s);
    if st.Done? {
      Base128LenIsLeast(st.value, |s| - |st.rest|);
      Base128LenIsLeast(st.value, MaxGroups(rd));
      Pow128Values();
    }
  }

  // ---------------------------------------------------------------------------
  // Encoding

  function Arcs(a: Oid): (s: bytes)
    ensures |s| >= |a|
  {
    if a == [] then [] else Base128(a[0]) + Arcs(a[1..])
  }

  predicate OidEncodable(oid: Oid) {
    |oid| >= 2 && oid[0] <= 6 && oid[1] < 40
  }

  /** The content octets; the first holds two arcs, truncated to a byte. */
  function OidContent(oid: Oid): bytes
    requires |oid| >= 2
  {
    [((oid[0] as int) * 40 + oid[1]) % 256] + Arcs(oid[2..])
  }

  function EncodeOid(oid: Oid): (o: Outcome<bytes>)
    ensures !o.Panic?
  {
    if OidEncodable(oid) then Ok(Block(OBJECT_IDENTIFIER, OidContent(oid))) else Err
  }

  // ---------------------------------------------------------------------------
  // Decoding

  /** The loop over arcs. `n` is the block's length, `used` the octets of it consumed so far, `acc`
      the arcs stored so far; they go into a slice of n + 1 elements. */
  function OidArcs(rd: Reading, n: nat, used: nat, acc: Oid, s: bytes): (st: Step<Oid>)
    ensures !st.Crash? ==> |st.rest| <= |s|
    decreases |s|
  {
    match DecodeBase128(rd, s)
    case Fail(r) => Fail(r)
    case Done(v, r) =>
      if v > MAX_UINT32 then Fail(r)
      else if |acc| > n then Crash
      else
        var used' := used + |s| - |r|;
        if used' == n then Done(acc + [v], r)
        else if used' > n then Fail(r)
        else OidArcs(rd, n, used', acc + [v], r)
  }

  function DecodeOid(rd: Reading, n: nat, s: bytes): (st: Step<Oid>)
    ensures !st.Crash? ==> |st.rest| <= |s|
  {
    if n > |s| then Fail(s)
    else if s == [] then Fail([])
    else if n == 0 then Crash
    else if rd.PerStandard? && n == 1 then Done([s[0] / 40, s[0] % 40], s[1..])
    else OidArcs(rd, n, 1, [s[0] / 40, s[0] % 40], s[1..])
  }

  function DecodeOidWithHeader(rd: Reading, s: bytes): (st: Step<Oid>)
    ensures !st.Crash? ==> |st.rest| <= |s|
  {
    match DecodeHeader(rd, s)
    case Fail(r) => Fail(r)
    case Done(h, r) => if h.tag != OBJECT_IDENTIFIER then Fail(r) else DecodeOid(rd, h.length, r)
  }

  /** The identifiers a decoder can return. As written it always reads a third arc. */
  predicate OidReadable(rd: Reading, oid: Oid) {
    && |oid| >= (if rd.AsWritten? then 3 else 2)
    && oid[1] < 40 && (oid[0] as int) * 40 + oid[1] <= 255
    && forall i | 2 <= i < |oid| :: ArcReadable(rd, oid[i])
  }

  lemma OidArcsStep(rd: Reading, n: nat, used: nat, acc: Oid, a: Oid, tail: bytes)
    requires a != [] && ArcReadable(rd, a[0])
    requires used + |Base128(a[0])| <= n && |acc| <= used + 1
    ensures OidArcs(rd, n, used, acc, Base128(a[0]) + tail)
            == if used + |Base128(a[0])| == n then Done(acc + [a[0]], tail)
               else OidArcs(rd, n, used + |Base128(a[0])|, acc + [a[0]], tail)
  {
    hide Base128, DecodeBase128;
    Base128RoundTrip(rd, a[0], tail);
  }

  lemma {:induction false} OidArcsRoundTrip(rd: Reading, n: nat, used: nat, acc: Oid, a: Oid, rest: bytes)
    requires a != [] && (forall i | 0 <= i < |a| :: ArcReadable(rd, a[i]))
    requires used + |Arcs(a)| == n && |acc| <= used + 1
    ensures OidArcs(rd, n, used, acc, Arcs(a) + rest) == Done(acc + a, rest)
    decreases |a|
  {
    hide Base128, OidArcs;
    var more := a[1..];
    var tail := Arcs(more) + rest;
    assert Arcs(a) + rest == Base128(a[0]) + tail;
    OidArcsStep(rd, n, used, acc, a, tail);
    if more == [] {
      assert tail == rest;
      assert acc + a == acc + [a[0]];
    } else {
      OidArcsRoundTrip(rd, n, used + |Base128(a[0])|, acc + [a[0]], more, rest);
      assert acc + a == acc + [a[0]] + more;
    }
  }

  lemma OidRoundTrip(rd: Reading, oid: Oid, rest: bytes)
    requires OidReadable(rd, oid)
    ensures DecodeOid(rd, |OidContent(oid)|, OidContent(oid) + rest) == Done(oid, rest)
  {
    hide OidArcs, Base128;
    var content, arcs := OidContent(oid), oid[2..];
    FirstOctet(oid[0], oid[1]);
    assert oid == [oid[0], oid[1]] + arcs;
    assert (content + rest)[1..] == Arcs(arcs) + rest;
    if arcs == [] {
      TwoArcs(rd, oid, content + rest);
    } else {
      OidArcsRoundTrip(rd, |content|, 1, [oid[0], oid[1]], arcs, rest);
    }
  }

  lemma TwoArcs(rd: Reading, oid: Oid, s: bytes)
    requires rd.PerStandard? && |oid| == 2 && s != []
    requires s[0] / 40 == oid[0] && s[0] % 40 == oid[1]
    ensures DecodeOid(rd, 1, s) == Done(oid, s[1..])
  {
    assert oid == [oid[0], oid[1]];
  }

  lemma FirstOctet(a: nat, b: nat)
    requires b < 40 && a * 40 + b <= 255
    ensures (a * 40 + b) % 256 / 40 == a && (a * 40 + b) % 256 % 40 == b
  {
  }

  lemma OidBlockRoundTrip(rd: Reading, oid: Oid, rest: bytes)
    requires OidReadable(rd, oid) && LengthReadable(rd, |OidContent(oid)|)
    ensures DecodeOidWithHeader(rd, Block(OBJECT_IDENTIFIER, OidContent(oid)) + rest) == Done(oid, rest)
  {
    HeaderRoundTrip(rd, OBJECT_IDENTIFIER, OidContent(oid), rest);
    OidRoundTrip(rd, oid, rest);
  }

  lemma {:induction false} ArcsAppend(a: Oid, v: uint32)
    ensures Arcs(a + [v]) == Arcs(a) + Base128(v)
  {
    hide Base128;
    var b := a + [v];
    if a == [] {
      assert b[1..] == [];
    } else {
      ArcsAppend(a[1..], v);
      assert b[0] == a[0] && b[1..] == a[1..] + [v];
      assert Base128(a[0]) + (Arcs(a[1..]) + Base128(v)) == Base128(a[0]) + Arcs(a[1..]) + Base128(v);
    }
  }

  /** Index safety and cost of the arc loop. */
  lemma {:induction false} OidArcsCost(rd: Reading, n: nat, used: nat, acc: Oid, s: bytes)
    requires 1 <= used < n && 2 <= |acc| <= used + 1
    requires |Arcs(acc[2..])| < used
    requires forall i | 2 <= i < |acc| :: ArcReadable(rd, acc[i])
    ensures var st := OidArcs(rd, n, used, acc, s);
            && !st.Crash? && |st.rest| <= |s|
            && st.rest == s[|s| - |st.rest|..]
            && (st.Done? ==> |st.value| > |acc| && st.value[..2] == acc[..2])
            && (st.Done? ==> used + |s| - |st.rest| == n && |Arcs(st.value[2..])| < n)
            && (st.Done? ==> forall i | 2 <= i < |st.value| :: ArcReadable(rd, st.value[i]))
    decreases |s|
  {
    hide Base128, DecodeBase128, Arcs;
    Base128Cost(rd, s);
    match DecodeBase128(rd, s)
    case Fail(_) =>
    case Done(v, r) =>
      if v <= MAX_UINT32 {
        var acc' := acc + [v];
        assert acc'[2..] == acc[2..] + [v];
        ArcsAppend(acc[2..], v);
        var used' := used + |s| - |r|;
        if used' < n {
          OidArcsCost(rd, n, used', acc', r);
        }
      }
  }

  /** As written, a block of two octets or more never writes outside its slice; the shorter ones
      panic unless an error comes first. */
  lemma OidIndexSafety(n: nat, s: bytes)
    ensures DecodeOid(AsWritten, n, s).Crash? <==>
            n <= |s| && s != [] && (n == 0 || (n == 1 && DecodeBase128(AsWritten, s[1..]).Done?))
  {
    if 2 <= n <= |s| {
      OidArcsCost(AsWritten, n, 1, [s[0] / 40, s[0] % 40], s[1..]);
    }
    Base128Cost(AsWritten, s[if s == [] then 0 else 1..]);
  }

  /** What decodeObjectIdentifier accepts as written: it consumes exactly its block, returns an
      identifier in its range, and spends no less than the encoder would. */
  lemma OidCost(n: nat, s: bytes)
    ensures var st := DecodeOid(AsWritten, n, s);
            && (!st.Crash? ==> |st.rest| <= |s| && st.rest == s[|s| - |st.rest|..])
            && (st.Done? ==> |s| - |st.rest| == n && OidReadable(AsWritten, st.value))
            && (st.Done? ==> |OidContent(st.value)| <= n)
  {
    if 2 <= n <= |s| {
      OidArcsCost(AsWritten, n, 1, [s[0] / 40, s[0] % 40], s[1..]);
      var st := DecodeOid(AsWritten, n, s);
      if st.Done? {
        assert st.value[0] == st.value[..2][0] && st.value[1] == st.value[..2][1];
      }
    } else {
      Base128Cost(AsWritten, s[if s == [] then 0 else 1..]);
    }
  }

  /** Four octets with the continuation bit in a row. */
  predicate FourMore(s: bytes, i: nat) {
    i + 3 < |s| && s[i] >= 128 && s[i + 1] >= 128 && s[i + 2] >= 128 && s[i + 3] >= 128
  }

  /** No arc of more than four octets stands in the first `n` octets. */
  predicate ShortArcs(s: bytes, n: nat) {
    forall i: nat | i + 3 < n :: !FourMore(s, i)
  }

  /** Where an arc ends. */
  lemma {:induction false} Base128Ends(limit: nat, read: nat, val: nat, s: bytes)
    requires read <= limit
    ensures var st := Base128Loop(limit, read, val, s);
            var eaten := |s| - |st.rest|;
            && st.rest == s[eaten..]
            && (st.Done? ==> 1 <= eaten <= limit - read && s[eaten - 1] < 128 && forall i | 0 <= i < eaten - 1 :: s[i] >= 128)
            && (st.Fail? ==> forall i | 0 <= i < limit - read && i < |s| :: s[i] >= 128)
    decreases limit - read
  {
    if read < limit && s != [] && s[0] >= 128 {
      Base128Ends(limit, read + 1, val * 128 + s[0] % 128, s[1..]);
      assert forall i | 1 <= i < |s| :: s[i] == s[1..][i - 1];
    }
  }

  /** The loop over arcs succeeds exactly when the block ends with the end of an arc and holds none that is
      too long. */
  lemma {:induction false} ArcsDoneExactly(n: nat, used: nat, acc: Oid, s: bytes)
    requires used < n <= used + |s| && |acc| <= used + 1
    ensures OidArcs(AsWritten, n, used, acc, s).Done? <==> s[n - used - 1] < 128 && ShortArcs(s, n - used)
    decreases |s|
  {
    hide DecodeBase128, ShortArcs;
    var m := n - used;
    ArcEnds(s);
    Base128Cost(AsWritten, s);
    var st := DecodeBase128(AsWritten, s);
    if st.Done? {
      var eaten := |s| - |st.rest|;
      if eaten < m {
        ArcsDoneExactly(n, used + eaten, acc + [st.value], st.rest);
        ShortArcsBehind(s, m, eaten);
      } else {
        FirstArcIsShort(s, m, eaten);
      }
    } else {
      FirstArcIsLong(s, m);
    }
  }

  lemma FirstArcIsShort(s: bytes, m: nat, eaten: nat)
    requires 1 <= m <= eaten <= 4 && eaten <= |s| && s[eaten - 1] < 128
    ensures ShortArcs(s, m)
  {
  }

  lemma FirstArcIsLong(s: bytes, m: nat)
    requires 1 <= m <= |s| && forall i | 0 <= i < 4 && i < |s| :: s[i] >= 128
    ensures !(s[m - 1] < 128 && ShortArcs(s, m))
  {
    if m >= 4 { assert FourMore(s, 0); }
  }

  lemma ArcEnds(s: bytes)
    ensures var st := DecodeBase128(AsWritten, s);
            var eaten := |s| - |st.rest|;
            && st.rest == s[eaten..]
            && (st.Done? ==> 1 <= eaten <= 4 && s[eaten - 1] < 128 && forall i | 0 <= i < eaten - 1 :: s[i] >= 128)
            && (st.Fail? ==> forall i | 0 <= i < 4 && i < |s| :: s[i] >= 128)
  {
    Base128Ends(4, 0, 0, s);
  }

  lemma ShortArcsBehind(s: bytes, m: nat, eaten: nat)
    requires 1 <= eaten <= 4 && eaten < m <= |s| && s[eaten - 1] < 128
    ensures ShortArcs(s, m) <==> ShortArcs(s[eaten..], m - eaten)
    ensures s[m - 1] == s[eaten..][m - eaten - 1]
  {
    forall j: nat | j + 3 < m - eaten ensures FourMore(s[eaten..], j) == FourMore(s, j + eaten) {
    }
    forall i: nat | i < eaten ensures !FourMore(s, i) {
      FourMoreCovers(s, i, eaten - 1);
    }
    hide FourMore;
    if ShortArcs(s[eaten..], m - eaten) {
      forall i: nat | i + 3 < m ensures !FourMore(s, i) {
        if i >= eaten { assert !FourMore(s[eaten..], i - eaten); }
      }
    }
  }

  lemma FourMoreCovers(s: bytes, i: nat, k: nat)
    requires i <= k <= i + 3 && k < |s| && s[k] < 128
    ensures !FourMore(s, i)
  {
  }

  /** What the octets of a block must be for decodeObjectIdentifier to succeed as written. */
  predicate OidOctets(n: nat, s: bytes) {
    2 <= n <= |s| && s[n - 1] < 128 && ShortArcs(s[1..], n - 1)
  }

  lemma OidDecodedExactly(n: nat, s: bytes)
    ensures DecodeOid(AsWritten, n, s).Done? <==> OidOctets(n, s)
  {
    if 2 <= n <= |s| {
      ArcsDoneExactly(n, 1, [s[0] / 40, s[0] % 40], s[1..]);
    } else if n == 1 && s != [] {
      OneOctetNeverDone(s);
    }
  }

  lemma BigArcFails(v: nat, rest: bytes)
    requires !ArcReadable(AsWritten, v)
    ensures DecodeBase128(AsWritten, Base128(v) + rest).Fail?
  {
    var s := Base128(v) + rest;
    Pow128Values();
    Base128LenIsLeast(v, 4);
    Base128IsMinimal(v);
    assert forall i | 0 <= i < 4 :: s[i] == Base128(v)[i];
    var s1, s2, s3 := s[1..], s[2..], s[3..];
    assert s1[1..] == s2 && s2[1..] == s3;
    var v1: nat := s[0] % 128;
    var v2: nat := v1 * 128 + s1[0] % 128;
    var v3: nat := v2 * 128 + s2[0] % 128;
    assert Base128Loop(4, 3, v3, s3).Fail?;
    assert Base128Loop(4, 2, v2, s2).Fail?;
    assert Base128Loop(4, 1, v1, s1).Fail?;
  }

  /** As written, an arc of 2^28 or more stops the loop with an error, wherever it stands. */
  lemma {:induction false} OidArcsFail(n: nat, used: nat, acc: Oid, a: Oid, rest: bytes)
    requires exists i | 0 <= i < |a| :: !ArcReadable(AsWritten, a[i])
    requires used + |Arcs(a)| == n && |acc| <= used + 1
    ensures OidArcs(AsWritten, n, used, acc, Arcs(a) + rest).Fail?
    decreases |a|
  {
    hide Base128, DecodeBase128;
    var more := a[1..];
    var tail := Arcs(more) + rest;
    assert Arcs(a) + rest == Base128(a[0]) + tail;
    if ArcReadable(AsWritten, a[0]) {
      OidArcsStep(AsWritten, n, used, acc, a, tail);
      var i :| 0 <= i < |a| && !ArcReadable(AsWritten, a[i]);
      assert more[i - 1] == a[i];
      OidArcsFail(n, used + |Base128(a[0])|, acc + [a[0]], more, rest);
    } else {
      BigArcFails(a[0], tail);
    }
  }

  /** How the decoder as written ends on any identifier the encoder accepts: with some identifier when all
      arcs from the third on are below 2^28, with an error when one is not, and for two arcs with a panic
      when an arc can be read behind them. */
  lemma OidOutcome(oid: Oid, rest: bytes)
    requires OidEncodable(oid)
    ensures var st := DecodeOid(AsWritten, |OidContent(oid)|, OidContent(oid) + rest);
            && (st.Done? <==> |oid| >= 3 && forall i | 2 <= i < |oid| :: ArcReadable(AsWritten, oid[i]))
            && (st.Crash? <==> |oid| == 2 && DecodeBase128(AsWritten, rest).Done?)
            && (st.Done? ==> st.rest == rest)
  {
    hide OidArcs, Base128, DecodeBase128;
    var content, arcs := OidContent(oid), oid[2..];
    var first := [content[0] / 40, content[0] % 40];
    assert (content + rest)[1..] == Arcs(arcs) + rest && (content + rest)[0] == content[0];
    if arcs == [] {
      assert Arcs(arcs) + rest == rest;
      OidIndexSafety(1, content + rest);
      OneOctetNeverDone(content + rest);
    } else if i :| 0 <= i < |arcs| && !ArcReadable(AsWritten, arcs[i]) {
      assert oid[i + 2] == arcs[i] && !ArcReadable(AsWritten, oid[i + 2]);
      OidArcsFail(|content|, 1, first, arcs, rest);
    } else {
      assert forall i | 2 <= i < |oid| :: oid[i] == arcs[i - 2];
      OidArcsRoundTrip(AsWritten, |content|, 1, first, arcs, rest);
    }
  }

  lemma OneOctetNeverDone(s: bytes)
    requires s != []
    ensures !DecodeOid(AsWritten, 1, s).Done?
    ensures DecodeOid(AsWritten, 1, s).Fail? <==> DecodeBase128(AsWritten, s[1..]).Fail?
  {
    Base128Cost(AsWritten, s[1..]);
  }

  /** As written, an identifier comes back exactly when it has at least three arcs, its first octet
      holds 40a + b, and its other arcs stay below 2^28. */
  lemma OidReadBackExactly(oid: Oid, rest: bytes)
    requires OidEncodable(oid)
    ensures DecodeOid(AsWritten, |OidContent(oid)|, OidContent(oid) + rest) == Done(oid, rest)
            <==> OidReadable(AsWritten, oid)
  {
    hide DecodeOid;
    OidCost(|OidContent(oid)|, OidContent(oid) + rest);
    if OidReadable(AsWritten, oid) { OidRoundTrip(AsWritten, oid, rest); }
  }
}
