/**
 Two's-complement integers as integer.go writes and reads them (section 8.3 of X.690).

 Shifts are written as products and floor quotients by powers of 256, truncation to a byte
 as a remainder.
 */
module Integers {
  import opened GoTypes

  function Pow256(n: nat): (p: nat)
    ensures p >= 1
  {
    if n == 0 then 1 else 256 * Pow256(n - 1)
  }

  lemma Pow256Values()
    ensures Pow256(0) == 1 && Pow256(1) == 0x100 && Pow256(2) == 0x1_0000 && Pow256(3) == 0x100_0000
    ensures Pow256(4) == 0x1_0000_0000 && Pow256(5) == 0x100_0000_0000 && Pow256(6) == 0x1_0000_0000_0000
    ensures Pow256(7) == 0x100_0000_0000_0000 && Pow256(8) == 0x1_0000_0000_0000_0000
  {
    assert Pow256(2) == 256 * Pow256(1);
    assert Pow256(3) == 256 * Pow256(2);
    assert Pow256(4) == 256 * Pow256(3);
    assert Pow256(5) == 256 * Pow256(4);
    assert Pow256(6) == 256 * Pow256(5);
    assert Pow256(7) == 256 * Pow256(6);
    assert Pow256(8) == 256 * Pow256(7);
  }

  lemma {:induction false} Pow256Monotone(m: nat, n: nat)
    requires m <= n
    ensures Pow256(m) <= Pow256(n)
    decreases n
  {
    if m < n { Pow256Monotone(m, n - 1); }
  }

  // ---------------------------------------------------------------------------
  // Octets of a number, most significant first

  /** The low `n` octets of `v`, most significant first: octet i is byte(v >> (8 * (n - 1 - i))). */
  function BigEndian(v: int, n: nat): (s: bytes)
    ensures |s| == n
  {
    if n == 0 then [] else [(v / Pow256(n - 1)) % 256] + BigEndian(v, n - 1)
  }

  /** Shifting the octets of `s` into `acc`, with no bound on the accumulator. */
  function FromBytes(acc: int, s: bytes): int
    decreases |s|
  {
    if s == [] then acc else FromBytes(acc * 256 + s[0], s[1..])
  }

  lemma MulMonotone(p: nat, a: int, b: int)
    requires a <= b
    ensures p * a <= p * b
  {
  }

  lemma ModUnique(v: int, m: int, q: int, r: int)
    requires 0 <= r < m && v == m * q + r
    ensures v % m == r && v / m == q
  {
    var d := v / m - q;
    assert m * d == r - v % m;
    MulMonotone(m, if d >= 1 then 1 else d, if d >= 1 then d else if d <= -1 then -1 else d);
  }

  /** The top digit of `v` in base `b`, and what is below it. */
  lemma SplitTopDigit(v: int, b: nat, p: nat)
    requires b >= 1 && p >= 1 && b * p >= 1
    ensures v % (b * p) == ((v / p) % b) * p + v % p
  {
    var q, r := v / p, v % p;
    var a, t := q / b, q % b;
    assert v == p * q + r;
    assert q == b * a + t;
    assert p * q == (b * p) * a + t * p by {
      assert p * (b * a + t) == p * (b * a) + p * t;
      assert p * (b * a) == (b * p) * a;
    }
    MulMonotone(p, t, b - 1);
    assert p * (b - 1) == b * p - p;
    MulMonotone(p, 0, t);
    ModUnique(v, b * p, a, t * p + r);
  }

  /** Reading back `n` octets recovers the number modulo 2^(8n). */
  lemma {:induction false} FromBigEndian(acc: int, v: int, n: nat)
    ensures FromBytes(acc, BigEndian(v, n)) == acc * Pow256(n) + v % Pow256(n)
    decreases n
  {
    if n > 0 {
      var p, rest := Pow256(n - 1), BigEndian(v, n - 1);
      var t := (v / p) % 256;
      assert BigEndian(v, n)[0] == t && BigEndian(v, n)[1..] == rest;
      FromBigEndian(acc * 256 + t, v, n - 1);
      assert FromBytes(acc, BigEndian(v, n)) == (acc * 256 + t) * p + v % p;
      SplitTopDigit(v, 256, p);
      DistributeDigit(acc, 256, t, p);
    }
  }

  lemma DistributeDigit(acc: int, b: int, t: int, p: int)
    ensures (acc * b + t) * p == acc * (b * p) + t * p
  {
    assert acc * b * p == acc * (b * p);
  }

  lemma RangeStep(acc: nat, b: byte, p: nat)
    ensures acc * (256 * p) <= (acc * 256 + b) * p
    ensures (acc * 256 + b + 1) * p <= (acc + 1) * (256 * p)
  {
    var x := acc * p;
    assert acc * (256 * p) == 256 * x;
    assert (acc * 256 + b) * p == 256 * x + b * p;
    assert (acc * 256 + b + 1) * p == 256 * x + (b + 1) * p;
    assert (acc + 1) * (256 * p) == 256 * x + 256 * p;
    MulMonotone(p, 0, b);
    MulMonotone(p, b + 1, 256);
  }

  lemma {:induction false} FromBytesRange(acc: nat, s: bytes)
    ensures acc * Pow256(|s|) <= FromBytes(acc, s) < (acc + 1) * Pow256(|s|)
    decreases |s|
  {
    if s != [] {
      var p := Pow256(|s| - 1);
      FromBytesRange(acc * 256 + s[0], s[1..]);
      RangeStep(acc, s[0], p);
    }
  }

  /** The decoder's accumulation loop: `val <<= 8; val |= octet` on an int64. */
  function ShiftIn(acc: int64, s: bytes): int64
    decreases |s|
  {
    if s == [] then acc else ShiftIn(WrapInt64(acc * 256 + s[0]), s[1..])
  }

  lemma {:induction false} ShiftInWraps(x: int, s: bytes)
    ensures ShiftIn(WrapInt64(x), s) == WrapInt64(FromBytes(x, s))
    decreases |s|
  {
    if s != [] {
      WrapStep(x, s[0]);
      ShiftInWraps(x * 256 + s[0], s[1..]);
    }
  }

  // ---------------------------------------------------------------------------
  // Encoding

  /** Half the span of an n-octet signed integer, 2^(8n - 1). */
  function HalfSpan(n: nat): (h: int)
    requires n >= 1
    ensures h >= 128
  {
    128 * Pow256(n - 1)
  }

  ghost predicate Fits(v: int, n: nat) {
    n >= 1 && -HalfSpan(n) <= v < HalfSpan(n)
  }

  /** Number of octets the encoder uses for `v`. */
  function IntLen(v: int): (n: nat)
    ensures n >= 1
    decreases if v < 0 then -v else v
  {
    if -128 <= v <= 127 then 1 else 1 + IntLen(v / 256)
  }

  lemma FitsStep(v: int, n: nat)
    requires n >= 1
    ensures Fits(v, n + 1) <==> Fits(v / 256, n)
  {
    assert HalfSpan(n + 1) == 256 * HalfSpan(n);
  }

  /** The encoder's length is minimal: v fits n octets exactly when n is at least IntLen(v). */
  lemma {:induction false} IntLenIsLeast(v: int, n: nat)
    requires n >= 1
    ensures Fits(v, n) <==> IntLen(v) <= n
    decreases n
  {
    if n == 1 {
      assert HalfSpan(1) == 128;
    } else {
      FitsStep(v, n - 1);
      if -128 <= v <= 127 {
        Pow256Monotone(0, n - 1);
      } else {
        IntLenIsLeast(v / 256, n - 1);
      }
    }
  }

  lemma Int64UsesAtMostEightOctets(v: int64)
    ensures IntLen(v) <= 8
  {
    Pow256Values();
    IntLenIsLeast(v, 8);
  }

  function IntBytes(v: int): (s: bytes)
    ensures |s| == IntLen(v)
  {
    BigEndian(v, IntLen(v))
  }

  /** integer.go counts with two loops, one for each sign. */
  method Calculate2sComplementIntLen(value: int64) returns (numBytes: nat)
    ensures numBytes == IntLen(value)
    ensures forall n: nat | n >= 1 :: Fits(value, n) <==> numBytes <= n
  {
    var val := value;
    numBytes := 1;
    while val > 127
      invariant numBytes >= 1
      invariant numBytes + IntLen(val) == IntLen(value) + 1
      decreases val
    {
      val := val / 256;
      numBytes := numBytes + 1;
    }
    while val < -128
      invariant numBytes >= 1
      invariant val <= 127
      invariant numBytes + IntLen(val) == IntLen(value) + 1
      decreases -(val as int)
    {
      val := val / 256;
      numBytes := numBytes + 1;
    }
    forall n: nat | n >= 1 ensures Fits(value, n) <==> numBytes <= n {
      IntLenIsLeast(value, n);
    }
  }

  // ---------------------------------------------------------------------------
  // Decoding

  /** `64 - uint8(numBytes)*8`, computed in a uint8. */
  function SignShift(numBytes: nat): nat {
    (64 - 8 * (numBytes % 256)) % 256
  }

  /** Shifting up by a power of 256 and back down. */
  function UpAndDown(val: int64, p: nat): int64
    requires p >= 1
  {
    var up := WrapInt64(val * p);
    QuotientIsSmaller(up, p);
    up / p
  }

  /** The sign extension by shifting up and down; Go shifts by 64 or more to zero. */
  function ShiftUpAndDown(val: int64, numBytes: nat): int64 {
    var distance := SignShift(numBytes);
    if distance >= 64 then 0 else UpAndDown(val, Pow256(distance / 8))
  }

  lemma QuotientIsSmaller(x: int64, p: nat)
    requires p >= 1
    ensures -0x8000_0000_0000_0000 <= x / p < 0x8000_0000_0000_0000
  {
    var q := x / p;
    assert x == p * q + x % p;
    if q >= 0 { MulMonotone(q, 1, p); } else { MulMonotone(-(q + 1), 1, p); }
  }

  /** What decode2sComplementInt makes of the content octets `s`. */
  function SignedValue(s: bytes): int64 {
    ShiftUpAndDown(ShiftIn(0, s), |s|)
  }

  /** The number that n octets stand for in two's complement. */
  function TwosComplement(u: nat, n: nat): int
    requires n >= 1
  {
    if u < HalfSpan(n) then u else u - Pow256(n)
  }

  /** For up to eight octets the shifts are exactly the two's-complement reading. */
  lemma ShiftsSignExtend(s: bytes)
    requires 1 <= |s| <= 8
    ensures 0 <= FromBytes(0, s) < Pow256(|s|)
    ensures SignedValue(s) == TwosComplement(FromBytes(0, s), |s|)
  {
    hide FromBytes, ShiftIn, Pow256, ShiftUpAndDown, TwosComplement;
    var n := |s|;
    var u := FromBytes(0, s);
    FromBytesRange(0, s);
    ShiftInWraps(0, s);
    assert ShiftIn(0, s) == WrapInt64(u);
    ShiftBack(u, Pow256(8 - n), n);
  }

  lemma {:induction false} Pow256Sum(m: nat, n: nat)
    ensures Pow256(m) * Pow256(n) == Pow256(m + n)
    decreases m
  {
    if m > 0 {
      Pow256Sum(m - 1, n);
      assert 256 * Pow256(m - 1) * Pow256(n) == 256 * (Pow256(m - 1) * Pow256(n));
    }
  }

  /** A value shifted to the top of 64 bits and back keeps its digits and gains their sign. */
  lemma ShiftBack(u: nat, p: nat, n: nat)
    requires 1 <= n <= 8 && p == Pow256(8 - n) && u < Pow256(n)
    ensures ShiftUpAndDown(WrapInt64(u), n) == TwosComplement(u, n)
  {
    hide Pow256, WrapInt64, HalfSpan;
    assert SignShift(n) == 8 * (8 - n);
    assert ShiftUpAndDown(WrapInt64(u), n) == WrapInt64(WrapInt64(u) * p) / p;
    WrapProduct(u, p);
    Pow256Sum(8 - n, n);
    Pow256Values();
    SpanIsTwoHalves(n);
    WrapTop(u, p, HalfSpan(n));
  }

  lemma WrapProduct(u: int, p: nat)
    ensures WrapInt64(WrapInt64(u) * p) == WrapInt64(u * p)
  {
    var k := (u + 0x8000_0000_0000_0000) / 0x1_0000_0000_0000_0000;
    var w := WrapInt64(u);
    assert w == u - k * 0x1_0000_0000_0000_0000;
    assert w * p == u * p + (-k * p) * 0x1_0000_0000_0000_0000;
    WrapShifted(u * p, -k * p);
  }

  lemma SpanIsTwoHalves(n: nat)
    requires n >= 1
    ensures Pow256(n) == 2 * HalfSpan(n)
  {
  }

  lemma WrapTop(u: nat, p: nat, h: nat)
    requires p >= 1 && p * (2 * h) == 0x1_0000_0000_0000_0000 && u < 2 * h
    ensures WrapInt64(u * p) / p == if u < h then u else u - 2 * h
  {
    assert p * h == 0x8000_0000_0000_0000;
    if u < h {
      MulMonotone(p, 0, u);
      MulMonotone(p, u + 1, h);
      assert WrapInt64(u * p) == u * p;
      ModUnique(u * p, p, u, 0);
    } else {
      MulMonotone(p, h, u);
      MulMonotone(p, u + 1, 2 * h);
      assert WrapInt64(u * p) == u * p - 0x1_0000_0000_0000_0000;
      ModUnique(u * p - 0x1_0000_0000_0000_0000, p, u - 2 * h, 0);
    }
  }

  /** Round trip of every int64, whatever follows. */
  lemma SignedValueInverts(v: int64)
    ensures SignedValue(IntBytes(v)) == v
  {
    var n := IntLen(v);
    Int64UsesAtMostEightOctets(v);
    IntLenIsLeast(v, n);
    FromBigEndian(0, v, n);
    ShiftsSignExtend(IntBytes(v));
    SpanIsTwoHalves(n);
    if v >= 0 { ModUnique(v, Pow256(n), 0, v); } else { ModUnique(v, Pow256(n), -1, v + Pow256(n)); }
  }

  /** No int64 is read from fewer octets than the encoder writes for it, except that no octets
      at all read as zero. */
  lemma SignedValueNeedsItsLength(s: bytes)
    requires s != []
    ensures IntLen(SignedValue(s)) <= |s|
  {
    var v: int64 := SignedValue(s);
    if |s| <= 8 {
      ContentFits(s);
      IntLenIsLeast(v, |s|);
    } else {
      Int64UsesAtMostEightOctets(v);
    }
  }

  lemma NoOctetsReadAsZero(s: bytes)
    requires s == []
    ensures SignedValue(s) == 0
  {
    assert SignShift(|s|) == 64;
  }

  lemma ContentFits(s: bytes)
    requires 1 <= |s| <= 8
    ensures Fits(SignedValue(s), |s|)
  {
    ShiftsSignExtend(s);
    SpanIsTwoHalves(|s|);
  }
}
