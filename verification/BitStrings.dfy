/**
 Bit strings as the caller works on them (bitstring.go): bits set and cleared in place, in octets filled
 from the most significant bit.
 */
module BitStrings {
  import opened GoTypes
  import M = Messages
  import R = RoundTrip

  // ---------------------------------------------------------------------------
  // Bits of an octet

  /** `1 << shift` */
  function Mask(shift: nat): (m: bv8)
    requires shift < 8
  {
    match shift
    case 0 => 1 case 1 => 2 case 2 => 4 case 3 => 8
    case 4 => 16 case 5 => 32 case 6 => 64 case 7 => 128
  }

  predicate Bit(octet: bv8, shift: nat)
    requires shift < 8
  {
    octet & Mask(shift) != 0
  }

  /** `octet >> shift & 1` */
  lemma ShiftedBit(octet: bv8, shift: nat)
    requires shift < 8
    ensures (octet >> shift) & 1 == 1 <==> Bit(octet, shift)
  {
    match shift
    case 0 => case 1 => case 2 => case 3 =>
    case 4 => case 5 => case 6 => case 7 =>
  }

  lemma ShiftedOne(shift: nat)
    requires shift < 8
    ensures (1 as bv8) << shift == Mask(shift)
  {
    match shift
    case 0 => case 1 => case 2 => case 3 =>
    case 4 => case 5 => case 6 => case 7 =>
  }

  lemma OneBit(octet: bv8, s: nat, t: nat)
    requires s < 8 && t < 8
    ensures Bit(octet | Mask(s), t) <==> s == t || Bit(octet, t)
    ensures Bit(octet & !Mask(s), t) <==> s != t && Bit(octet, t)
  {
  }

  function WithBit(octet: bv8, shift: nat): (r: bv8)
    requires shift < 8
    ensures forall t: nat | t < 8 :: Bit(r, t) <==> t == shift || Bit(octet, t)
  {
    ShiftedOne(shift);
    assert forall t: nat | t < 8 :: Bit(octet | Mask(shift), t) <==> t == shift || Bit(octet, t) by {
      forall t: nat | t < 8 { OneBit(octet, shift, t); }
    }
    octet | ((1 as bv8) << shift)
  }

  function WithoutBit(octet: bv8, shift: nat): (r: bv8)
    requires shift < 8
    ensures forall t: nat | t < 8 :: Bit(r, t) <==> t != shift && Bit(octet, t)
  {
    ShiftedOne(shift);
    assert forall t: nat | t < 8 :: Bit(octet & !Mask(shift), t) <==> t != shift && Bit(octet, t) by {
      forall t: nat | t < 8 { OneBit(octet, shift, t); }
    }
    octet & !((1 as bv8) << shift)
  }

  // ---------------------------------------------------------------------------
  // Bit strings

  datatype Op = SetBit(bitIdx: int) | ClearBit(bitIdx: int)

  /** What operations within the bit string do to the set of its bits. */
  function Apply(ops: seq<Op>, bits: set<int>): set<int> {
    if ops == [] then bits
    else match ops[0]
      case SetBit(i) => Apply(ops[1..], bits + {i})
      case ClearBit(i) => Apply(ops[1..], bits - {i})
  }

  class BitString {
    const octets: array<bv8>
    const bitLength: int

    /** As many octets as the bits need. */
    predicate Valid() {
      8 * octets.Length - 8 < bitLength <= 8 * octets.Length
    }

    predicate Has(i: int)
      reads octets
    {
      0 <= i < 8 * octets.Length && Bit(octets[i / 8], 7 - i % 8)
    }

    /** The positions of all bits that are set, padding bits included. */
    ghost function Bits(): set<int>
      reads octets
    {
      set i | 0 <= i < 8 * octets.Length && Has(i)
    }

    ghost predicate PaddingIsZero()
      reads octets
    {
      forall i | i in Bits() :: i < bitLength
    }

    /** The value that is encoded. */
    ghost function Value(): (v: M.BitString)
      reads octets
      ensures v.bitLength == bitLength && |v.octets| == octets.Length
      ensures R.WellFormedBits(v) <==> Valid()
    {
      M.BitString(seq(octets.Length, i requires 0 <= i < octets.Length reads octets => octets[i] as int), bitLength)
    }

    /** The octets and the length together, as decodeBitString sets them. */
    constructor FromOctets(bits: array<bv8>, n: int)
      ensures octets == bits && bitLength == n
    {
      octets, bitLength := bits, n;
    }

    method IsSet(bitIdx: int) returns (o: Outcome<bool>)
      ensures o == if bitIdx < 0 || bitIdx > bitLength then Ok(false)
                   else if bitIdx / 8 >= octets.Length then Panic
                   else Ok(bitIdx in Bits())
    {
      if bitIdx < 0 || bitIdx > bitLength { return Ok(false); }
      var byteIdx, bitShift := bitIdx / 8, 7 - bitIdx % 8;
      if byteIdx >= octets.Length { return Panic; }
      ShiftedBit(octets[byteIdx], bitShift);
      return Ok((octets[byteIdx] >> bitShift) & 1 == 1);
    }

    /** One past the last bit passes the guard: without padding it panics, with padding it sets a padding
        bit. Every other index is safe and leaves the padding zero. */
    method Set(bitIdx: int) returns (o: Outcome<()>)
      modifies octets
      ensures o.Err? <==> bitIdx < 0 || bitIdx > bitLength
      ensures o.Panic? <==> 0 <= bitIdx <= bitLength && bitIdx / 8 >= octets.Length
      ensures Bits() == if o.Ok? then old(Bits()) + {bitIdx} else old(Bits())
      ensures Valid() ==> (o.Panic? <==> bitIdx == bitLength >= 0 && bitLength % 8 == 0)
      ensures Valid() && old(PaddingIsZero()) ==> (!PaddingIsZero() <==> bitIdx == bitLength > 0 && bitLength % 8 != 0)
    {
      if bitIdx < 0 || bitIdx > bitLength { return Err; }
      var byteIdx, bitShift := bitIdx / 8, 7 - bitIdx % 8;
      if byteIdx >= octets.Length { return Panic; }
      hide Bit, WithBit, WithoutBit;
      octets[byteIdx] := WithBit(octets[byteIdx], bitShift);
      return Ok(());
    }

    method Clear(bitIdx: int) returns (o: Outcome<()>)
      modifies octets
      ensures o.Err? <==> bitIdx < 0 || bitIdx > bitLength
      ensures o.Panic? <==> 0 <= bitIdx <= bitLength && bitIdx / 8 >= octets.Length
      ensures Bits() == if o.Ok? then old(Bits()) - {bitIdx} else old(Bits())
      ensures old(PaddingIsZero()) ==> PaddingIsZero()
    {
      if bitIdx < 0 || bitIdx > bitLength { return Err; }
      var byteIdx, bitShift := bitIdx / 8, 7 - bitIdx % 8;
      if byteIdx >= octets.Length { return Panic; }
      hide Bit, WithBit, WithoutBit;
      octets[byteIdx] := WithoutBit(octets[byteIdx], bitShift);
      return Ok(());
    }

    /** Any sequence of sets and clears within the bit string does to it what it does to a set. */
    method Perform(ops: seq<Op>)
      requires Valid() && PaddingIsZero()
      requires forall k | 0 <= k < |ops| :: 0 <= ops[k].bitIdx < bitLength
      modifies octets
      ensures Bits() == Apply(ops, old(Bits())) && PaddingIsZero()
    {
      var k := 0;
      while k < |ops|
        invariant 0 <= k <= |ops|
        invariant Apply(ops[k..], Bits()) == Apply(ops, old(Bits())) && PaddingIsZero()
      {
        assert ops[k..][0] == ops[k] && ops[k..][1..] == ops[k + 1..];
        match ops[k] {
          case SetBit(i) => var o := Set(i);
          case ClearBit(i) => var o := Clear(i);
        }
        k := k + 1;
      }
    }
  }

  /** NewBitString: all bits clear. A negative length panics only from -16 on, and at -8. */
  method NewBitString(numBits: int) returns (o: Outcome<BitString>)
    ensures o.Panic? <==> numBits == -8 || numBits <= -16
    ensures !o.Err?
    ensures o.Ok? ==> fresh(o.value.octets) && o.value.bitLength == numBits && o.value.Bits() == {}
                      && o.value.PaddingIsZero() && (o.value.Valid() <==> numBits >= 0)
  {
    var numBytes := if numBits >= 0 then numBits / 8 else -(-numBits / 8);
    if M.GoRemainder(numBits, 8) != 0 { numBytes := numBytes + 1; }
    if numBytes < 0 { return Panic; }
    var octets := new bv8[numBytes](_ => 0);
    var b := new BitString.FromOctets(octets, numBits);
    return Ok(b);
  }

  /** A bit string whose octets are as many as its bits need comes back from its encoding with the same
      bits and the same length, whatever follows it. */
  lemma BitsComeBack(b: BitString, c: BitString, rest: bytes)
    requires b.Valid()
    requires var content := M.BitStringContent(b.Value());
             M.DecodeBitString(|content|, content + rest) == Done(c.Value(), rest)
    ensures c.bitLength == b.bitLength && c.Bits() == b.Bits()
  {
    R.BitStringReadBackExactly(b.Value(), rest);
    assert b.Value() == c.Value();
    forall i: int | 0 <= i < 8 * b.octets.Length ensures b.Has(i) <==> c.Has(i) {
      assert b.Value().octets[i / 8] == c.Value().octets[i / 8];
      SameOctet(b.octets[i / 8], c.octets[i / 8]);
    }
  }

  lemma SameOctet(x: bv8, y: bv8)
    requires x as int == y as int
    ensures x == y
  {
    assert (x as int) as bv8 == x && (y as int) as bv8 == y;
  }

  // ---------------------------------------------------------------------------
  // Which bit of which octet

  function Pow2(n: nat): nat {
    if n == 0 then 1 else 2 * Pow2(n - 1)
  }

  lemma Pow2Positive(n: nat)
    ensures Pow2(n) >= 1
  {
  }

  lemma Pow2Values()
    ensures Pow2(0) == 1 && Pow2(1) == 2 && Pow2(2) == 4 && Pow2(3) == 8
    ensures Pow2(4) == 16 && Pow2(5) == 32 && Pow2(6) == 64 && Pow2(7) == 128
  {
    assert Pow2(3) == 8;
    assert Pow2(6) == 64;
  }

  /** The octet is odd after dividing by 2^n. */
  predicate OddAt(octet: int, n: nat) {
    Pow2Positive(n);
    octet / Pow2(n) % 2 == 1
  }

  // One lemma for each bit keeps the solver's work on machine words and numbers apart.

  lemma Bit7(octet: bv8)
    ensures Bit(octet, 7) <==> octet as int / 128 % 2 == 1
  {
  }

  lemma Bit6(octet: bv8)
    ensures Bit(octet, 6) <==> octet as int / 64 % 2 == 1
  {
  }

  lemma Bit5(octet: bv8)
    ensures Bit(octet, 5) <==> octet as int / 32 % 2 == 1
  {
  }

  lemma Bit4(octet: bv8)
    ensures Bit(octet, 4) <==> octet as int / 16 % 2 == 1
  {
  }

  lemma Bit3(octet: bv8)
    ensures Bit(octet, 3) <==> octet as int / 8 % 2 == 1
  {
  }

  lemma Bit2(octet: bv8)
    ensures Bit(octet, 2) <==> octet as int / 4 % 2 == 1
  {
  }

  lemma Bit1(octet: bv8)
    ensures Bit(octet, 1) <==> octet as int / 2 % 2 == 1
  {
  }

  lemma Bit0(octet: bv8)
    ensures Bit(octet, 0) <==> octet as int / 1 % 2 == 1
  {
  }

  lemma BitIsOdd(octet: bv8, shift: nat)
    requires shift < 8
    ensures Bit(octet, shift) <==> OddAt(octet as int, shift)
  {
    hide Bit, Pow2;
    Pow2Values();
    match shift
    case 0 => Bit0(octet);
    case 1 => Bit1(octet);
    case 2 => Bit2(octet);
    case 3 => Bit3(octet);
    case 4 => Bit4(octet);
    case 5 => Bit5(octet);
    case 6 => Bit6(octet);
    case 7 => Bit7(octet);
  }

  /** Bit i is bit 7 - i mod 8 of octet i / 8 as a number: the leading bit comes first, in memory and, behind
      the count of padding bits, on the wire (section 8.6.2 of X.690). */
  lemma LeadingBitFirst(b: BitString, i: int)
    ensures i in b.Bits() <==> 0 <= i < 8 * b.octets.Length && OddAt(b.octets[i / 8] as int, 7 - i % 8)
    ensures i in b.Bits() <==> 0 <= i < 8 * b.octets.Length
                               && OddAt(M.BitStringContent(b.Value())[1 + i / 8], 7 - i % 8)
  {
    hide OddAt, Bit;
    if 0 <= i < 8 * b.octets.Length {
      BitIsOdd(b.octets[i / 8], 7 - i % 8);
      assert M.BitStringContent(b.Value())[1 + i / 8] == b.Value().octets[i / 8];
    }
  }
}
