/**
 Block headers: a type octet and a length (encoder.go, decoder.go; section 8.1.3 of X.690).
 */
module Headers {
  import opened GoTypes
  import opened Integers

  /** Which decoder is meant: the code as it stands, or the one that its own encoder and range
      checks call for (X.690): a length octet masked to its low seven bits, arcs of 32 bits,
      two-arc identifiers and int32 INTEGER values. */
  datatype Reading = AsWritten | PerStandard

  datatype Header = Header(tag: byte, length: nat)

  // ---------------------------------------------------------------------------
  // Encoding

  /** Number of octets that the long form needs. */
  function LengthLen(l: nat): (n: nat)
    ensures n >= 1
  {
    if l <= 255 then 1 else 1 + LengthLen(l / 256)
  }

  /** The length octets. The octet count is a byte, and `0x80 | n` is 128 + n for every count that a
      Go int can give (at most 8). */
  function LengthOctets(l: nat): bytes {
    var n := LengthLen(l) % 256;
    if l < 127 then [l] else [(128 + n) % 256] + BigEndian(l, n)
  }

  function HeaderOctets(tag: byte, l: nat): bytes {
    [tag] + LengthOctets(l)
  }

  /** One type-length-value block. */
  function Block(tag: byte, content: bytes): (s: bytes)
    ensures |s| == 1 + |LengthOctets(|content|)| + |content|
  {
    HeaderOctets(tag, |content|) + content
  }

  /** The octet count is the least that holds the length. */
  lemma {:induction false} LengthLenIsLeast(l: nat, n: nat)
    requires n >= 1
    ensures l < Pow256(n) <==> LengthLen(l) <= n
    decreases n
  {
    Pow256Values();
    if n > 1 {
      if l <= 255 {
        Pow256Monotone(1, n);
      } else {
        LengthLenIsLeast(l / 256, n - 1);
        assert Pow256(n) == 256 * Pow256(n - 1);
      }
    }
  }

  lemma GoLengthsNeedAtMostEightOctets(l: nat)
    requires l <= MAX_INT64
    ensures LengthLen(l) <= 8
  {
    Pow256Values();
    LengthLenIsLeast(l, 8);
  }

  /** The counting loop; it returns a byte. */
  method CalculateLengthLen(length: nat) returns (n: byte)
    ensures n == LengthLen(length) % 256
    ensures length <= MAX_INT64 ==> forall k: nat | k >= 1 :: length < Pow256(k) <==> n <= k
  {
    var l := length;
    var numBytes := 1;
    while l > 255
      invariant numBytes >= 1 && numBytes + LengthLen(l) == LengthLen(length) + 1
    {
      l := l / 256;
      numBytes := numBytes + 1;
    }
    n := numBytes % 256;
    forall k: nat | length <= MAX_INT64 && k >= 1 ensures length < Pow256(k) <==> n <= k {
      GoLengthsNeedAtMostEightOctets(length);
      LengthLenIsLeast(length, k);
    }
  }

  // ---------------------------------------------------------------------------
  // Decoding

  function DecodeLength(rd: Reading, s: bytes): (st: Step<nat>)
    ensures !st.Crash? && |st.rest| <= |s|
  {
    if s == [] then Fail([])
    else if s[0] < (if rd.AsWritten? then 127 else 128) then Done(s[0], s[1..])
    else
      var count := if rd.AsWritten? then s[0] else s[0] - 128;
      if |s| - 1 < count then Fail([])
      else
        var length := ShiftIn(0, s[1..1 + count]);
        if length < 0 then Fail(s[1 + count..]) else Done(length, s[1 + count..])
  }

  function DecodeHeader(rd: Reading, s: bytes): (st: Step<Header>)
    ensures !st.Crash? && |st.rest| <= |s|
    ensures st.Done? ==> |st.rest| < |s| && st.value.length <= |st.rest|
  {
    if s == [] then Fail([])
    else
      match DecodeLength(rd, s[1..])
      case Fail(r) => Fail(r)
      case Done(n, r) => if n > |r| then Fail(r) else Done(Header(s[0], n), r)
  }

  /** The lengths that come back from the encoder's octets. */
  predicate LengthReadable(rd: Reading, l: nat) {
    match rd
    case AsWritten => l < 127
    case PerStandard => l <= MAX_INT64
  }

  lemma LongFormValue(l: nat)
    requires l <= MAX_INT64
    ensures ShiftIn(0, BigEndian(l, LengthLen(l))) == l
  {
    hide ShiftIn, FromBytes, BigEndian, LengthLen;
    var n := LengthLen(l);
    LengthLenIsLeast(l, n);
    FromBigEndian(0, l, n);
    ModUnique(l, Pow256(n), 0, l);
    ShiftInWraps(0, BigEndian(l, n));
  }

  lemma LengthRoundTrip(rd: Reading, l: nat, tail: bytes)
    requires LengthReadable(rd, l)
    ensures DecodeLength(rd, LengthOctets(l) + tail) == Done(l, tail)
  {
    hide LengthLen, BigEndian, ShiftIn;
    var n := LengthLen(l);
    var octets := BigEndian(l, n);
    var s := LengthOctets(l) + tail;
    if l < 127 {
      assert s[1..] == tail;
    } else {
      GoLengthsNeedAtMostEightOctets(l);
      LongFormValue(l);
      assert s == [128 + n] + octets + tail;
      assert s[1..1 + n] == octets && s[1 + n..] == tail;
    }
  }

  lemma HeaderRoundTrip(rd: Reading, tag: byte, content: bytes, rest: bytes)
    requires LengthReadable(rd, |content|)
    ensures DecodeHeader(rd, Block(tag, content) + rest) == Done(Header(tag, |content|), content + rest)
  {
    hide LengthOctets, DecodeLength;
    var s := Block(tag, content) + rest;
    assert s[1..] == LengthOctets(|content|) + (content + rest);
    LengthRoundTrip(rd, |content|, content + rest);
  }

  /** What an accepted header costs: two octets for a length below 127, else far more than the
      encoder ever spends. */
  lemma HeaderCost(s: bytes)
    ensures var st := DecodeHeader(AsWritten, s);
            && !st.Crash?
            && |st.rest| <= |s|
            && st.rest == s[|s| - |st.rest|..]
            && (st.Done? ==> st.value.length <= |st.rest| && st.value.length <= MAX_INT64)
            && (st.Done? ==> |s| - |st.rest| >= 129 || (|s| - |st.rest| == 2 && st.value.length < 127))
  {
  }

  /** As written, a header comes back exactly when its length is below 127. */
  lemma HeaderReadBackExactly(tag: byte, content: bytes, rest: bytes)
    requires |content| <= MAX_INT64
    ensures DecodeHeader(AsWritten, Block(tag, content) + rest) == Done(Header(tag, |content|), content + rest)
            <==> |content| < 127
  {
    if |content| < 127 {
      HeaderRoundTrip(AsWritten, tag, content, rest);
    } else {
      LongFormIsOverread(tag, content, rest);
    }
  }

  /** From 127 octets on the whole first length octet is taken as the count, so an accepted header has
      eaten 128 octets of content. */
  lemma LongFormIsOverread(tag: byte, content: bytes, rest: bytes)
    requires 127 <= |content| <= MAX_INT64
    ensures var st := DecodeHeader(AsWritten, Block(tag, content) + rest);
            st.Done? ==> |st.rest| + 128 == |content| + |rest|
  {
    hide ShiftIn, LengthLen, BigEndian;
    GoLengthsNeedAtMostEightOctets(|content|);
    var s := Block(tag, content) + rest;
    var n := LengthLen(|content|);
    assert s[1..][0] == 128 + n;
    assert |s| == 2 + n + |content| + |rest|;
  }
}
