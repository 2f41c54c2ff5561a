/**
 The encoder: a chain of buffers from a shared, recycling pool, with headers that are filled in
 after their content (encoder.go, bufferPool.go and the encodeX functions of the value files).
 */
module Encoders {
  import opened GoTypes
  import opened Integers
  import opened Headers
  import opened ObjectIdentifiers
  import opened Messages

  /** A bytes.Buffer: the octets written to it and not yet read. The ghost fields say who holds it,
      and where in that encoder's chain; nobody holds a pooled or discarded buffer. */
  class Buffer {
    var data: bytes
    ghost var holder: BerEncoder?
    ghost var slot: nat

    constructor ()
      ensures data == [] && holder == null
    {
      data := [];
      holder := null;
      slot := 0;
    }

    method WriteByte(b: byte)
      modifies this`data
      ensures data == old(data) + [b]
    {
      data := data + [b];
    }

    method Write(s: bytes)
      modifies this`data
      ensures data == old(data) + s
    {
      data := data + s;
    }

    /** The length octets of setContentLength. */
    method WriteLength(contentLength: nat)
      modifies this`data
      ensures data == old(data) + LengthOctets(contentLength)
    {
      hide LengthLen, BigEndian;
      if contentLength < 127 {
        WriteByte(contentLength);
      } else {
        var n := CalculateLengthLen(contentLength);
        WriteByte((128 + (n as int)) % 256);
        WriteBigEndian(contentLength, n);
      }
    }

    /** Writes the octets `val >> (8 * (n - 1))`, ..., `val >> 8`, `val`. */
    method WriteBigEndian(val: int, n: nat)
      modifies this`data
      ensures data == old(data) + BigEndian(val, n)
    {
      var i := n;
      while i > 0
        invariant 0 <= i <= n
        invariant data + BigEndian(val, i) == old(data) + BigEndian(val, n)
      {
        ghost var before := data;
        WriteByte((val / Pow256(i - 1)) % 256);
        assert before + BigEndian(val, i) == data + BigEndian(val, i - 1);
        i := i - 1;
      }
    }

    method Encode2sComplementInt(val: int64)
      modifies this`data
      ensures data == old(data) + IntBytes(val)
    {
      var numBytesToWrite := Calculate2sComplementIntLen(val);
      WriteBigEndian(val, numBytesToWrite);
    }

    /** Returns the number of octets written. */
    method EncodeBase128Int(val: nat) returns (numBytes: nat)
      modifies this`data
      ensures data == old(data) + Base128(val) && numBytes == |Base128(val)|
    {
      if val == 0 {
        WriteByte(0);
        return 1;
      }
      numBytes := CalculateBase128IntLen(val);
      var i := numBytes - 1;
      while i >= 0
        invariant -1 <= i < numBytes
        invariant data + Groups(val, i + 1) == old(data) + Groups(val, numBytes)
      {
        ghost var before := data;
        var byteToWrite := (val / Pow128(i)) % 128;
        if i != 0 { byteToWrite := byteToWrite + 128; }
        WriteByte(byteToWrite);
        assert before + Groups(val, i + 1) == data + Groups(val, i);
        i := i - 1;
      }
    }

    /** The content octets of an object identifier. */
    method WriteOid(oid: Oid)
      requires OidEncodable(oid)
      modifies this`data
      ensures data == old(data) + OidContent(oid)
    {
      hide Base128;
      WriteByte(((oid[0] as int) * 40 + oid[1]) % 256);
      for i := 2 to |oid|
        invariant data + Arcs(oid[i..]) == old(data) + OidContent(oid)
      {
        ghost var before := data;
        assert oid[i..][1..] == oid[i + 1..];
        assert Arcs(oid[i..]) == Base128(oid[i]) + Arcs(oid[i + 1..]);
        var _ := EncodeBase128Int(oid[i]);
        assert before + Arcs(oid[i..]) == data + Arcs(oid[i + 1..]);
      }
    }
  }

  class BufferPool {
    var freeList: seq<Buffer>
    const capacity: nat
    ghost var encoders: set<BerEncoder>
    ghost var buffers: set<Buffer>

    /** The pool is sound for the encoders `es`: what is free is empty, held by nobody and listed
        once, and each of the encoders holds every buffer of its chain, each in its own slot. */
    ghost predicate ValidFor(es: set<BerEncoder>)
      reads this, es, buffers
    {
      && |freeList| <= capacity
      && (forall i, j | 0 <= i < j < |freeList| :: freeList[i] != freeList[j])
      && (forall b | b in freeList :: b in buffers && b.data == [] && b.holder == null)
      && (forall e | e in es :: e.bufPool == this)
      && (forall e, i | e in es && 0 <= i < |e.bufChain| ::
            e.bufChain[i] in buffers && e.bufChain[i].holder == e && e.bufChain[i].slot == i)
    }

    ghost predicate Valid()
      reads this, encoders, buffers
    {
      ValidFor(encoders)
    }

    constructor (n: nat)
      ensures Valid() && freeList == [] && capacity == n && encoders == {} && buffers == {}
    {
      freeList := [];
      capacity := n;
      encoders := {};
      buffers := {};
    }

    /** Takes the oldest free buffer, or makes a new one. */
    method GetBuffer() returns (buf: Buffer)
      requires Valid()
      modifies this`freeList, this`buffers
      ensures Valid()
      ensures buf.data == [] && buf.holder == null && buf !in freeList
      ensures buffers == old(buffers) + {buf}
      ensures if old(freeList) == [] then fresh(buf) && freeList == []
              else buf == old(freeList)[0] && freeList == old(freeList)[1..] && buf in old(buffers)
    {
      if freeList != [] {
        buf := freeList[0];
        freeList := freeList[1..];
      } else {
        buf := new Buffer();
        buffers := buffers + {buf};
      }
    }

    /** Empties the buffer and keeps it if there is room. */
    method PutBuffer(buf: Buffer, ghost es: set<BerEncoder>)
      requires ValidFor(es) && buf in buffers && buf !in freeList && (buf.holder == null || buf.holder !in es)
      modifies this`freeList, buf
      ensures ValidFor(es)
      ensures buf.data == [] && buf.holder == null
      ensures freeList == if |old(freeList)| < capacity then old(freeList) + [buf] else old(freeList)
    {
      buf.data := [];
      buf.holder := null;
      if |freeList| < capacity {
        freeList := freeList + [buf];
      }
    }
  }

  /** Live chains never share a buffer, with each other or with the free list, and no chain holds a
      buffer twice. */
  lemma ChainsAreDisjoint(pool: BufferPool, e: BerEncoder, e': BerEncoder)
    requires pool.Valid() && e in pool.encoders && e' in pool.encoders
    ensures forall i, j | 0 <= i < |e.bufChain| && 0 <= j < |e'.bufChain| :: e.bufChain[i] == e'.bufChain[j] ==> e == e' && i == j
    ensures forall b | b in e.bufChain :: b !in pool.freeList
  {
  }

  /** The serialized form of a chain of buffers. */
  function Concat(d: seq<bytes>): bytes {
    if d == [] then [] else d[0] + Concat(d[1..])
  }

  lemma {:induction false} ConcatAppend(a: seq<bytes>, b: seq<bytes>)
    ensures Concat(a + b) == Concat(a) + Concat(b)
    decreases |a|
  {
    if a == [] {
      assert a + b == b;
    } else {
      ConcatAppend(a[1..], b);
      assert (a + b)[1..] == a[1..] + b;
    }
  }

  lemma ConcatPair(x: bytes, y: bytes)
    ensures Concat([x]) == x && Concat([x, y]) == x + y
  {
    assert [x][1..] == [] && [x, y][1..] == [y] && [y][1..] == [];
    assert Concat([y]) == y;
  }

  /** Filling in a content buffer and then the header before it. */
  lemma HeaderAndContent(d: seq<bytes>, tag: byte, c: bytes)
    ensures var filled := (d + [[tag]] + [[]])[|d| + 1 := c][|d| := HeaderOctets(tag, |c|)];
            filled[..|d|] == d && Concat(filled[|d|..]) == Block(tag, c)
  {
    hide LengthOctets;
    var filled := (d + [[tag]] + [[]])[|d| + 1 := c][|d| := HeaderOctets(tag, |c|)];
    assert filled[|d|..] == [HeaderOctets(tag, |c|), c];
    ConcatPair(HeaderOctets(tag, |c|), c);
  }

  /** Filling in a header in front of the buffers that were appended after it. */
  lemma HeaderAndBlocks(d: seq<bytes>, tag: byte, full: seq<bytes>, content: bytes)
    requires |full| > |d| && full[..|d| + 1] == d + [[tag]] && Concat(full[|d| + 1..]) == content
    ensures var filled := full[|d| := HeaderOctets(tag, |content|)];
            filled[..|d|] == d && Concat(filled[|d|..]) == Block(tag, content)
  {
    hide LengthOctets;
    var h := HeaderOctets(tag, |content|);
    var filled := full[|d| := h];
    assert filled[..|d|] == full[..|d| + 1][..|d|] == d;
    assert filled[|d|..] == [h] + full[|d| + 1..];
    ConcatAppend([h], full[|d| + 1..]);
    ConcatPair(h, []);
  }

  /** Appending twice. */
  lemma Joined(d0: seq<bytes>, d1: seq<bytes>, d2: seq<bytes>)
    requires |d0| <= |d1| <= |d2| && d1[..|d0|] == d0 && d2[..|d1|] == d1
    ensures d2[..|d0|] == d0
    ensures Concat(d2[|d0|..]) == Concat(d1[|d0|..]) + Concat(d2[|d1|..])
  {
    assert d2[..|d0|] == d2[..|d1|][..|d0|];
    assert d2[|d0|..] == d1[|d0|..] + d2[|d1|..];
    ConcatAppend(d1[|d0|..], d2[|d1|..]);
  }

  function Prepend(b: bytes, o: Outcome<bytes>): Outcome<bytes> {
    if o.Ok? then Ok(b + o.value) else o
  }

  lemma PrependNext(b: bytes, vbs: seq<Varbind>)
    requires vbs != []
    ensures var first := Messages.EncodeVarbind(vbs[0]);
            Prepend(b, EncodeVarbinds(vbs))
            == if first.Ok? then Prepend(b + first.value, EncodeVarbinds(vbs[1..])) else first
  {
    hide Messages.EncodeVarbind;
    var first, more := Messages.EncodeVarbind(vbs[0]), EncodeVarbinds(vbs[1..]);
    if first.Ok? && more.Ok? {
      assert b + (first.value + more.value) == (b + first.value) + more.value;
    }
  }

  lemma NothingYet(vbs: seq<Varbind>, d: seq<bytes>)
    requires d == []
    ensures EncodeVarbinds(vbs) == Prepend([], EncodeVarbinds(vbs[0..])) && Concat(d) == []
  {
    hide EncodeVarbinds;
    assert vbs[0..] == vbs;
    var o := EncodeVarbinds(vbs);
    if o.Ok? { assert [] + o.value == o.value; }
  }

  function ListBlock(vbs: seq<Varbind>): Outcome<bytes> {
    var list := EncodeVarbinds(vbs);
    if list.Ok? then Ok(Block(SEQUENCE, list.value)) else list
  }

  function ControlFields(m: Message): bytes {
    Messages.EncodeInteger(m.requestId) + Messages.EncodeInteger(m.errorVal) + Messages.EncodeInteger(m.errorIdx)
  }

  function HeaderFields(m: Message): bytes {
    Messages.EncodeInteger(m.version) + Block(OCTET_STRING, m.community)
  }

  function PduBlock(m: Message): Outcome<bytes> {
    var list := ListBlock(m.varbinds);
    if list.Ok? then Ok(Block(m.pduType, ControlFields(m) + list.value)) else list
  }

  lemma MessageIsItsParts(m: Message)
    ensures Messages.EncodeMessage(m)
            == if PduBlock(m).Ok? then Ok(Block(SEQUENCE, HeaderFields(m) + PduBlock(m).value)) else PduBlock(m)
  {
    hide Messages.EncodeInteger, Block, EncodeVarbinds;
    var list := EncodeVarbinds(m.varbinds);
    if list.Ok? {
      assert PduContent(m, list.value) == ControlFields(m) + Block(SEQUENCE, list.value);
    }
  }

  class BerEncoder {
    var bufChain: seq<Buffer>
    const bufPool: BufferPool

    /** The octets in each buffer of the chain. */
    ghost function Data(): (d: seq<bytes>)
      reads this, bufChain
      ensures |d| == |bufChain|
      ensures forall i | 0 <= i < |d| :: d[i] == bufChain[i].data
    {
      seq(|bufChain|, i requires 0 <= i < |bufChain| reads this, bufChain => bufChain[i].data)
    }

    ghost predicate Ready()
      reads this, bufPool, bufPool.encoders, bufPool.buffers
    {
      this in bufPool.encoders && bufPool.Valid()
    }

    /** What the pool's other encoders hold: their chains and the octets in them. */
    ghost function Others(): map<BerEncoder, (seq<Buffer>, seq<bytes>)>
      requires Ready()
      reads this, bufPool, bufPool.encoders, bufPool.buffers
    {
      map e | e in bufPool.encoders && e != this :: (e.bufChain, e.Data())
    }

    /** No other encoder of the pool noticed anything, and every buffer that joined the pool is new. */
    twostate predicate OthersUntouched()
      requires Ready() && old(Ready())
      reads this, bufPool, bufPool.encoders, bufPool.buffers
    {
      && Others() == old(Others())
      && bufPool.encoders == old(bufPool.encoders)
      && old(bufPool.buffers) <= bufPool.buffers && fresh(bufPool.buffers - old(bufPool.buffers))
    }

    /** The chain grew at its end and the buffers it had hold what they held. */
    twostate predicate Grown()
      requires old(Ready())
      reads this, bufPool, bufPool.encoders, bufPool.buffers
    {
      && Ready() && OthersUntouched()
      && |old(bufChain)| <= |bufChain| && bufChain[..|old(bufChain)|] == old(bufChain)
      && Data()[..|old(bufChain)|] == old(Data())
    }

    constructor (pool: BufferPool)
      requires pool.Valid()
      modifies pool`encoders
      ensures bufPool == pool && bufChain == [] && Ready()
      ensures pool.encoders == old(pool.encoders) + {this}
    {
      bufChain := [];
      bufPool := pool;
      new;
      pool.encoders := pool.encoders + {this};
    }

    lemma HoldsPooledBuffers()
      requires Ready()
      ensures forall i | 0 <= i < |bufChain| :: bufChain[i] in bufPool.buffers
    {
    }

    twostate lemma OthersKept()
      requires old(Ready()) && Ready() && OthersUntouched()
      ensures forall e | e in bufPool.encoders && e != this :: e.bufChain == old(e.bufChain) && e.Data() == old(e.Data())
    {
      forall e | e in bufPool.encoders && e != this ensures e.bufChain == old(e.bufChain) && e.Data() == old(e.Data()) {
        assert Others()[e] == old(Others()[e]);
      }
    }

    /** Writing into one buffer of the chain changes that buffer's octets and nothing else. */
    twostate lemma Rewritten(k: nat)
      requires old(Ready()) && bufChain == old(bufChain) && k < |bufChain|
      requires unchanged(bufPool) && (forall e | e in bufPool.encoders :: unchanged(e))
      requires forall b | b in bufPool.buffers && b != bufChain[k] :: unchanged(b)
      requires bufChain[k].holder == old(bufChain[k].holder) && bufChain[k].slot == old(bufChain[k].slot)
      ensures Ready() && OthersUntouched()
      ensures Data() == old(Data())[k := bufChain[k].data]
    {
      var b := bufChain[k];
      assert b in bufPool.buffers && b !in bufPool.freeList;
      forall e | e in bufPool.encoders && e != this ensures e.bufChain == old(e.bufChain) && e.Data() == old(e.Data()) {
        forall i | 0 <= i < |e.bufChain| ensures e.bufChain[i].data == old(e.bufChain[i].data) {
          assert old(e.bufChain[i].holder) == e;
        }
      }
      forall i | 0 <= i < |bufChain| && i != k ensures bufChain[i] != b && bufChain[i].data == old(bufChain[i].data) {
        assert old(bufChain[i].slot) == i;
      }
    }

    method Append() returns (buf: Buffer)
      requires Ready()
      modifies this, bufPool, bufPool.buffers
      ensures Grown()
      ensures bufChain == old(bufChain) + [buf] && buf in bufPool.buffers
      ensures Data() == old(Data()) + [[]]
    {
      buf := bufPool.GetBuffer();
      Taken(buf);
      label taken:
      buf.holder := this;
      buf.slot := |bufChain|;
      bufChain := bufChain + [buf];
      Linked@taken(buf);
    }

    /** A buffer taken from the pool is in no chain. */
    twostate lemma Taken(new buf: Buffer)
      requires old(Ready()) && Ready() && buf.holder == null && buf.data == []
      requires unchanged(this) && bufPool.encoders == old(bufPool.encoders)
      requires bufPool.buffers == old(bufPool.buffers) + {buf} && (buf in old(bufPool.buffers) || fresh(buf))
      requires (forall b | b in old(bufPool.buffers) :: unchanged(b)) && (forall e | e in bufPool.encoders :: unchanged(e))
      ensures OthersUntouched() && Data() == old(Data())
      ensures forall e | e in bufPool.encoders :: buf !in e.bufChain
    {
    }

    /** Putting a free buffer at the end of the chain. */
    twostate lemma Linked(buf: Buffer)
      requires old(Ready()) && buf in old(bufPool.buffers) && old(buf.holder) == null && old(buf.data) == []
      requires old(buf !in bufPool.freeList)
      requires unchanged(bufPool) && (forall b | b in bufPool.buffers && b != buf :: unchanged(b))
      requires forall e | e in bufPool.encoders && e != this :: unchanged(e)
      requires bufChain == old(bufChain) + [buf] && buf.data == [] && buf.holder == this && buf.slot == |old(bufChain)|
      ensures Ready() && OthersUntouched()
      ensures Data() == old(Data()) + [[]]
    {
      forall i | 0 <= i < |old(bufChain)| ensures bufChain[i] == old(bufChain[i]) != buf {
        assert old(bufChain[i].holder) == this;
      }
      forall b | b in bufPool.freeList ensures b in bufPool.buffers && b.data == [] && b.holder == null {
        assert b != buf;
      }
      forall e | e in bufPool.encoders && e != this ensures e.Data() == old(e.Data()) {
        forall i | 0 <= i < |e.bufChain| ensures e.bufChain[i] != buf && e.bufChain[i].data == old(e.bufChain[i].data) {
          assert e.bufChain[i] in bufPool.buffers && old(e.bufChain[i].holder) == e;
        }
      }
    }

    method NewHeader(blockType: byte) returns (h: Buffer)
      requires Ready()
      modifies this, bufPool, bufPool.buffers
      ensures Grown()
      ensures bufChain == old(bufChain) + [h] && h in bufPool.buffers
      ensures Data() == old(Data()) + [[blockType]]
    {
      h := Append();
      label appended:
      ghost var n := |old(bufChain)|;
      ghost var d := Data();
      assert bufChain[n] == h && d[n] == h.data && d[n] == [];
      h.WriteByte(blockType);
      assert h.data == [blockType];
      Rewritten@appended(n);
      assert Data() == d[n := [blockType]];
      assert d[n := [blockType]] == old(Data()) + [[blockType]];
    }

    /** Writes the length into a header whose content follows it in the chain. */
    method SetContentLength(h: Buffer, ghost k: nat, contentLength: nat) returns (headerLength: nat, blockLength: nat)
      requires Ready() && k < |bufChain| && bufChain[k] == h && |h.data| == 1
      modifies h`data
      ensures Ready() && OthersUntouched() && bufChain == old(bufChain)
      ensures Data() == old(Data())[k := HeaderOctets(old(h.data)[0], contentLength)]
      ensures headerLength == |HeaderOctets(old(h.data)[0], contentLength)|
      ensures blockLength == headerLength + contentLength
    {
      hide LengthOctets;
      ghost var tag := h.data[0];
      h.WriteLength(contentLength);
      assert h.data == HeaderOctets(tag, contentLength);
      Rewritten(k);
      headerLength := |h.data|;
      blockLength := headerLength + contentLength;
    }

    /** A header and the buffer for its content. */
    method NewBlock(blockType: byte) returns (h: Buffer, buf: Buffer)
      requires Ready()
      modifies this, bufPool, bufPool.buffers
      ensures Grown()
      ensures bufChain == old(bufChain) + [h, buf] && h in bufPool.buffers && buf in bufPool.buffers
      ensures h.data == [blockType] && buf.data == [] && h != buf
      ensures Data() == old(Data()) + [[blockType]] + [[]]
    {
      hide BufferPool.ValidFor, BufferPool.Valid, Others, Data;
      h := NewHeader(blockType);
      buf := Append();
      ghost var n := |old(bufChain)|;
      assert bufChain[n] == h && bufChain[n + 1] == buf;
      assert Data()[n] == [blockType] && Data()[n + 1] == [];
    }

    /** What an encodeX method promises for its reference `reference`: how it ends, the length it
        returns, and the octets it appended. */
    twostate predicate Appended(new o: Outcome<nat>, new reference: Outcome<bytes>)
      requires old(Ready())
      reads this, bufPool, bufPool.encoders, bufPool.buffers
    {
      && Grown()
      && (reference.Ok? ==> o == Ok(|reference.value|) && Concat(Data()[|old(bufChain)|..]) == reference.value)
      && (reference.Err? ==> o == Err)
      && (reference.Panic? ==> o == Panic)
    }

    method EncodeInteger(val: int64) returns (encodedLength: nat)
      requires Ready()
      modifies this, bufPool, bufPool.buffers
      ensures Appended(Ok(encodedLength), Ok(Block(INTEGER, IntBytes(val))))
    {
      hide IntBytes, LengthOctets, PaddingBits, BufferPool.ValidFor, BufferPool.Valid, Others, Data;
      ghost var n, d := |bufChain|, Data();
      var h, buf := NewBlock(INTEGER);
      label appended:
      buf.Encode2sComplementInt(val);
      assert buf.data == IntBytes(val);
      Rewritten@appended(n + 1);
      assert Data() == (d + [[INTEGER]] + [[]])[n + 1 := IntBytes(val)];
      var _, blockLength := SetContentLength(h, n, |buf.data|);
      HeaderAndContent(d, INTEGER, IntBytes(val));
      encodedLength := blockLength;
    }

    method EncodeOctetString(val: bytes) returns (encodedLength: nat)
      requires Ready()
      modifies this, bufPool, bufPool.buffers
      ensures Appended(Ok(encodedLength), Ok(Block(OCTET_STRING, val)))
    {
      hide IntBytes, LengthOctets, PaddingBits, BufferPool.ValidFor, BufferPool.Valid, Others, Data;
      ghost var n, d := |bufChain|, Data();
      var h, buf := NewBlock(OCTET_STRING);
      label appended:
      buf.Write(val);
      assert buf.data == val;
      Rewritten@appended(n + 1);
      assert Data() == (d + [[OCTET_STRING]] + [[]])[n + 1 := val];
      var _, blockLength := SetContentLength(h, n, |buf.data|);
      HeaderAndContent(d, OCTET_STRING, val);
      encodedLength := blockLength;
    }

    method EncodeBitString(val: BitString) returns (encodedLength: nat)
      requires Ready()
      modifies this, bufPool, bufPool.buffers
      ensures Appended(Ok(encodedLength), Ok(Block(BIT_STRING, BitStringContent(val))))
    {
      hide IntBytes, LengthOctets, PaddingBits, BufferPool.ValidFor, BufferPool.Valid, Others, Data;
      ghost var n, d := |bufChain|, Data();
      var h, buf := NewBlock(BIT_STRING);
      label appended:
      var numPaddingBits := PaddingBits(val.bitLength);
      buf.WriteByte(numPaddingBits);
      buf.Write(val.octets);
      assert buf.data == BitStringContent(val);
      Rewritten@appended(n + 1);
      assert Data() == (d + [[BIT_STRING]] + [[]])[n + 1 := BitStringContent(val)];
      var _, blockLength := SetContentLength(h, n, |buf.data|);
      HeaderAndContent(d, BIT_STRING, BitStringContent(val));
      encodedLength := blockLength;
    }

    method EncodeNull(nullType: byte) returns (encodedLength: nat)
      requires Ready()
      modifies this, bufPool, bufPool.buffers
      ensures Appended(Ok(encodedLength), Ok(Block(nullType, [])))
    {
      hide LengthOctets, BufferPool.ValidFor, BufferPool.Valid, Others, Data;
      ghost var n, d := |bufChain|, Data();
      var h := NewHeader(nullType);
      assert bufChain[n] == h && h.data == Data()[n] == [nullType];
      var _, blockLength := SetContentLength(h, n, 0);
      HeaderAndBlocks(d, nullType, d + [[nullType]], []);
      encodedLength := blockLength;
    }

    method EncodeObjectIdentifier(oid: Oid) returns (o: Outcome<nat>)
      requires Ready()
      modifies this, bufPool, bufPool.buffers
      ensures Appended(o, EncodeOid(oid))
    {
      hide LengthOctets, BufferPool.ValidFor, BufferPool.Valid, Others, Data, Arcs;
      if !OidEncodable(oid) {
        return Err;
      }
      ghost var n, d := |bufChain|, Data();
      var h, buf := NewBlock(OBJECT_IDENTIFIER);
      label appended:
      buf.WriteOid(oid);
      assert buf.data == OidContent(oid);
      Rewritten@appended(n + 1);
      assert Data() == (d + [[OBJECT_IDENTIFIER]] + [[]])[n + 1 := OidContent(oid)];
      var _, blockLength := SetContentLength(h, n, |buf.data|);
      HeaderAndContent(d, OBJECT_IDENTIFIER, OidContent(oid));
      o := Ok(blockLength);
    }

    method EncodeIPv4Address(addr: bytes) returns (o: Outcome<nat>)
      requires Ready()
      modifies this, bufPool, bufPool.buffers
      ensures Appended(o, Messages.EncodeValue(IpAddress(addr)))
    {
      hide LengthOctets, BufferPool.ValidFor, BufferPool.Valid, Others, Data;
      if !HasTo4(addr) {
        return Err;
      }
      ghost var n, d := |bufChain|, Data();
      var h, buf := NewBlock(IP_ADDRESS);
      label appended:
      buf.Write(addr);
      assert buf.data == addr;
      Rewritten@appended(n + 1);
      assert Data() == (d + [[IP_ADDRESS]] + [[]])[n + 1 := addr];
      var _, blockLength := SetContentLength(h, n, |buf.data|);
      HeaderAndContent(d, IP_ADDRESS, addr);
      o := Ok(blockLength);
    }

    /** Each varbind kind's encodeValue. A nil bit string is dereferenced after its block was begun. */
    method EncodeValue(v: Value) returns (o: Outcome<nat>)
      requires Ready()
      modifies this, bufPool, bufPool.buffers
      ensures Appended(o, Messages.EncodeValue(v))
    {
      hide LengthOctets, IntBytes, BitStringContent, OidContent, Concat, BufferPool.ValidFor, BufferPool.Valid, Others, Data;
      match v
      case Integer(i) =>
        var l := EncodeInteger(i);
        o := Ok(l);
      case Bits(b) =>
        var l := EncodeBitString(b);
        o := Ok(l);
      case NilBits =>
        var _, _ := NewBlock(BIT_STRING);
        o := Panic;
      case Octets(s) =>
        var l := EncodeOctetString(s);
        o := Ok(l);
      case ObjectId(id) =>
        o := EncodeObjectIdentifier(id);
      case IpAddress(ip) =>
        o := EncodeIPv4Address(ip);
      case _ =>
        var nullType := if v.Null? then NULL else if v.NoSuchObject? then NO_SUCH_OBJECT
                        else if v.NoSuchInstance? then NO_SUCH_INSTANCE else END_OF_MIB_VIEW;
        var l := EncodeNull(nullType);
        o := Ok(l);
    }

    /** The header comes first in the chain and is completed last. */
    method EncodeVarbind(vb: Varbind) returns (o: Outcome<nat>)
      requires Ready()
      modifies this, bufPool, bufPool.buffers
      ensures Appended(o, Messages.EncodeVarbind(vb))
    {
      hide LengthOctets, EncodeOid, Messages.EncodeValue, Concat, BufferPool.ValidFor, BufferPool.Valid, Others, Data;
      ghost var n, d := |bufChain|, Data();
      var header := NewHeader(SEQUENCE);
      var oidLen := EncodeObjectIdentifier(vb.oid);
      if !oidLen.Ok? {
        return oidLen;
      }
      ghost var withName := Data();
      var valLen := EncodeValue(vb.value);
      if !valLen.Ok? {
        return valLen;
      }
      ghost var full := Data();
      Joined(d + [[SEQUENCE]], withName, full);
      assert bufChain[n] == header && full[n] == full[..n + 1][n] == [SEQUENCE];
      var _, marshalledLen := SetContentLength(header, n, oidLen.value + valLen.value);
      HeaderAndBlocks(d, SEQUENCE, full, EncodeOid(vb.oid).value + Messages.EncodeValue(vb.value).value);
      o := Ok(marshalledLen);
    }

    /** The varbind list of a message: its header, the loop over the varbinds, its length. */
    method EncodeVarbindList(vbs: seq<Varbind>) returns (o: Outcome<nat>)
      requires Ready()
      modifies this, bufPool, bufPool.buffers
      ensures Appended(o, ListBlock(vbs))
    {
      hide LengthOctets, Messages.EncodeVarbind, Concat, BufferPool.ValidFor, BufferPool.Valid, Others, Data;
      ghost var n, d := |bufChain|, Data();
      var listHeader := NewHeader(SEQUENCE);
      var listLen := 0;
      ghost var done: bytes := [];
      NothingYet(vbs, Data()[n + 1..]);
      for i := 0 to |vbs|
        invariant Grown() && |bufChain| > n && bufChain[n] == listHeader && Data()[..n + 1] == d + [[SEQUENCE]]
        invariant Concat(Data()[n + 1..]) == done && listLen == |done|
        invariant EncodeVarbinds(vbs) == Prepend(done, EncodeVarbinds(vbs[i..]))
      {
        ghost var before := Data();
        var encodedLen := EncodeVarbind(vbs[i]);
        PrependNext(done, vbs[i..]);
        assert vbs[i..][1..] == vbs[i + 1..];
        if !encodedLen.Ok? {
          return encodedLen;
        }
        listLen := listLen + encodedLen.value;
        done := done + Concat(Data()[|before|..]);
        Joined(d + [[SEQUENCE]], before, Data());
      }
      assert done + [] == done;
      ghost var full := Data();
      assert full[n] == full[..n + 1][n] == [SEQUENCE];
      var _, blockLength := SetContentLength(listHeader, n, listLen);
      HeaderAndBlocks(d, SEQUENCE, full, done);
      o := Ok(blockLength);
    }

    method EncodeControlFields(m: Message) returns (encodedLength: nat)
      requires Ready()
      modifies this, bufPool, bufPool.buffers
      ensures Appended(Ok(encodedLength), Ok(ControlFields(m)))
    {
      hide IntBytes, Block, Concat, BufferPool.ValidFor, BufferPool.Valid, Others, Data;
      ghost var d := Data();
      var idLen := EncodeInteger(m.requestId);
      ghost var d1 := Data();
      var errorLen := EncodeInteger(m.errorVal);
      ghost var d2 := Data();
      var indexLen := EncodeInteger(m.errorIdx);
      Joined(d, d1, d2);
      Joined(d, d2, Data());
      encodedLength := idLen + errorLen + indexLen;
    }

    method EncodeHeaderFields(m: Message) returns (encodedLength: nat)
      requires Ready()
      modifies this, bufPool, bufPool.buffers
      ensures Appended(Ok(encodedLength), Ok(HeaderFields(m)))
    {
      hide IntBytes, Block, Concat, BufferPool.ValidFor, BufferPool.Valid, Others, Data;
      ghost var d := Data();
      var versionLen := EncodeInteger(m.version);
      ghost var d1 := Data();
      var communityLen := EncodeOctetString(m.community);
      Joined(d, d1, Data());
      encodedLength := versionLen + communityLen;
    }

    /** The PDU: its header, three integers, the varbind list; then its length. */
    method EncodePdu(m: Message) returns (o: Outcome<nat>)
      requires Ready()
      modifies this, bufPool, bufPool.buffers
      ensures Appended(o, PduBlock(m))
    {
      hide Block, LengthOctets, EncodeVarbinds, ControlFields, Concat, BufferPool.ValidFor, BufferPool.Valid, Others, Data;
      ghost var n, d := |bufChain|, Data();
      var pduHeader := NewHeader(m.pduType);
      var pduControlFieldsLen := EncodeControlFields(m);
      ghost var withFields := Data();
      var varbindsListLen := EncodeVarbindList(m.varbinds);
      if !varbindsListLen.Ok? {
        return varbindsListLen;
      }
      ghost var full := Data();
      Joined(d + [[m.pduType]], withFields, full);
      assert bufChain[n] == pduHeader && full[n] == full[..n + 1][n] == [m.pduType];
      var _, pduLen := SetContentLength(pduHeader, n, pduControlFieldsLen + varbindsListLen.value);
      HeaderAndBlocks(d, m.pduType, full, ControlFields(m) + Block(SEQUENCE, EncodeVarbinds(m.varbinds).value));
      o := Ok(pduLen);
    }

    /** The message: its header, version and community, the PDU; then its length. */
    method EncodeFields(m: Message) returns (o: Outcome<nat>)
      requires Ready()
      modifies this, bufPool, bufPool.buffers
      ensures Appended(o, Messages.EncodeMessage(m))
    {
      hide Block, LengthOctets, PduBlock, HeaderFields, Messages.EncodeMessage, Concat, BufferPool.ValidFor, BufferPool.Valid, Others, Data;
      ghost var n, d := |bufChain|, Data();
      var msgHeader := NewHeader(SEQUENCE);
      var headerFieldsLen := EncodeHeaderFields(m);
      ghost var withFields := Data();
      var pduLen := EncodePdu(m);
      MessageIsItsParts(m);
      if !pduLen.Ok? {
        return pduLen;
      }
      ghost var full := Data();
      Joined(d + [[SEQUENCE]], withFields, full);
      assert bufChain[n] == msgHeader && full[n] == full[..n + 1][n] == [SEQUENCE];
      var _, msgLen := SetContentLength(msgHeader, n, headerFieldsLen + pduLen.value);
      HeaderAndBlocks(d, SEQUENCE, full, HeaderFields(m) + PduBlock(m).value);
      o := Ok(msgLen);
    }

    /** Drains the buffers of the chain, in order, into one message. */
    method Serialize() returns (msg: bytes)
      requires Ready()
      modifies bufPool.buffers
      ensures Ready() && OthersUntouched() && bufChain == old(bufChain)
      ensures msg == Concat(old(Data()))
    {
      hide BufferPool.ValidFor, BufferPool.Valid, Others, Data;
      ghost var d := Data();
      msg := [];
      for k := 0 to |bufChain|
        invariant Ready() && OthersUntouched() && bufChain == old(bufChain)
        invariant |d| == |bufChain| && Data()[k..] == d[k..]
        invariant msg + Concat(d[k..]) == Concat(d)
      {
        label before:
        HoldsPooledBuffers();
        assert bufChain[k].data == Data()[k] == Data()[k..][0] == d[k];
        msg := msg + bufChain[k].data;
        bufChain[k].data := [];
        Rewritten@before(k);
        assert d[k..] == [d[k]] + d[k + 1..];
        ConcatAppend([d[k]], d[k + 1..]);
        ConcatPair(d[k], []);
      }
    }

    /** Gives every buffer back, as many as the pool has room for, and forgets the chain. */
    method Destroy()
      requires Ready()
      modifies this, bufPool, bufPool.buffers
      ensures bufChain == [] && bufPool.Valid()
      ensures bufPool.encoders == old(bufPool.encoders) - {this} && bufPool.buffers == old(bufPool.buffers)
      ensures forall e | e in bufPool.encoders :: e.bufChain == old(e.bufChain) && e.Data() == old(e.Data())
      ensures var room := bufPool.capacity - |old(bufPool.freeList)|;
              bufPool.freeList == old(bufPool.freeList)
                + old(bufChain)[..if room < |old(bufChain)| then room else |old(bufChain)|]
    {
      ghost var rest := bufPool.encoders - {this};
      ghost var room := bufPool.capacity - |bufPool.freeList|;
      for i := 0 to |bufChain|
        invariant bufChain == old(bufChain) && bufPool.encoders == old(bufPool.encoders)
        invariant bufPool.buffers == old(bufPool.buffers) && bufPool.ValidFor(rest)
        invariant forall j | i <= j < |bufChain| :: bufChain[j] in bufPool.buffers && bufChain[j].holder == this && bufChain[j].slot == j
        invariant forall e | e in rest :: e.bufChain == old(e.bufChain) && e.Data() == old(e.Data())
        invariant bufPool.freeList == old(bufPool.freeList) + bufChain[..if room < i then room else i]
      {
        bufPool.PutBuffer(bufChain[i], rest);
      }
      bufChain := [];
      bufPool.encoders := rest;
    }
  }

  /** communityRequestResponse.encode: a new encoder on the shared pool, destroyed however it ends. */
  method EncodeMessage(pool: BufferPool, m: Message) returns (o: Outcome<bytes>)
    requires pool.Valid()
    modifies pool, pool.buffers
    ensures o == Messages.EncodeMessage(m)
    ensures pool.Valid() && pool.encoders == old(pool.encoders)
    ensures old(pool.buffers) <= pool.buffers && fresh(pool.buffers - old(pool.buffers))
    ensures forall e | e in pool.encoders :: e.bufChain == old(e.bufChain) && e.Data() == old(e.Data())
  {
    hide BufferPool.ValidFor, BufferPool.Valid, BerEncoder.Data, BerEncoder.Others, Messages.EncodeMessage, Concat;
    var encoder := new BerEncoder(pool);
    label created:
    var encoded := encoder.EncodeFields(m);
    if encoded.Ok? {
      var msg := encoder.Serialize();
      o := Ok(msg);
    } else {
      o := if encoded.Err? then Err else Panic;
    }
    encoder.OthersKept@created();
    encoder.Destroy();
  }
}
