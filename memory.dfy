/**
  The address space of the process as the library sees it: the bytes at the
  mapped addresses, and the protection VirtualQuery reports for each address
  (absent when the query fails). IsMemoryValid and IsMemoryExecutable are the
  two queries the readers and the patching code ask of it.
 */
module Memory {
  import opened Words
  import opened PageProtection

  datatype Memory = Memory(bytes: map<Addr, byte>, protect: map<Addr, u32>)

  /** The n bytes at p are mapped. A range that would run past the top of the
      address space is never mapped. */
  predicate Mapped(m: Memory, p: Addr, n: nat)
  {
    p + n <= TWO_64 && forall a | p <= a < p + n :: a in m.bytes
  }

  /** The n bytes at p, in address order. */
  function Load(m: Memory, p: Addr, n: nat): (bs: seq<byte>)
    requires Mapped(m, p, n)
    ensures |bs| == n
    ensures forall i | 0 <= i < n :: bs[i] == m.bytes[p + i]
  {
    seq(n, i requires 0 <= i < n && Mapped(m, p, n) => m.bytes[p + i])
  }

  /** The little-endian unsigned value of the n bytes at p. */
  function LoadLE(m: Memory, p: Addr, n: nat): (v: nat)
    requires Mapped(m, p, n)
    ensures v < Pow256(n)
  {
    DecodeLE(Load(m, p, n))
  }

  /** Memory after writing bs at p, one byte after another; protections do
      not change, and no address outside the written range changes. */
  function Store(m: Memory, p: Addr, bs: seq<byte>): (m': Memory)
    requires p + |bs| <= TWO_64
    ensures forall a | a in m'.bytes :: a in m.bytes || p <= a < p + |bs|
    ensures forall a | a in m.bytes :: a in m'.bytes
    ensures forall a | a in m.bytes && !(p <= a < p + |bs|) :: m'.bytes[a] == m.bytes[a]
    ensures m'.protect == m.protect
    decreases |bs|
  {
    if bs == [] then m
    else Store(Memory(m.bytes[p := bs[0]], m.protect), Wrap64(p + 1), bs[1..])
  }

  /** The i-th byte stored is at p + i afterwards. */
  lemma {:induction false} StoreWrites(m: Memory, p: Addr, bs: seq<byte>, i: nat)
    requires p + |bs| <= TWO_64 && i < |bs|
    ensures p + i in Store(m, p, bs).bytes && Store(m, p, bs).bytes[p + i] == bs[i]
    decreases |bs|
  {
    var next := Wrap64(p + 1);
    var m1 := Memory(m.bytes[p := bs[0]], m.protect);
    var m' := Store(m1, next, bs[1..]);
    assert Store(m, p, bs) == m';
    if i == 0 {
      assert p in m1.bytes && m1.bytes[p] == bs[0];
      assert !(next <= p < next + |bs[1..]|);
    } else {
      StoreWrites(m1, next, bs[1..], i - 1);
      assert next == p + 1 && bs[1..][i - 1] == bs[i];
    }
  }

  /** The bytes stored at p are the bytes loaded back from p. */
  lemma LoadAfterStore(m: Memory, p: Addr, bs: seq<byte>)
    requires p + |bs| <= TWO_64
    ensures Mapped(Store(m, p, bs), p, |bs|) && Load(Store(m, p, bs), p, |bs|) == bs
  {
    var m' := Store(m, p, bs);
    forall i | 0 <= i < |bs|
      ensures p + i in m'.bytes && m'.bytes[p + i] == bs[i]
    {
      StoreWrites(m, p, bs, i);
    }
    assert forall a | p <= a < p + |bs| :: a in m'.bytes by {
      forall a | p <= a < p + |bs|
        ensures a in m'.bytes
      {
        StoreWrites(m, p, bs, a - p);
      }
    }
  }

  /** IsMemoryValid(addr, offset): the address addr + offset is not null, the
      protection query succeeds, and the protection is neither 0 nor NOACCESS. */
  predicate IsMemoryValid(m: Memory, addr: Addr, offset: int)
    ensures Wrap64(addr + offset) == 0 ==> !IsMemoryValid(m, addr, offset)
    ensures IsMemoryValid(m, addr, offset) ==> Wrap64(addr + offset) in m.protect
  {
    var p := Wrap64(addr + offset);
    p != 0 && p in m.protect && m.protect[p] != 0 && m.protect[p] != PAGE_NOACCESS
  }

  /** IsMemoryExecutable(addr, offset): as IsMemoryValid, and the protection is
      one of the four executable ones. */
  predicate IsMemoryExecutable(m: Memory, addr: Addr, offset: int)
    ensures IsMemoryExecutable(m, addr, offset) ==> IsMemoryValid(m, addr, offset)
    ensures IsMemoryExecutable(m, addr, offset) ==>
      m.protect[Wrap64(addr + offset)] !in {0, PAGE_NOACCESS, PAGE_READONLY, PAGE_READWRITE}
  {
    var p := Wrap64(addr + offset);
    && IsMemoryValid(m, addr, offset)
    && m.protect[p] in {PAGE_EXECUTE, PAGE_EXECUTE_READ, PAGE_EXECUTE_READWRITE, PAGE_EXECUTE_WRITECOPY}
  }

  /** An executable address is a valid one, and the null address is neither. */
  lemma ExecutableIsValid(m: Memory, addr: Addr, offset: int)
    ensures IsMemoryExecutable(m, addr, offset) ==> IsMemoryValid(m, addr, offset)
    ensures Wrap64(addr + offset) == 0 ==> !IsMemoryValid(m, addr, offset)
  {
  }

  /** Writing a value and loading it back gives the value. */
  lemma StoreLoadLE(m: Memory, p: Addr, v: nat, n: nat)
    requires v < Pow256(n) && p + n <= TWO_64
    ensures Mapped(Store(m, p, EncodeLE(v, n)), p, n)
    ensures LoadLE(Store(m, p, EncodeLE(v, n)), p, n) == v
  {
    LoadAfterStore(m, p, EncodeLE(v, n));
    DecodeEncode(v, n);
  }
}
