/**
  MemCompare, MemCopy, MemMove and MemFill. Both blocks of a copy live in the
  one address space, modelled as one array indexed by address, so that
  overlapping blocks behave as they do in the byte-by-byte loops.
 */
module MemoryBlocks {
  import opened Words

  /** Where a comparison of the first n bytes stops, searching from i: the
      first differing index, or n. */
  function FirstDiff(a: seq<byte>, b: seq<byte>, n: nat, i: nat): (k: nat)
    requires n <= |a| && n <= |b| && i <= n
    requires forall j | 0 <= j < i :: a[j] == b[j]
    ensures i <= k <= n
    ensures forall j | 0 <= j < k :: a[j] == b[j]
    ensures k < n ==> a[k] != b[k]
    decreases n - i
  {
    if i == n || a[i] != b[i] then i else FirstDiff(a, b, n, i + 1)
  }

  /** The result of MemCompare: 0 when the n bytes agree, else the difference
      of the first bytes that do not. */
  function BlockDiff(a: seq<byte>, b: seq<byte>, n: nat): int
    requires n <= |a| && n <= |b|
  {
    var k := FirstDiff(a, b, n, 0);
    if k == n then 0 else a[k] as int - b[k] as int
  }

  /** MemCompare is 0 exactly for equal blocks, and swapping the blocks negates it. */
  lemma BlockDiffProperties(a: seq<byte>, b: seq<byte>, n: nat)
    requires n <= |a| && n <= |b|
    ensures BlockDiff(a, b, n) == 0 <==> a[..n] == b[..n]
    ensures BlockDiff(b, a, n) == -BlockDiff(a, b, n)
  {
    var k1, k2 := FirstDiff(a, b, n, 0), FirstDiff(b, a, n, 0);
    assert k1 <= k2 && k2 <= k1;
    if k1 < n {
      assert a[..n][k1] != b[..n][k1];
    }
  }

  /** MemCompare(block1, block2, size). */
  method MemCompare(a: seq<byte>, b: seq<byte>, n: nat) returns (r: int)
    requires n <= |a| && n <= |b|
    ensures r == BlockDiff(a, b, n)
  {
    ghost var k := FirstDiff(a, b, n, 0);
    var i := 0;
    while i < n
      invariant i <= k
      decreases n - i
    {
      if a[i] != b[i] {
        return a[i] as int - b[i] as int;
      }
      i := i + 1;
    }
    return 0;
  }

  /** The address MemCopy's forward loop reads the i-th byte of the copy from,
      in the original memory: when the destination lies above the source,
      bytes already copied are read again, so the copy repeats the first
      dest - src bytes of the source. */
  function CopySource(dest: nat, src: nat, i: nat): (a: nat)
    ensures src <= a <= src + i
    ensures !(src < dest < src + i + 1) ==> a == src + i
  {
    if src < dest then src + i % (dest - src) else src + i
  }

  lemma ModStep(i: nat, k: nat)
    requires k > 0
    ensures i < k ==> i % k == i
    ensures i >= k ==> (i - k) % k == i % k
  {
    if i < k {
      DivModUnique(i, k, 0, i);
    } else {
      DivModUnique(i, k, (i - k) / k + 1, (i - k) % k);
    }
  }

  /** Where the i-th byte comes from once i bytes are copied: a byte already
      written, or the untouched source byte. */
  lemma CopySourceStep(dest: nat, src: nat, i: nat)
    ensures dest <= src + i < dest + i ==>
      CopySource(dest, src, src + i - dest) == CopySource(dest, src, i)
    ensures !(dest <= src + i < dest + i) ==> CopySource(dest, src, i) == src + i
  {
    if src < dest {
      ModStep(i, dest - src);
    }
  }

  /** MemCopy(dest, src, size): copies byte by byte from the lowest address up. */
  method MemCopy(buf: array<byte>, dest: nat, src: nat, n: nat)
    requires dest + n <= buf.Length && src + n <= buf.Length
    modifies buf
    ensures forall a | dest <= a < dest + n :: buf[a] == old(buf[CopySource(dest, src, a - dest)])
    ensures forall a | 0 <= a < buf.Length && !(dest <= a < dest + n) :: buf[a] == old(buf[a])
    ensures !(src < dest < src + n) ==> forall a | dest <= a < dest + n :: buf[a] == old(buf[a - dest + src])
  {
    ghost var before := buf[..];
    var i := 0;
    while i < n
      invariant 0 <= i <= n
      invariant forall a | dest <= a < dest + i :: buf[a] == before[CopySource(dest, src, a - dest)]
      invariant forall a | 0 <= a < buf.Length && !(dest <= a < dest + i) :: buf[a] == before[a]
    {
      CopySourceStep(dest, src, i);
      var b := buf[src + i];
      assert b == before[CopySource(dest, src, i)];
      buf[dest + i] := b;
      i := i + 1;
    }
  }

  /** MemMove(dest, src, size): copies as if through a temporary buffer; the
      loop runs from the top down when the destination starts inside the source. */
  method MemMove(buf: array<byte>, dest: nat, src: nat, n: nat)
    requires dest + n <= buf.Length && src + n <= buf.Length
    modifies buf
    ensures forall a | dest <= a < dest + n :: buf[a] == old(buf[a - dest + src])
    ensures forall a | 0 <= a < buf.Length && !(dest <= a < dest + n) :: buf[a] == old(buf[a])
  {
    ghost var before := buf[..];
    if src < dest && dest < src + n {
      var i := n;
      while i > 0
        invariant 0 <= i <= n
        invariant forall a | dest + i <= a < dest + n :: buf[a] == before[a - dest + src]
        invariant forall a | 0 <= a < buf.Length && !(dest + i <= a < dest + n) :: buf[a] == before[a]
      {
        i := i - 1;
        buf[dest + i] := buf[src + i];
      }
    } else {
      var i := 0;
      while i < n
        invariant 0 <= i <= n
        invariant forall a | dest <= a < dest + i :: buf[a] == before[a - dest + src]
        invariant forall a | 0 <= a < buf.Length && !(dest <= a < dest + i) :: buf[a] == before[a]
      {
        buf[dest + i] := buf[src + i];
        i := i + 1;
      }
    }
  }

  /** MemFill(dest, value, size): every byte becomes value converted to unsigned char. */
  method MemFill(buf: array<byte>, dest: nat, value: int, n: nat)
    requires dest + n <= buf.Length
    modifies buf
    ensures forall i | dest <= i < dest + n :: buf[i] == value % 256
    ensures forall j | 0 <= j < buf.Length && !(dest <= j < dest + n) :: buf[j] == old(buf[j])
  {
    var i := 0;
    while i < n
      invariant 0 <= i <= n
      invariant forall j | dest <= j < dest + i :: buf[j] == value % 256
      invariant forall j | 0 <= j < buf.Length && !(dest <= j < dest + i) :: buf[j] == old(buf[j])
    {
      buf[dest + i] := value % 256;
      i := i + 1;
    }
  }
}
