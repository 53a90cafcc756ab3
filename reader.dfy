/**
  The readers: ReadU8 … ReadI64 decode the little-endian value at
  addr + offset; ReadAStr and ReadWStr copy a string out of memory into a
  caller's buffer; GetMemoryBlock and GetMemoryData copy a block of bytes.

  In safe mode a reader first asks IsMemoryValid about addr + offset and, when
  it fails, returns nothing and sets the last error to ME_INVALID_MEMORY. The
  last error is modelled as part of the result: Invalid stands for the empty
  optional together with that error. With safe mode off the reader reads
  without any check, so the bytes it reads must be mapped.
 */
module CoreRead {
  import opened Words
  import opened Memory
  import opened Strings
  import opened StringCopy

  datatype ReadResult = Value(v: int) | Invalid

  /** The address a reader reads from: the unsigned sum addr + offset. */
  function Target(addr: Addr, offset: int): Addr
  {
    Wrap64(addr + offset)
  }

  /** The safe-mode check refuses the read. */
  predicate Refused(m: Memory, safeMode: bool, addr: Addr, offset: int)
  {
    safeMode && !IsMemoryValid(m, addr, offset)
  }

  /** What a reader of n bytes demands of its caller: the bytes it goes on to
      read are mapped. */
  predicate CanRead(m: Memory, safeMode: bool, addr: Addr, offset: int, n: nat)
  {
    Refused(m, safeMode, addr, offset) || Mapped(m, Target(addr, offset), n)
  }

  /** The gate and the unsigned little-endian read shared by the readers. */
  function ReadUnsigned(m: Memory, safeMode: bool, addr: Addr, offset: int, n: nat): (r: ReadResult)
    requires CanRead(m, safeMode, addr, offset, n)
    ensures r.Invalid? <==> Refused(m, safeMode, addr, offset)
    ensures r.Value? ==> 0 <= r.v < Pow256(n)
    ensures r.Value? ==> EncodeLE(r.v, n) == Load(m, Target(addr, offset), n)
  {
    if Refused(m, safeMode, addr, offset) then Invalid
    else
      EncodeDecode(Load(m, Target(addr, offset), n));
      Value(LoadLE(m, Target(addr, offset), n))
  }

  /** The gate and the two's-complement read shared by the signed readers. */
  function ReadSigned(m: Memory, safeMode: bool, addr: Addr, offset: int, n: nat): (r: ReadResult)
    requires 1 <= n && CanRead(m, safeMode, addr, offset, n)
    ensures r.Invalid? <==> Refused(m, safeMode, addr, offset)
    ensures r.Value? ==> -Half(n) <= r.v < Half(n)
    ensures r.Value? ==> EncodeLE(ToUnsigned(r.v, n), n) == Load(m, Target(addr, offset), n)
  {
    if Refused(m, safeMode, addr, offset) then Invalid
    else
      var u := LoadLE(m, Target(addr, offset), n);
      EncodeDecode(Load(m, Target(addr, offset), n));
      SignedRoundTrip(u, ToSigned(u, n), n);
      Value(ToSigned(u, n))
  }

  function ReadU8(m: Memory, safeMode: bool, addr: Addr, offset: int): (r: ReadResult)
    requires CanRead(m, safeMode, addr, offset, 1)
    ensures r.Invalid? <==> Refused(m, safeMode, addr, offset)
    ensures r.Value? ==> 0 <= r.v < TWO_8
    ensures r.Value? ==> EncodeLE(r.v, 1) == Load(m, Target(addr, offset), 1)
  {
    ReadUnsigned(m, safeMode, addr, offset, 1)
  }

  function ReadU16(m: Memory, safeMode: bool, addr: Addr, offset: int): (r: ReadResult)
    requires CanRead(m, safeMode, addr, offset, 2)
    ensures r.Invalid? <==> Refused(m, safeMode, addr, offset)
    ensures r.Value? ==> 0 <= r.v < TWO_16
    ensures r.Value? ==> EncodeLE(r.v, 2) == Load(m, Target(addr, offset), 2)
  {
    ReadUnsigned(m, safeMode, addr, offset, 2)
  }

  /** ReadU24: the three bytes combined by shifts and bitwise or. The shifted
      bytes occupy disjoint bits, so the or is their sum. */
  function ReadU24(m: Memory, safeMode: bool, addr: Addr, offset: int): (r: ReadResult)
    requires CanRead(m, safeMode, addr, offset, 3)
    ensures r.Invalid? <==> Refused(m, safeMode, addr, offset)
    ensures r.Value? ==> 0 <= r.v < 0x100_0000 && r.v == LoadLE(m, Target(addr, offset), 3)
  {
    if Refused(m, safeMode, addr, offset) then Invalid
    else
      var p := Target(addr, offset);
      var v := m.bytes[p] as int + (m.bytes[p + 1] as int) * 0x100 + (m.bytes[p + 2] as int) * 0x1_0000;
      assert v == LoadLE(m, p, 3) by {
        DecodeThree(Load(m, p, 3));
      }
      Value(v)
  }

  lemma DecodeThree(bs: seq<byte>)
    requires |bs| == 3
    ensures DecodeLE(bs) == bs[0] as int + (bs[1] as int) * 0x100 + (bs[2] as int) * 0x1_0000
  {
    assert bs[1..][1..][1..] == [];
    assert DecodeLE(bs[2..]) == bs[2];
    assert bs[1..][1..] == bs[2..];
    assert DecodeLE(bs[1..]) == bs[1] as int + 256 * (bs[2] as int);
  }

  function ReadU32(m: Memory, safeMode: bool, addr: Addr, offset: int): (r: ReadResult)
    requires CanRead(m, safeMode, addr, offset, 4)
    ensures r.Invalid? <==> Refused(m, safeMode, addr, offset)
    ensures r.Value? ==> 0 <= r.v < TWO_32
    ensures r.Value? ==> EncodeLE(r.v, 4) == Load(m, Target(addr, offset), 4)
  {
    assert Pow256(4) == TWO_32;
    ReadUnsigned(m, safeMode, addr, offset, 4)
  }

  function ReadU64(m: Memory, safeMode: bool, addr: Addr, offset: int): (r: ReadResult)
    requires CanRead(m, safeMode, addr, offset, 8)
    ensures r.Invalid? <==> Refused(m, safeMode, addr, offset)
    ensures r.Value? ==> 0 <= r.v < TWO_64
    ensures r.Value? ==> EncodeLE(r.v, 8) == Load(m, Target(addr, offset), 8)
  {
    assert Pow256(8) == TWO_64;
    ReadUnsigned(m, safeMode, addr, offset, 8)
  }

  function ReadI8(m: Memory, safeMode: bool, addr: Addr, offset: int): (r: ReadResult)
    requires CanRead(m, safeMode, addr, offset, 1)
    ensures r.Invalid? <==> Refused(m, safeMode, addr, offset)
    ensures r.Value? ==> -0x80 <= r.v < 0x80
    ensures r.Value? ==> EncodeLE(ToUnsigned(r.v, 1), 1) == Load(m, Target(addr, offset), 1)
  {
    ReadSigned(m, safeMode, addr, offset, 1)
  }

  function ReadI16(m: Memory, safeMode: bool, addr: Addr, offset: int): (r: ReadResult)
    requires CanRead(m, safeMode, addr, offset, 2)
    ensures r.Invalid? <==> Refused(m, safeMode, addr, offset)
    ensures r.Value? ==> -0x8000 <= r.v < 0x8000
    ensures r.Value? ==> EncodeLE(ToUnsigned(r.v, 2), 2) == Load(m, Target(addr, offset), 2)
  {
    ReadSigned(m, safeMode, addr, offset, 2)
  }

  /** ReadI24: the 24-bit value, with bits 24 to 31 set when bit 23 is set,
      converted to int32_t. */
  function ReadI24(m: Memory, safeMode: bool, addr: Addr, offset: int): (r: ReadResult)
    requires CanRead(m, safeMode, addr, offset, 3)
    ensures r.Invalid? <==> Refused(m, safeMode, addr, offset)
  {
    match ReadU24(m, safeMode, addr, offset)
    case Invalid => Invalid
    case Value(v) =>
      var extended := if v >= 0x80_0000 then v + 0xFF00_0000 else v;
      Value(Int32(extended))
  }

  /** The sign extension of ReadI24 is the 24-bit two's-complement reading:
      the unsigned value when bit 23 is clear, that value minus 2^24 when it
      is set. */
  lemma ReadI24Signed(m: Memory, safeMode: bool, addr: Addr, offset: int)
    requires CanRead(m, safeMode, addr, offset, 3)
    ensures ReadI24(m, safeMode, addr, offset).Value? ==>
      var u := ReadU24(m, safeMode, addr, offset).v;
      && ReadI24(m, safeMode, addr, offset).v == (if u < 0x80_0000 then u else u - 0x100_0000)
      && -0x80_0000 <= ReadI24(m, safeMode, addr, offset).v < 0x80_0000
  {
    var r := ReadU24(m, safeMode, addr, offset);
    if r.Value? {
      var u := r.v;
      var extended := if u >= 0x80_0000 then u + 0xFF00_0000 else u;
      var s := if u < 0x80_0000 then u else u - 0x100_0000;
      assert extended - s == (if u >= 0x80_0000 then TWO_32 else 0);
      DivModUnique(extended - s, TWO_32, if u >= 0x80_0000 then 1 else 0, 0);
      Int32Unique(extended, s);
    }
  }

  /** Int32 picks the one value of the int32_t range congruent to its argument. */
  lemma Int32Unique(x: int, s: int)
    requires -0x8000_0000 <= s < 0x8000_0000 && (x - s) % TWO_32 == 0
    ensures Int32(x) == s
  {
    var r := Int32(x);
    var q := (r - s) / TWO_32;
    assert (r - s) % TWO_32 == 0 by {
      ModDifference(r, x, s);
    }
    DivModUnique(r - s, TWO_32, q, 0);
    if q != 0 {
      if q > 0 {
        MulMonotone(TWO_32, 1, q);
      } else {
        MulMonotone(TWO_32, q, -1);
      }
    }
  }

  lemma ModDifference(r: int, x: int, s: int)
    requires (r - x) % TWO_32 == 0 && (x - s) % TWO_32 == 0
    ensures (r - s) % TWO_32 == 0
  {
    var a, b := (r - x) / TWO_32, (x - s) / TWO_32;
    DivModUnique(r - s, TWO_32, a + b, 0);
  }

  function ReadI32(m: Memory, safeMode: bool, addr: Addr, offset: int): (r: ReadResult)
    requires CanRead(m, safeMode, addr, offset, 4)
    ensures r.Invalid? <==> Refused(m, safeMode, addr, offset)
    ensures r.Value? ==> -0x8000_0000 <= r.v < 0x8000_0000
    ensures r.Value? ==> EncodeLE(ToUnsigned(r.v, 4), 4) == Load(m, Target(addr, offset), 4)
  {
    ReadSigned(m, safeMode, addr, offset, 4)
  }

  function ReadI64(m: Memory, safeMode: bool, addr: Addr, offset: int): (r: ReadResult)
    requires CanRead(m, safeMode, addr, offset, 8)
    ensures r.Invalid? <==> Refused(m, safeMode, addr, offset)
    ensures r.Value? ==> -0x8000_0000_0000_0000 <= r.v < 0x8000_0000_0000_0000
    ensures r.Value? ==> EncodeLE(ToUnsigned(r.v, 8), 8) == Load(m, Target(addr, offset), 8)
  {
    assert Pow256(8) == TWO_64;
    ReadSigned(m, safeMode, addr, offset, 8)
  }

  /** A value stored at an address reads back unchanged through the unsigned
      reader of its width. Storing leaves the protections, and so the
      safe-mode check, as they were. */
  lemma ReadUnsignedAfterStore(m: Memory, safeMode: bool, p: Addr, n: nat, u: nat)
    requires p + n <= TWO_64 && u < Pow256(n) && !Refused(m, safeMode, p, 0)
    ensures CanRead(Store(m, p, EncodeLE(u, n)), safeMode, p, 0, n)
    ensures ReadUnsigned(Store(m, p, EncodeLE(u, n)), safeMode, p, 0, n) == Value(u)
  {
    assert Target(p, 0) == p;
    var m' := Store(m, p, EncodeLE(u, n));
    StoreLoadLE(m, p, u, n);
    assert m'.protect == m.protect;
    assert !Refused(m', safeMode, p, 0);
    assert Mapped(m', Target(p, 0), n);
  }

  /** The bit pattern of a signed value, stored, reads back as that value
      through the signed reader of its width. */
  lemma ReadSignedAfterStore(m: Memory, safeMode: bool, p: Addr, n: nat, s: int)
    requires 1 <= n && p + n <= TWO_64 && -Half(n) <= s < Half(n) && !Refused(m, safeMode, p, 0)
    ensures CanRead(Store(m, p, EncodeLE(ToUnsigned(s, n), n)), safeMode, p, 0, n)
    ensures ReadSigned(Store(m, p, EncodeLE(ToUnsigned(s, n), n)), safeMode, p, 0, n) == Value(s)
  {
    assert Target(p, 0) == p;
    var m' := Store(m, p, EncodeLE(ToUnsigned(s, n), n));
    StoreLoadLE(m, p, ToUnsigned(s, n), n);
    SignedRoundTrip(ToUnsigned(s, n), s, n);
    assert m'.protect == m.protect;
    assert !Refused(m', safeMode, p, 0);
    assert Mapped(m', Target(p, 0), n);
  }

  /** The safe-mode check looks at the first byte only: a read it lets
      through may run into unmapped memory. */
  lemma CheckCoversFirstByteOnly()
    ensures var m := Memory(map[0x1000 := 0], map[0x1000 := 0x04]);
      && !Refused(m, true, 0x1000, 0)
      && !Mapped(m, Target(0x1000, 0), 2)
  {
    var m := Memory(map[0x1000 := 0], map[0x1000 := 0x04]);
    assert 0x1001 !in m.bytes;
  }

  /** A reader with safe mode off never fails. */
  lemma UnsafeReadsSucceed(m: Memory, addr: Addr, offset: int, n: nat)
    requires Mapped(m, Target(addr, offset), n)
    ensures ReadUnsigned(m, false, addr, offset, n).Value?
    ensures 1 <= n ==> ReadSigned(m, false, addr, offset, n).Value?
  {
  }

  // ---- strings and blocks -------------------------------------------------------

  /** The n 16-bit units at p, as wchar_t reads them. */
  function LoadUnits16(m: Memory, p: Addr, n: nat): (s: seq<Unit>)
    requires Mapped(m, p, 2 * n)
    ensures |s| == n
  {
    seq(n, i requires 0 <= i < n && Mapped(m, p, 2 * n) => assert Mapped(m, p + 2 * i, 2); LoadLE(m, p + 2 * i, 2))
  }

  /** ReadAStr(addr, out, max_size, offset) over the window of bytes at
      addr + offset that holds the string (the bytes up to its NUL, or at
      least max_size - 1 of them). */
  method ReadAStr(m: Memory, safeMode: bool, addr: Addr, out: array?<Unit>, maxSize: nat, offset: int, window: nat)
    returns (ok: bool)
    requires maxSize <= SIZE_MAX && (out != null ==> maxSize <= out.Length)
    requires out != null && maxSize > 0 && !Refused(m, safeMode, addr, offset) ==>
      Mapped(m, Target(addr, offset), window) && Readable(Load(m, Target(addr, offset), window), maxSize - 1)
    modifies out
    ensures ok <==> out != null && maxSize > 0 && !Refused(m, safeMode, addr, offset)
    ensures !ok && out != null ==> out[..] == old(out[..])
    ensures ok ==> Written(out[..], old(out[..]), 0, NCopySafe(maxSize, Load(m, Target(addr, offset), window), SIZE_MAX).written)
  {
    if out == null || maxSize == 0 {
      return false;
    }
    if Refused(m, safeMode, addr, offset) {
      return false;
    }
    var src := Load(m, Target(addr, offset), window);
    assert Min(SIZE_MAX, maxSize - 1) == maxSize - 1;
    var _ := StrNCopySafe(out, maxSize, src, SIZE_MAX);
    return true;
  }

  /** ReadWStr: as ReadAStr, over 16-bit units. */
  method ReadWStr(m: Memory, safeMode: bool, addr: Addr, out: array?<Unit>, maxSize: nat, offset: int, window: nat)
    returns (ok: bool)
    requires maxSize <= SIZE_MAX && (out != null ==> maxSize <= out.Length)
    requires out != null && maxSize > 0 && !Refused(m, safeMode, addr, offset) ==>
      Mapped(m, Target(addr, offset), 2 * window) && Readable(LoadUnits16(m, Target(addr, offset), window), maxSize - 1)
    modifies out
    ensures ok <==> out != null && maxSize > 0 && !Refused(m, safeMode, addr, offset)
    ensures !ok && out != null ==> out[..] == old(out[..])
    ensures ok ==> Written(out[..], old(out[..]), 0, NCopySafe(maxSize, LoadUnits16(m, Target(addr, offset), window), SIZE_MAX).written)
  {
    if out == null || maxSize == 0 {
      return false;
    }
    if Refused(m, safeMode, addr, offset) {
      return false;
    }
    var src := LoadUnits16(m, Target(addr, offset), window);
    assert Min(SIZE_MAX, maxSize - 1) == maxSize - 1;
    var _ := StrNCopySafe(out, maxSize, src, SIZE_MAX);
    return true;
  }

  /** What a successful string read leaves in the buffer: the string, cut to
      max_size - 1 units, and its NUL. */
  lemma ReadStrResult(d': seq<int>, d: seq<int>, src: seq<int>, maxSize: nat)
    requires 0 < maxSize <= SIZE_MAX && Readable(src, maxSize - 1)
    requires Written(d', d, 0, NCopySafe(maxSize, src, SIZE_MAX).written)
    ensures 0 in d' && CStr(d') == Upto(src, maxSize - 1) && |CStr(d')| < maxSize
  {
    assert Min(SIZE_MAX, maxSize - 1) == maxSize - 1;
    StrNCopySafeResult(d', d, maxSize, src, SIZE_MAX);
  }

  /** The byte copy of GetMemoryBlock and GetMemoryData: size bytes from
      source into dest, from the lowest address up. */
  method CopyOut(m: Memory, source: Addr, size: nat, dest: array<byte>)
    requires Mapped(m, source, size) && size <= dest.Length
    modifies dest
    ensures dest[..size] == Load(m, source, size)
    ensures forall k | size <= k < dest.Length :: dest[k] == old(dest[k])
  {
    var i := 0;
    while i < size
      invariant 0 <= i <= size
      invariant forall k | 0 <= k < i :: dest[k] == m.bytes[source + k]
      invariant forall k | i <= k < dest.Length :: dest[k] == old(dest[k])
    {
      dest[i] := m.bytes[source + i];
      i := i + 1;
    }
  }

  /** GetMemoryBlock(source, size, dest): fails on a null source or
      destination, else copies the block. */
  method GetMemoryBlock(m: Memory, source: Addr, size: nat, dest: array?<byte>) returns (ok: bool)
    requires source != 0 && dest != null ==> Mapped(m, source, size) && size <= dest.Length
    modifies dest
    ensures ok <==> source != 0 && dest != null
    ensures !ok && dest != null ==> dest[..] == old(dest[..])
    ensures ok ==> dest[..size] == Load(m, source, size)
    ensures ok ==> dest[size..] == old(dest[size..])
  {
    if source == 0 || dest == null {
      return false;
    }
    CopyOut(m, source, size, dest);
    return true;
  }

  /** GetMemoryData(source, size): a fresh zeroed vector of size bytes, with
      the block copied in when the source is not null. */
  method GetMemoryData(m: Memory, source: Addr, size: nat) returns (data: seq<byte>)
    requires source != 0 ==> Mapped(m, source, size)
    ensures |data| == size
    ensures source == 0 ==> forall k | 0 <= k < size :: data[k] == 0
    ensures source != 0 ==> data == Load(m, source, size)
  {
    var buffer := new byte[size](_ => 0);
    if source != 0 {
      CopyOut(m, source, size, buffer);
    }
    data := buffer[..];
    assert buffer[..size] == data;
  }
}
