/**
  Address arithmetic: pointer offsets with optional dereference, the bounds
  and distance tests, power-of-two alignment, and the rel32 operand of the
  near CALL (E8) and JMP (E9) instructions of the Intel 64 and IA-32
  architectures, whose target is the address of the next instruction plus a
  signed 32-bit displacement.

  Pointers are 64-bit: every sum of a pointer and an offset wraps modulo 2^64.
 */
module AddressMath {
  import opened Words
  import opened Memory

  /** PtrOffset(addr, offset, dereference): addr moved by a signed offset; with
      dereference, the pointer stored at that address instead. */
  function PtrOffset(m: Memory, addr: Addr, offset: int, dereference: bool): (r: Addr)
    requires dereference ==> Mapped(m, Wrap64(addr + offset), 8)
    ensures !dereference ==> r == Wrap64(addr + offset)
    ensures dereference ==> r == LoadLE(m, Wrap64(addr + offset), 8)
  {
    var result := Wrap64(addr + offset);
    if dereference then
      assert Pow256(8) == TWO_64;
      LoadLE(m, result, 8)
    else result
  }

  /** PtrAdvance(addr, offset, dereference): addr moved forward by an unsigned offset. */
  function PtrAdvance(m: Memory, addr: Addr, offset: Addr, dereference: bool): (r: Addr)
    requires dereference ==> Mapped(m, Wrap64(addr + offset), 8)
    ensures !dereference ==> r == Wrap64(addr + offset)
    ensures dereference ==> r == LoadLE(m, Wrap64(addr + offset), 8)
  {
    PtrOffset(m, addr, offset, dereference)
  }

  /** PtrRewind(addr, offset, dereference): addr moved back by an unsigned offset. */
  function PtrRewind(m: Memory, addr: Addr, offset: Addr, dereference: bool): (r: Addr)
    requires dereference ==> Mapped(m, Wrap64(addr - offset), 8)
    ensures !dereference ==> r == Wrap64(addr - offset)
    ensures dereference ==> r == LoadLE(m, Wrap64(addr - offset), 8)
  {
    var result := Wrap64(addr - offset);
    if dereference then
      assert Pow256(8) == TWO_64;
      LoadLE(m, result, 8)
    else result
  }

  /** Rewinding undoes advancing, and the unsigned forms agree with PtrOffset. */
  lemma AdvanceRewind(m: Memory, addr: Addr, n: Addr)
    ensures PtrRewind(m, PtrAdvance(m, addr, n, false), n, false) == addr
    ensures PtrAdvance(m, PtrRewind(m, addr, n, false), n, false) == addr
    ensures PtrAdvance(m, addr, n, false) == PtrOffset(m, addr, n, false)
    ensures PtrRewind(m, addr, n, false) == PtrOffset(m, addr, -(n as int), false)
  {
    var up, down := Wrap64(addr + n), Wrap64(addr - n);
    WrapCongruent(up - n, addr);
    WrapCongruent(down + n, addr);
    assert Wrap64(addr) == addr;
  }

  /** Numbers congruent modulo 2^64 wrap to the same address. */
  lemma WrapCongruent(x: int, y: int)
    requires (x - y) % TWO_64 == 0
    ensures Wrap64(x) == Wrap64(y)
  {
    var k := (x - y) / TWO_64;
    assert x == y + TWO_64 * k;
    DivModUnique(x, TWO_64, y / TWO_64 + k, y % TWO_64);
  }

  /** IsInBounds(addr, lower, upper), both overloads: the half-open test. */
  function IsInBounds(addr: Addr, lower: Addr, upper: Addr): (r: bool)
    ensures r <==> lower <= addr < upper
  {
    if addr < lower then false
    else if addr >= upper then false
    else true
  }

  /** IsIn32BitRange(addr1, addr2, offset), both overloads: the distance between
      addr1 and addr2 + offset (wrapped to 64 bits) is at most 0xFFFFFFFF. */
  function IsIn32BitRange(addr1: Addr, addr2: Addr, offset: int): (r: bool)
    ensures r <==> -0xFFFF_FFFF <= addr1 - Wrap64(addr2 + offset) <= 0xFFFF_FFFF
  {
    var adjusted := Wrap64(addr2 + offset);
    var diff := if addr1 > adjusted then addr1 - adjusted else adjusted - addr1;
    diff <= 0xFFFF_FFFF
  }

  /** The test is unsigned: a distance of 2^31 passes it although no rel32
      displacement can span it. */
  lemma In32BitRangeWiderThanRel32()
    ensures IsIn32BitRange(0x8000_0000, 0, 0) && Int32(0x8000_0000) != 0x8000_0000
  {
  }

  // ---- Align ----------------------------------------------------------------

  function Pow2(k: nat): (r: nat)
    ensures r >= 1
  {
    if k == 0 then 1 else 2 * Pow2(k - 1)
  }

  lemma {:induction false} Pow2Monotone(j: nat, k: nat)
    requires j <= k
    ensures Pow2(j) <= Pow2(k)
  {
    if j < k {
      Pow2Monotone(j, k - 1);
    }
  }

  /** x & y on unsigned integers, bit by bit from the least significant. */
  function BitAnd(x: nat, y: nat): (r: nat)
    ensures r <= x && r <= y
    decreases x
  {
    if x == 0 || y == 0 then 0
    else 2 * BitAnd(x / 2, y / 2) + (if x % 2 == 1 && y % 2 == 1 then 1 else 0)
  }

  lemma ModHalf(x: nat, k: nat)
    requires k >= 1
    ensures x % Pow2(k) == 2 * ((x / 2) % Pow2(k - 1)) + x % 2
  {
    var q, b := x / 2, x % 2;
    var d := Pow2(k - 1);
    var qq, rr := q / d, q % d;
    assert q == d * qq + rr;
    assert x == Pow2(k) * qq + (2 * rr + b);
    DivModUnique(x, Pow2(k), qq, 2 * rr + b);
  }

  /** The number formed by the k low bits of x. */
  function LowBits(x: nat, k: nat): (r: nat)
    ensures r < Pow2(k)
  {
    if k == 0 then 0 else 2 * LowBits(x / 2, k - 1) + x % 2
  }

  /** The k low bits of x are x modulo 2^k. */
  lemma {:induction false} LowBitsMod(x: nat, k: nat)
    ensures LowBits(x, k) == x % Pow2(k)
  {
    if k == 0 {
      DivModUnique(x, 1, x, 0);
    } else {
      LowBitsMod(x / 2, k - 1);
      ModHalf(x, k);
    }
  }

  /** Clearing the k low bits of an n-bit number: x & (2^n - 2^k) == x - x % 2^k. */
  lemma ClearLowBits(x: nat, n: nat, k: nat, mask: nat)
    requires k <= n && x < Pow2(n) && mask == Pow2(n) - Pow2(k)
    ensures BitAnd(x, mask) == x - x % Pow2(k)
  {
    MaskLowBits(x, n, k);
    LowBitsMod(x, k);
    assert Mask(n, k) == mask;
  }

  /** 2^n - 2^k: the bits from k up to n - 1 set. */
  function Mask(n: nat, k: nat): int
  {
    Pow2(n) - Pow2(k)
  }

  lemma {:induction false} MaskLowBits(x: nat, n: nat, k: nat)
    requires k <= n && x < Pow2(n)
    ensures Mask(n, k) >= 0 && BitAnd(x, Mask(n, k)) == x - LowBits(x, k)
    decreases n
  {
    Pow2Monotone(k, n);
    if k == 0 {
      KeepAllBits(x, n);
    } else if k == n {
      LowBitsMod(x, k);
      DivModUnique(x, Pow2(k), 0, x);
      assert BitAnd(x, 0) == 0;
    } else if x == 0 {
      LowBitsOfZero(k);
      assert BitAnd(0, Mask(n, k)) == 0;
    } else {
      var q, m, j := x / 2, n - 1, k - 1;
      HalveBelow(x, n);
      MaskLowBits(q, m, j);
      var y, h := Mask(n, k), Mask(m, j);
      MaskHalf(n, k);
      MaskStep(x, y, h, LowBits(x, k), LowBits(q, j));
    }
  }

  /** The inductive step of MaskLowBits, for x > 0 and an even mask y. */
  lemma MaskStep(x: nat, y: nat, h: nat, lowX: nat, lowHalf: nat)
    requires x > 0 && h > 0 && y == 2 * h
    requires BitAnd(x / 2, h) == x / 2 - lowHalf && lowX == 2 * lowHalf + x % 2
    ensures BitAnd(x, y) == x - lowX
  {
    BitAndEven(x, y, h);
    DivModUnique(x, 2, x / 2, x % 2);
  }

  lemma {:induction false} LowBitsOfZero(k: nat)
    ensures LowBits(0, k) == 0
  {
    if k > 0 {
      LowBitsOfZero(k - 1);
    }
  }

  /** x & y for an even y: the low bit is dropped and the rest is (x / 2) & (y / 2). */
  lemma BitAndEven(x: nat, y: nat, h: nat)
    requires x > 0 && h > 0 && y == 2 * h
    ensures BitAnd(x, y) == 2 * BitAnd(x / 2, h)
  {
    DivModUnique(y, 2, h, 0);
  }

  /** 2^n - 2^k, for 0 < k < n, is twice 2^(n-1) - 2^(k-1), which is positive. */
  lemma MaskHalf(n: nat, k: nat)
    requires 0 < k < n
    ensures Mask(n - 1, k - 1) > 0 && Mask(n, k) == 2 * Mask(n - 1, k - 1)
  {
    Pow2Monotone(k, n - 1);
  }

  /** x & (2^n - 1) == x for an n-bit number x. */
  lemma {:induction false} KeepAllBits(x: nat, n: nat)
    requires x < Pow2(n)
    ensures BitAnd(x, Pow2(n) - 1) == x
    decreases n
  {
    if x > 0 {
      assert n >= 1;
      var h := Pow2(n - 1) - 1;
      var y := Pow2(n) - 1;
      assert y == 2 * h + 1;
      DivModUnique(y, 2, h, 1);
      var q := x / 2;
      HalveBelow(x, n);
      KeepAllBits(q, n - 1);
      BitAndStep(x, y);
      DivModUnique(x, 2, q, x % 2);
    }
  }

  lemma BitAndStep(x: nat, y: nat)
    requires x > 0 && y > 0
    ensures BitAnd(x, y) == 2 * BitAnd(x / 2, y / 2) + (if x % 2 == 1 && y % 2 == 1 then 1 else 0)
  {
  }

  lemma HalveBelow(x: nat, n: nat)
    requires n >= 1 && x < Pow2(n)
    ensures x / 2 < Pow2(n - 1)
  {
    DivModUnique(x, 2, x / 2, x % 2);
  }

  /** Align(value, alignment), both overloads (the pointer one returns nullptr
      where this returns 0): round value up with the mask alignment - 1; 0 when
      the rounding would pass SIZE_MAX; value itself for alignment 0. */
  function Align(value: Addr, alignment: int): (r: Addr)
    requires -0x8000_0000 <= alignment < 0x8000_0000
    ensures alignment == 0 ==> r == value
  {
    if alignment == 0 then value
    else
      var mask := Wrap64(Int32(alignment - 1));
      if value > SIZE_MAX - mask then 0
      else BitAnd(value + mask, SIZE_MAX - mask)
  }

  lemma {:induction false} Pow2Add(j: nat, k: nat)
    ensures Pow2(j + k) == Pow2(j) * Pow2(k)
  {
    if j > 0 {
      Pow2Add(j - 1, k);
    }
  }

  lemma {:induction false} Pow2Bytes(n: nat)
    ensures Pow2(8 * n) == Pow256(n)
  {
    if n > 0 {
      Pow2Bytes(n - 1);
      Pow2Add(8, 8 * (n - 1));
      assert Pow2(8) == 256;
    }
  }

  lemma Pow2Small(k: nat)
    requires k <= 30
    ensures Pow2(k) <= 0x4000_0000
  {
    Pow2Monotone(k, 30);
    Pow2Add(6, 24);
    Pow2Bytes(3);
    assert Pow2(6) == 64;
  }

  lemma Pow2Word()
    ensures Pow2(64) == TWO_64
  {
    Pow2Bytes(8);
    assert Pow256(8) == TWO_64;
  }

  lemma Int32Small(x: int)
    requires 0 <= x < 0x8000_0000
    ensures Int32(x) == x
  {
    assert Pow256(4) == TWO_32;
  }

  lemma AlignOverflow(value: Addr, alignment: int)
    requires 0 < alignment < 0x8000_0000 && value > SIZE_MAX - (alignment - 1)
    ensures Align(value, alignment) == 0
  {
    Int32Small(alignment - 1);
    DivModUnique(alignment - 1, TWO_64, 0, alignment - 1);
  }

  lemma AlignByMask(value: Addr, alignment: int, x: nat, mask: nat)
    requires 0 < alignment < 0x8000_0000 && value <= SIZE_MAX - (alignment - 1)
    requires x == value + alignment - 1 && mask == SIZE_MAX - (alignment - 1)
    ensures Align(value, alignment) == BitAnd(x, mask)
  {
    Int32Small(alignment - 1);
    DivModUnique(alignment - 1, TWO_64, 0, alignment - 1);
    var m := Wrap64(Int32(alignment - 1));
    assert value + m == x && SIZE_MAX - m == mask;
  }

  /** Without overflow, Align(value, 2^k) clears the k low bits of value + 2^k - 1. */
  lemma AlignNoOverflow(value: Addr, k: nat, a: nat, x: nat)
    requires k <= 30 && a == Pow2(k) && x == value + a - 1 && value <= SIZE_MAX - (a - 1)
    ensures a <= 0x4000_0000 && Align(value, a) == x - x % a
  {
    Pow2Small(k);
    var mask := SIZE_MAX - (a - 1);
    AlignByMask(value, a, x, mask);
    Pow2Word();
    Pow2Monotone(k, 64);
    ClearLowBits(x, 64, k, mask);
  }

  lemma RoundUp(v: int, a: int, x: int)
    requires a > 0 && x == v + a - 1
    ensures x - x % a == a * (x / a)
    ensures v <= x - x % a < v + a
  {
  }

  /** For a power-of-two alignment a, Align gives the least multiple of a that
      is at least value, or 0 when value + (a - 1) would overflow size_t. */
  lemma AlignPowerOfTwo(value: Addr, k: nat)
    requires k <= 30
    ensures Pow2(k) <= 0x4000_0000
    ensures var a := Pow2(k);
      && (value > SIZE_MAX - (a - 1) ==> Align(value, a) == 0)
      && (value <= SIZE_MAX - (a - 1) ==>
            Align(value, a) % a == 0 && value <= Align(value, a) < value + a)
  {
    Pow2Small(k);
    var a := Pow2(k);
    if value > SIZE_MAX - (a - 1) {
      AlignOverflow(value, a);
    } else {
      var x := value + a - 1;
      AlignNoOverflow(value, k, a, x);
      RoundUp(value, a, x);
      var r := Align(value, a);
      DivModUnique(r, a, x / a, 0);
    }
  }

  // ---- rel32 operands ---------------------------------------------------------

  /** The int32_t stored little-endian at p. */
  function Int32At(m: Memory, p: Addr): (d: int)
    requires Mapped(m, p, 4)
    ensures -0x8000_0000 <= d < 0x8000_0000
  {
    assert Pow256(4) == TWO_32;
    ToSigned(LoadLE(m, p, 4), 4)
  }

  /** Memory after storing the int32_t d little-endian at p. */
  function StoreInt32(m: Memory, p: Addr, d: int): (m': Memory)
    requires p + 4 <= TWO_64 && -0x8000_0000 <= d < 0x8000_0000
    ensures Mapped(m', p, 4) && Int32At(m', p) == d
  {
    assert Pow256(4) == TWO_32;
    var u := ToUnsigned(d, 4);
    StoreLoadLE(m, p, u, 4);
    SignedRoundTrip(u, d, 4);
    Store(m, p, EncodeLE(u, 4))
  }

  /** RelToAbs(addr, offset): addr + offset + the int32_t stored at addr. */
  function RelToAbs(m: Memory, addr: Addr, offset: int): (r: Addr)
    requires Mapped(m, addr, 4)
    ensures r == Wrap64(addr + offset + Int32At(m, addr))
  {
    PtrOffset(m, addr, Int32At(m, addr) + offset, false)
  }

  /** RelToAbsEx(addr, pre, post) == RelToAbs(addr + pre, post). */
  function RelToAbsEx(m: Memory, addr: Addr, preOffset: int, postOffset: int): (r: Addr)
    requires Mapped(m, Wrap64(addr + preOffset), 4)
    ensures r == Wrap64(addr + preOffset + postOffset + Int32At(m, Wrap64(addr + preOffset)))
  {
    RelToAbs(m, Wrap64(addr + preOffset), postOffset)
  }

  /** CalcRel(base, addr, imm_size): base - addr - imm_size truncated to int32_t. */
  function CalcRel(base: Addr, addr: Addr, immSize: Addr): (d: int)
    ensures -0x8000_0000 <= d < 0x8000_0000
    ensures (d - (base - addr - immSize)) % TWO_32 == 0
  {
    Int32(Wrap64(base - addr - immSize))
  }

  /** A near CALL or JMP at x with displacement d (opcode at x, d in the four
      bytes after it) goes to x + 5 + d, which is what RelToAbsEx(x, 1, 4) computes. */
  lemma NearBranchTarget(m: Memory, x: Addr, d: int)
    requires Mapped(m, x, 5) && -0x8000_0000 <= d < 0x8000_0000
    requires Int32At(m, x + 1) == d
    ensures RelToAbsEx(m, x, 1, 4) == Wrap64(x + 5 + d)
  {
    assert Wrap64(x + 1) == x + 1;
    assert Mapped(m, x + 1, 4);
  }

  lemma ModShift(t: int, k: int)
    ensures (t + TWO_32 * k) % TWO_32 == t % TWO_32
  {
    DivModUnique(t + TWO_32 * k, TWO_32, t / TWO_32 + k, t % TWO_32);
  }

  /** Numbers congruent modulo 2^32 have the same low 32 bits. */
  lemma SameLow32(x: int, y: int)
    requires (x - y) % TWO_32 == 0
    ensures x % TWO_32 == y % TWO_32
  {
    var k := (x - y) / TWO_32;
    assert x == y + TWO_32 * k;
    ModShift(y, k);
  }

  /** An int32_t that fits is kept unchanged by CalcRel. */
  lemma CalcRelExact(base: Addr, addr: Addr, immSize: Addr)
    requires -0x8000_0000 <= base - addr - immSize < 0x8000_0000
    ensures CalcRel(base, addr, immSize) == base - addr - immSize
  {
    var d := CalcRel(base, addr, immSize);
    var k := (d - (base - addr - immSize)) / TWO_32;
    assert d - (base - addr - immSize) == TWO_32 * k;
  }

  lemma Rel32Arithmetic(t: Addr, a: Addr, imm: Addr, r: Addr)
    requires r == Wrap64(a + imm + CalcRel(t, a, imm))
    ensures r % TWO_32 == t % TWO_32
    ensures -0x8000_0000 <= t - a - imm < 0x8000_0000 ==> r == t
  {
    var z := a + imm + CalcRel(t, a, imm);
    SameLow32(r, z);
    SameLow32(z, t);
    if -0x8000_0000 <= t - a - imm < 0x8000_0000 {
      CalcRelExact(t, a, imm);
    }
  }

  /** Writing CalcRel(t, a, imm) at a and decoding it with RelToAbs(a, imm)
      gives back t whenever t - a - imm fits in an int32_t; whatever the
      distance, the low 32 bits of the target are right. */
  lemma CalcRelRoundTrip(m: Memory, t: Addr, a: Addr, imm: Addr)
    requires a + 4 <= TWO_64
    ensures var m' := StoreInt32(m, a, CalcRel(t, a, imm));
      && RelToAbs(m', a, imm) % TWO_32 == t % TWO_32
      && (-0x8000_0000 <= t - a - imm < 0x8000_0000 ==> RelToAbs(m', a, imm) == t)
  {
    var d := CalcRel(t, a, imm);
    var r := RelToAbs(StoreInt32(m, a, d), a, imm);
    RelToAbsAfterStore(m, a, imm, d);
    Rel32Arithmetic(t, a, imm, r);
  }

  lemma RelToAbsAfterStore(m: Memory, a: Addr, imm: Addr, d: int)
    requires a + 4 <= TWO_64 && -0x8000_0000 <= d < 0x8000_0000
    ensures RelToAbs(StoreInt32(m, a, d), a, imm) == Wrap64(a + imm + d)
  {
    var m' := StoreInt32(m, a, d);
    assert Int32At(m', a) == d;
  }
}
