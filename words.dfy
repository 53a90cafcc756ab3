/**
  Machine words of a 64-bit Windows build: bytes, fixed-width unsigned
  integers, pointer-sized addresses, two's-complement conversions and the
  little-endian byte order of x86/x64.
 */
module Words {

  const TWO_8: int := 0x100
  const TWO_16: int := 0x1_0000
  const TWO_32: int := 0x1_0000_0000
  const TWO_64: int := 0x1_0000_0000_0000_0000

  /** SIZE_MAX / the largest uintptr_t. */
  const SIZE_MAX: int := TWO_64 - 1

  type byte = b: int | 0 <= b < 0x100
  type u16 = x: int | 0 <= x < 0x1_0000
  type u32 = x: int | 0 <= x < 0x1_0000_0000
  /** A pointer, uintptr_t or size_t value. */
  type Addr = a: int | 0 <= a < 0x1_0000_0000_0000_0000

  datatype Option<T> = None | Some(value: T)

  /** 256^n, the number of values n bytes can hold. */
  function Pow256(n: nat): (r: nat)
    ensures r >= 1
  {
    if n == 0 then 1 else 256 * Pow256(n - 1)
  }

  /** Reduction modulo 2^64: what unsigned and pointer arithmetic does. */
  function Wrap64(x: int): (r: Addr)
    ensures (r - x) % TWO_64 == 0
  {
    x % TWO_64
  }

  /** 2^(8n-1): the bound of the signed n-byte range. */
  function Half(n: nat): (h: int)
    requires 1 <= n
    ensures 2 * h == Pow256(n)
  {
    Pow256(n - 1) * 128
  }

  /** The two's-complement value of the n-byte unsigned bit pattern u. */
  function ToSigned(u: nat, n: nat): (r: int)
    requires 1 <= n && u < Pow256(n)
    ensures -Half(n) <= r < Half(n)
    ensures r == u || r == u - Pow256(n)
  {
    if u < Pow256(n) / 2 then u else u - Pow256(n)
  }

  /** The n-byte unsigned bit pattern of a value in the signed n-byte range. */
  function ToUnsigned(s: int, n: nat): (r: nat)
    requires 1 <= n && -Half(n) <= s < Half(n)
    ensures r < Pow256(n)
    ensures r == s || r == s + Pow256(n)
  {
    if s >= 0 then s else s + Pow256(n)
  }

  lemma SignedRoundTrip(u: nat, s: int, n: nat)
    requires 1 <= n && u < Pow256(n) && -Half(n) <= s < Half(n)
    ensures ToUnsigned(ToSigned(u, n), n) == u
    ensures ToSigned(ToUnsigned(s, n), n) == s
  {
  }

  /** A conversion to int32_t: truncation to the low 32 bits, read as two's complement. */
  function Int32(x: int): (r: int)
    ensures -0x8000_0000 <= r < 0x8000_0000
    ensures (r - x) % TWO_32 == 0
  {
    assert Pow256(4) == TWO_32;
    ToSigned(x % TWO_32, 4)
  }

  /** The value of little-endian bytes. */
  function DecodeLE(bs: seq<byte>): (v: nat)
    ensures v < Pow256(|bs|)
  {
    if bs == [] then 0 else bs[0] + 256 * DecodeLE(bs[1..])
  }

  /** The n little-endian bytes of v. */
  function EncodeLE(v: nat, n: nat): (bs: seq<byte>)
    requires v < Pow256(n)
    ensures |bs| == n
  {
    if n == 0 then [] else [v % 256] + EncodeLE(v / 256, n - 1)
  }

  lemma {:induction false} DecodeEncode(v: nat, n: nat)
    requires v < Pow256(n)
    ensures DecodeLE(EncodeLE(v, n)) == v
  {
    if n > 0 {
      DecodeEncode(v / 256, n - 1);
      assert EncodeLE(v, n)[1..] == EncodeLE(v / 256, n - 1);
    }
  }

  lemma {:induction false} EncodeDecode(bs: seq<byte>)
    ensures EncodeLE(DecodeLE(bs), |bs|) == bs
  {
    if bs != [] {
      EncodeDecode(bs[1..]);
      var v := DecodeLE(bs);
      assert v % 256 == bs[0] && v / 256 == DecodeLE(bs[1..]);
    }
  }

  lemma MulMonotone(d: int, a: int, b: int)
    requires d > 0 && a <= b
    ensures d * a <= d * b
  {
    assert d * b - d * a == d * (b - a);
  }

  lemma DivModUnique(x: int, d: int, q: int, r: int)
    requires d > 0 && 0 <= r < d && x == d * q + r
    ensures x / d == q && x % d == r
  {
    var q', r' := x / d, x % d;
    assert x == d * q' + r';
    if q > q' {
      MulMonotone(d, q' + 1, q);
    } else if q < q' {
      MulMonotone(d, q + 1, q');
    }
  }
}
