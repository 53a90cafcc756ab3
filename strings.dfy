/**
  NUL-terminated strings and the routines that scan and compare them.

  A string is the sequence of code units readable from its start address:
  `char` strings hold units below 256 (the unsigned view of a byte), `wchar_t`
  strings 16-bit units. The A and W variants of each routine do the same
  thing on their own unit width, so each is modelled once over `Unit`.
  A sequence that holds a 0 is terminated; the units after the first 0 are
  never read by the routines below.
 */
module Strings {
  import opened Words

  type Unit = c: int | 0 <= c < 0x1_0000

  /** The index of the terminating NUL: strlen. */
  function CLen(s: seq<int>): (n: nat)
    requires 0 in s
    ensures n < |s| && s[n] == 0
    ensures forall j | 0 <= j < n :: s[j] != 0
  {
    if s[0] == 0 then 0
    else
      assert 0 in s[1..];
      CLen(s[1..]) + 1
  }

  /** The characters of a terminated string, without its NUL. */
  function CStr(s: seq<int>): (t: seq<int>)
    requires 0 in s
    ensures |t| == CLen(s) && 0 !in t
    ensures t == s[..CLen(s)]
  {
    s[..CLen(s)]
  }

  /** A routine that stops at count units or at a NUL may read s: either s
      is terminated or it is at least count units long. */
  predicate Readable(s: seq<int>, count: nat)
  {
    0 in s || count <= |s|
  }

  /** The number of units before the first NUL, but at most max. */
  function NLen(s: seq<int>, max: nat): (n: nat)
    requires Readable(s, max)
    ensures n <= max && n <= |s|
    ensures forall j | 0 <= j < n :: s[j] != 0
    ensures n < max ==> n < |s| && s[n] == 0
    decreases max
  {
    if max == 0 || s[0] == 0 then 0
    else
      assert Readable(s[1..], max - 1) by {
        if 0 in s {
          assert 0 in s[1..];
        }
      }
      NLen(s[1..], max - 1) + 1
  }

  /** NLen agrees with CLen once max is past the NUL. */
  lemma {:induction false} NLenOfTerminated(s: seq<int>, max: nat)
    requires 0 in s
    ensures NLen(s, max) == if max <= CLen(s) then max else CLen(s)
  {
    var n := NLen(s, max);
    if n < max {
      assert s[n] == 0;
    }
  }

  /** StrLenA / StrLenW: the number of units before the first NUL. */
  method StrLen(s: seq<Unit>) returns (n: nat)
    requires 0 in s
    ensures n < |s| && s[n] == 0
    ensures forall j | 0 <= j < n :: s[j] != 0
    ensures n == |CStr(s)|
  {
    n := 0;
    while s[n] != 0
      invariant n <= CLen(s)
      invariant forall j | 0 <= j < n :: s[j] != 0
      decreases CLen(s) - n
    {
      n := n + 1;
    }
  }

  /** A byte read as MSVC's signed char, the value FindCharA compares with
      its int argument. */
  function SignedChar(b: byte): (c: int)
    ensures -128 <= c < 128
    ensures c == b || c == b - 256
  {
    if b < 128 then b else b - 256
  }

  /** FindCharA: the first unit before the NUL whose signed value is ch;
      the NUL itself when ch is 0; None otherwise. */
  method FindChar(s: seq<byte>, ch: int) returns (r: Option<nat>)
    requires 0 in s
    ensures r.Some? ==> r.value <= CLen(s)
    ensures r.Some? && r.value < CLen(s) ==> SignedChar(s[r.value]) == ch
    ensures r.Some? && r.value == CLen(s) ==> ch == 0
    ensures r.Some? ==> forall j | 0 <= j < r.value :: SignedChar(s[j]) != ch
    ensures r.None? <==> ch != 0 && forall j | 0 <= j < CLen(s) :: SignedChar(s[j]) != ch
  {
    var i := 0;
    while s[i] != 0
      invariant i <= CLen(s)
      invariant forall j | 0 <= j < i :: SignedChar(s[j]) != ch
      decreases CLen(s) - i
    {
      if SignedChar(s[i]) == ch {
        return Some(i);
      }
      i := i + 1;
    }
    if ch == 0 {
      return Some(i);
    }
    return None;
  }

  /** FindLastCharA: the last unit before the NUL whose signed value is ch;
      None when there is none (so always for ch == 0). */
  method FindLastChar(s: seq<byte>, ch: int) returns (r: Option<nat>)
    requires 0 in s
    ensures r.Some? ==> r.value < CLen(s) && SignedChar(s[r.value]) == ch
    ensures r.Some? ==> forall j | r.value < j < CLen(s) :: SignedChar(s[j]) != ch
    ensures r.None? <==> forall j | 0 <= j < CLen(s) :: SignedChar(s[j]) != ch
  {
    r := None;
    var i := 0;
    while s[i] != 0
      invariant i <= CLen(s)
      invariant r.Some? ==> r.value < i && SignedChar(s[r.value]) == ch
      invariant r.Some? ==> forall j | r.value < j < i :: SignedChar(s[j]) != ch
      invariant r.None? ==> forall j | 0 <= j < i :: SignedChar(s[j]) != ch
      decreases CLen(s) - i
    {
      if SignedChar(s[i]) == ch {
        r := Some(i);
      }
      i := i + 1;
    }
  }

  // ---- Comparison -------------------------------------------------------------

  /** ASCII upper case to lower case; every other unit unchanged. */
  function Fold(c: int): (f: int)
    ensures 'A' as int <= c <= 'Z' as int ==> f == c + 32
    ensures !('A' as int <= c <= 'Z' as int) ==> f == c
    ensures f == 0 <==> c == 0
  {
    if 'A' as int <= c <= 'Z' as int then c + 32 else c
  }

  /** The unit as a comparison sees it: folded for the case-insensitive ones. */
  function Norm(c: int, fold: bool): int
  {
    if fold then Fold(c) else c
  }

  function NormAll(s: seq<int>, fold: bool): (t: seq<int>)
    ensures |t| == |s| && forall j | 0 <= j < |s| :: t[j] == Norm(s[j], fold)
  {
    seq(|s|, j requires 0 <= j < |s| => Norm(s[j], fold))
  }

  /** The units of s up to its first NUL or to count units, whichever comes first. */
  function Upto(s: seq<int>, count: nat): (t: seq<int>)
    requires Readable(s, count)
    ensures 0 !in t && |t| <= count
  {
    s[..NLen(s, count)]
  }

  /** Where a comparison of at most count units stops, searching from i: the
      first index where either string ends or the two (normalised) units
      differ, or count. */
  function Stop(a: seq<int>, b: seq<int>, count: nat, fold: bool, i: nat): (k: nat)
    requires Readable(a, count) && Readable(b, count)
    requires i <= count && i <= |a| && i <= |b|
    requires forall j | 0 <= j < i :: a[j] != 0 && b[j] != 0 && Norm(a[j], fold) == Norm(b[j], fold)
    ensures i <= k <= count && k <= |a| && k <= |b|
    ensures forall j | 0 <= j < k :: a[j] != 0 && b[j] != 0 && Norm(a[j], fold) == Norm(b[j], fold)
    ensures k < count ==> k < |a| && k < |b|
    ensures k < count ==> a[k] == 0 || b[k] == 0 || Norm(a[k], fold) != Norm(b[k], fold)
    decreases count - i
  {
    if i == count then i
    else
      assert i < |a| && i < |b|;
      if a[i] == 0 || b[i] == 0 || Norm(a[i], fold) != Norm(b[i], fold) then i
      else Stop(a, b, count, fold, i + 1)
  }

  /** The comparison stops before count with a difference exactly when the
      compared strings differ. */
  lemma StopWhereUptoDiffers(a: seq<int>, b: seq<int>, count: nat, fold: bool)
    requires Readable(a, count) && Readable(b, count)
    ensures var k := Stop(a, b, count, fold, 0);
      (k == count || (a[k] == 0 && b[k] == 0)) <==>
        NormAll(Upto(a, count), fold) == NormAll(Upto(b, count), fold)
  {
    var k := Stop(a, b, count, fold, 0);
    var na, nb := NLen(a, count), NLen(b, count);
    assert na >= k && nb >= k;
    var x, y := NormAll(Upto(a, count), fold), NormAll(Upto(b, count), fold);
    if k == count || (a[k] == 0 && b[k] == 0) {
      assert na == k && nb == k;
      assert forall j | 0 <= j < |x| :: x[j] == y[j];
    } else if a[k] != 0 && b[k] != 0 {
      assert x[k] != y[k];
    } else if a[k] == 0 {
      assert |x| == k < |y|;
    } else {
      assert |y| == k < |x|;
    }
  }

  /** A terminated string read up to a count past its NUL is its characters. */
  lemma UptoOfTerminated(s: seq<int>, count: nat)
    requires 0 in s && CLen(s) < count
    ensures Upto(s, count) == CStr(s)
  {
    NLenOfTerminated(s, count);
  }

  /** Without folding, equal normal forms are equal strings. */
  lemma NormAllPlain(x: seq<int>, y: seq<int>)
    ensures NormAll(x, false) == NormAll(y, false) <==> x == y
  {
    if NormAll(x, false) == NormAll(y, false) {
      assert forall j | 0 <= j < |x| :: x[j] == NormAll(x, false)[j];
    }
  }

  /** An unbounded comparison of terminated strings stops at or before the
      NUL of either. */
  lemma StopAtNul(a: seq<int>, b: seq<int>, fold: bool)
    requires 0 in a && 0 in b
    ensures Stop(a, b, |a| + |b|, fold, 0) <= CLen(a)
    ensures Stop(a, b, |a| + |b|, fold, 0) <= CLen(b)
  {
  }

  /** The result of StrComp on two terminated strings. */
  function StrDiff(a: seq<int>, b: seq<int>): int
    requires 0 in a && 0 in b
  {
    StopAtNul(a, b, false);
    var k := Stop(a, b, |a| + |b|, false, 0);
    a[k] - b[k]
  }

  lemma StopSymmetric(a: seq<int>, b: seq<int>, count: nat, fold: bool)
    requires Readable(a, count) && Readable(b, count)
    ensures Stop(a, b, count, fold, 0) == Stop(b, a, count, fold, 0)
  {
    var k1, k2 := Stop(a, b, count, fold, 0), Stop(b, a, count, fold, 0);
    assert k1 <= k2;
    assert k2 <= k1;
  }

  /** StrComp is 0 exactly for equal strings. */
  lemma StrDiffZero(a: seq<int>, b: seq<int>)
    requires 0 in a && 0 in b
    ensures StrDiff(a, b) == 0 <==> CStr(a) == CStr(b)
  {
    var n := |a| + |b|;
    StopAtNul(a, b, false);
    StopWhereUptoDiffers(a, b, n, false);
    UptoOfTerminated(a, n);
    UptoOfTerminated(b, n);
    NormAllPlain(CStr(a), CStr(b));
  }

  /** Swapping the arguments of StrComp negates it. */
  lemma StrDiffAntisymmetric(a: seq<int>, b: seq<int>)
    requires 0 in a && 0 in b
    ensures StrDiff(b, a) == -StrDiff(a, b)
  {
    StopSymmetric(a, b, |a| + |b|, false);
    assert |b| + |a| == |a| + |b|;
  }

  /** StrCompA / StrCompW: compare unit by unit up to the first difference or
      the end of the first string; the result is the difference there. */
  method StrComp(a: seq<Unit>, b: seq<Unit>) returns (r: int)
    requires 0 in a && 0 in b
    ensures r == StrDiff(a, b)
  {
    StopAtNul(a, b, false);
    ghost var k := Stop(a, b, |a| + |b|, false, 0);
    var i := 0;
    while a[i] != 0 && a[i] == b[i]
      invariant i <= k
      decreases k - i
    {
      i := i + 1;
    }
    r := a[i] as int - b[i] as int;
  }

  /** The result of StrLComp: 0 when count units agree, else the difference
      where the comparison stopped. */
  function StrLDiff(a: seq<int>, b: seq<int>, count: nat): int
    requires Readable(a, count) && Readable(b, count)
  {
    var k := Stop(a, b, count, false, 0);
    if k == count then 0 else a[k] - b[k]
  }

  /** StrLComp is 0 exactly when the first count units (up to the NULs) agree. */
  lemma StrLDiffZero(a: seq<int>, b: seq<int>, count: nat)
    requires Readable(a, count) && Readable(b, count)
    ensures StrLDiff(a, b, count) == 0 <==> Upto(a, count) == Upto(b, count)
  {
    StopWhereUptoDiffers(a, b, count, false);
    NormAllPlain(Upto(a, count), Upto(b, count));
  }

  /** StrLCompA / StrLCompW. */
  method StrLComp(a: seq<Unit>, b: seq<Unit>, count: nat) returns (r: int)
    requires Readable(a, count) && Readable(b, count)
    ensures r == StrLDiff(a, b, count)
  {
    ghost var k := Stop(a, b, count, false, 0);
    var i := 0;
    var left := count;
    while left != 0 && a[i] != 0 && a[i] == b[i]
      invariant i <= k && left == count - i
      decreases k - i
    {
      i := i + 1;
      left := left - 1;
    }
    if left == 0 {
      return 0;
    }
    r := a[i] as int - b[i] as int;
  }

  /** The result of StrIComp: the folded difference where the strings
      disagree, or the raw difference where one of them ends. */
  function StrIDiff(a: seq<int>, b: seq<int>): int
    requires 0 in a && 0 in b
  {
    StopAtNul(a, b, true);
    var k := Stop(a, b, |a| + |b|, true, 0);
    if a[k] != 0 && b[k] != 0 then Fold(a[k]) - Fold(b[k]) else a[k] - b[k]
  }

  /** StrIComp is 0 exactly for strings equal after folding. */
  lemma StrIDiffZero(a: seq<int>, b: seq<int>)
    requires 0 in a && 0 in b
    ensures StrIDiff(a, b) == 0 <==> NormAll(CStr(a), true) == NormAll(CStr(b), true)
  {
    var n := |a| + |b|;
    StopAtNul(a, b, true);
    StopWhereUptoDiffers(a, b, n, true);
    UptoOfTerminated(a, n);
    UptoOfTerminated(b, n);
  }

  /** StrICompA / StrICompW. */
  method StrIComp(a: seq<Unit>, b: seq<Unit>) returns (r: int)
    requires 0 in a && 0 in b
    ensures r == StrIDiff(a, b)
  {
    StopAtNul(a, b, true);
    ghost var k := Stop(a, b, |a| + |b|, true, 0);
    var i := 0;
    while a[i] != 0 && b[i] != 0
      invariant i <= k
      decreases k - i
    {
      var c1 := Fold(a[i]);
      var c2 := Fold(b[i]);
      if c1 != c2 {
        return c1 - c2;
      }
      i := i + 1;
    }
    r := a[i] as int - b[i] as int;
  }

  /** The result of StrLIComp: 0 when count units agree after folding, else the
      folded difference where the comparison stopped. */
  function StrLIDiff(a: seq<int>, b: seq<int>, count: nat): int
    requires Readable(a, count) && Readable(b, count)
  {
    var k := Stop(a, b, count, true, 0);
    if k == count then 0 else Fold(a[k]) - Fold(b[k])
  }

  /** StrLIComp is 0 exactly when the first count units agree after folding. */
  lemma StrLIDiffZero(a: seq<int>, b: seq<int>, count: nat)
    requires Readable(a, count) && Readable(b, count)
    ensures StrLIDiff(a, b, count) == 0 <==> NormAll(Upto(a, count), true) == NormAll(Upto(b, count), true)
  {
    StopWhereUptoDiffers(a, b, count, true);
  }

  /** StrLICompA / StrLICompW. */
  method StrLIComp(a: seq<Unit>, b: seq<Unit>, count: nat) returns (r: int)
    requires Readable(a, count) && Readable(b, count)
    ensures r == StrLIDiff(a, b, count)
  {
    ghost var k := Stop(a, b, count, true, 0);
    var i := 0;
    var left := count;
    while left != 0 && a[i] != 0 && b[i] != 0
      invariant i <= k && left == count - i
      decreases k - i
    {
      var c1 := Fold(a[i]);
      var c2 := Fold(b[i]);
      if c1 != c2 {
        return c1 - c2;
      }
      i := i + 1;
      left := left - 1;
    }
    if left == 0 {
      return 0;
    }
    r := Fold(a[i]) - Fold(b[i]);
  }
}
