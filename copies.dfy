/**
  Copying and concatenating NUL-terminated strings: StrCopy, StrNCopy, the
  size-checked StrCopySafe and StrNCopySafe, StrCat, StrNCat and the
  size-checked StrCatSafe and StrNCatSafe (A and W variants alike).

  Each routine is described by what it writes: a run of units `w` stored at
  index `at` of the destination, every other unit unchanged. The checked
  variants also return a code, 0 for success and 1 for failure.
 */
module StringCopy {
  import opened Words
  import opened Strings

  /** d' is d with the units w written from index at on. */
  predicate Written(d': seq<int>, d: seq<int>, at: nat, w: seq<int>)
  {
    && |d'| == |d| && at + |w| <= |d|
    && (forall j | 0 <= j < |d| && !(at <= j < at + |w|) :: d'[j] == d[j])
    && (forall j | 0 <= j < |w| :: d'[at + j] == w[j])
  }

  /** Writing one more unit right after the run extends the run. */
  lemma WrittenStep(d'': seq<int>, d': seq<int>, d: seq<int>, at: nat, w: seq<int>, x: int)
    requires Written(d', d, at, w) && at + |w| < |d| && d'' == d'[at + |w| := x]
    ensures Written(d'', d, at, w + [x])
  {
  }

  /** Writing a NUL-terminated run at the end of a NUL-free prefix makes the
      prefix followed by the run the new string. */
  lemma WrittenString(d': seq<int>, d: seq<int>, at: nat, t: seq<int>)
    requires Written(d', d, at, t + [0])
    requires 0 !in d[..at] && 0 !in t
    ensures 0 in d' && CStr(d') == d[..at] + t
  {
    assert d'[at + |t|] == (t + [0])[|t|] == 0;
    forall j | 0 <= j < at + |t|
      ensures d'[j] == (d[..at] + t)[j] && d'[j] != 0
    {
      if j < at {
        assert d[..at][j] == d[j];
      } else {
        assert d'[at + (j - at)] == (t + [0])[j - at];
      }
    }
    assert CLen(d') == at + |t|;
  }

  /** The copying routines on a NUL-terminated source, as a result value. */
  datatype Outcome = Outcome(code: int, at: nat, written: seq<int>)

  // ---- StrCopy / StrNCopy -----------------------------------------------------

  /** StrCopyA / StrCopyW: copies the string and its NUL. */
  method StrCopy(dest: array<Unit>, src: seq<Unit>)
    requires 0 in src && CLen(src) < dest.Length
    modifies dest
    ensures Written(dest[..], old(dest[..]), 0, CStr(src) + [0])
  {
    var i := 0;
    while true
      invariant i <= CLen(src)
      invariant Written(dest[..], old(dest[..]), 0, src[..i])
      decreases CLen(src) - i
    {
      ghost var prev := dest[..];
      dest[i] := src[i];
      WrittenStep(dest[..], prev, old(dest[..]), 0, src[..i], src[i]);
      assert src[..i] + [src[i]] == src[..i + 1];
      if src[i] == 0 {
        assert src[..i + 1] == CStr(src) + [0];
        break;
      }
      i := i + 1;
    }
  }

  /** After StrCopy the destination holds the source string. */
  lemma StrCopyResult(d': seq<int>, d: seq<int>, src: seq<int>)
    requires 0 in src && Written(d', d, 0, CStr(src) + [0])
    ensures 0 in d' && CStr(d') == CStr(src)
  {
    WrittenString(d', d, 0, CStr(src));
  }

  /** StrNCopyA / StrNCopyW: copies at most maxLen units, stopping at the NUL,
      then always writes a NUL after them. */
  method StrNCopy(dest: array<Unit>, src: seq<Unit>, maxLen: nat)
    requires Readable(src, maxLen) && NLen(src, maxLen) < dest.Length
    modifies dest
    ensures Written(dest[..], old(dest[..]), 0, src[..NLen(src, maxLen)] + [0])
  {
    var len := 0;
    while len < maxLen && src[len] != 0
      invariant len <= NLen(src, maxLen)
      invariant Written(dest[..], old(dest[..]), 0, src[..len])
      decreases maxLen - len
    {
      ghost var prev := dest[..];
      dest[len] := src[len];
      WrittenStep(dest[..], prev, old(dest[..]), 0, src[..len], src[len]);
      assert src[..len] + [src[len]] == src[..len + 1];
      len := len + 1;
    }
    dest[len] := 0;
    assert len == NLen(src, maxLen);
  }

  /** After StrNCopy the destination holds the first NLen(src, maxLen) units of the source. */
  lemma StrNCopyResult(d': seq<int>, d: seq<int>, src: seq<int>, maxLen: nat)
    requires Readable(src, maxLen) && Written(d', d, 0, src[..NLen(src, maxLen)] + [0])
    ensures 0 in d' && CStr(d') == src[..NLen(src, maxLen)]
  {
    WrittenString(d', d, 0, src[..NLen(src, maxLen)]);
  }

  // ---- StrCopySafe --------------------------------------------------------------

  /** StrCopySafe as the source writes it: the copy loop runs while a unit and
      the NUL still fit, a source that does not end there fails with 1 (the
      units copied so far stay, unterminated), and otherwise the NUL is
      written. With a destination size of 0 and an empty source, the NUL is
      written at index 0, outside the destination. */
  function CopySafeAsWritten(destSize: nat, src: seq<int>): (o: Outcome)
    requires Readable(src, if destSize == 0 then 1 else destSize)
    ensures o.at == 0
  {
    var i := if destSize == 0 then 0 else NLen(src, destSize - 1);
    if destSize == 0 then
      if src[0] != 0 then Outcome(1, 0, []) else Outcome(0, 0, [0])
    else if src[i] != 0 then Outcome(1, 0, src[..i])
    else Outcome(0, 0, src[..i] + [0])
  }

  /** A zero-sized destination receives a NUL. */
  lemma CopySafeWritesIntoEmptyBuffer()
    ensures CopySafeAsWritten(0, [0]) == Outcome(0, 0, [0])
    ensures |CopySafeAsWritten(0, [0]).written| > 0
  {
  }

  /** StrCopySafe with the empty destination refused: nothing is written and the result is 1. */
  function CopySafe(destSize: nat, src: seq<int>): (o: Outcome)
    requires Readable(src, destSize)
    ensures o.at == 0 && |o.written| <= destSize
    ensures o.code == 0 <==> NLen(src, destSize) < destSize
    ensures o.code == 0 ==> o.written == src[..NLen(src, destSize)] + [0]
    ensures o.code == 1 ==> o.written == src[..NLen(src, if destSize == 0 then 0 else destSize - 1)]
  {
    if destSize == 0 then Outcome(1, 0, [])
    else
      var i := NLen(src, destSize - 1);
      NLenStep(src, destSize - 1);
      if src[i] != 0 then Outcome(1, 0, src[..i])
      else Outcome(0, 0, src[..i] + [0])
  }

  /** NLen one unit further: either the NUL came first, or one more unit counts. */
  lemma NLenStep(s: seq<int>, max: nat)
    requires Readable(s, max + 1)
    ensures NLen(s, max) < |s|
    ensures NLen(s, max + 1) == if s[NLen(s, max)] == 0 || NLen(s, max) < max then NLen(s, max) else max + 1
  {
    var n, n' := NLen(s, max), NLen(s, max + 1);
    assert n < |s|;
    if n < max {
      assert s[n] == 0;
    }
    assert n' >= n;
  }

  /** On a non-empty destination the correction changes nothing. */
  lemma CopySafeAgrees(destSize: nat, src: seq<int>)
    requires destSize > 0 && Readable(src, destSize)
    ensures CopySafe(destSize, src) == CopySafeAsWritten(destSize, src)
  {
  }

  /** StrCopySafeA / StrCopySafeW, with the empty destination refused. */
  method StrCopySafe(dest: array<Unit>, destSize: nat, src: seq<Unit>) returns (code: int)
    requires destSize <= dest.Length && Readable(src, destSize)
    modifies dest
    ensures code == CopySafe(destSize, src).code
    ensures Written(dest[..], old(dest[..]), 0, CopySafe(destSize, src).written)
  {
    if destSize == 0 {
      return 1;
    }
    NLenStep(src, destSize - 1);
    var i := 0;
    while i + 1 < destSize && src[i] != 0
      invariant i <= NLen(src, destSize - 1)
      invariant Written(dest[..], old(dest[..]), 0, src[..i])
      decreases destSize - i
    {
      ghost var prev := dest[..];
      dest[i] := src[i];
      WrittenStep(dest[..], prev, old(dest[..]), 0, src[..i], src[i]);
      assert src[..i] + [src[i]] == src[..i + 1];
      i := i + 1;
    }
    assert i == NLen(src, destSize - 1);
    if src[i] != 0 {
      return 1;
    }
    dest[i] := 0;
    assert CopySafe(destSize, src).written == src[..i] + [0];
    return 0;
  }

  /** A successful StrCopySafe leaves the source string in the destination. */
  lemma StrCopySafeResult(d': seq<int>, d: seq<int>, destSize: nat, src: seq<int>)
    requires Readable(src, destSize) && Written(d', d, 0, CopySafe(destSize, src).written)
    ensures CopySafe(destSize, src).code == 0 ==>
      0 in src && CLen(src) < destSize && 0 in d' && CStr(d') == CStr(src)
  {
    if CopySafe(destSize, src).code == 0 {
      var n := NLen(src, destSize);
      NLenOfTerminated(src, destSize);
      WrittenString(d', d, 0, src[..n]);
    }
  }

  // ---- StrNCopySafe -------------------------------------------------------------

  /** StrNCopySafe: copies at most maxLen units and at most destSize - 1, then
      writes a NUL and returns 0 (a long source is cut short); only a
      destination size of 0 fails, with 1 and nothing written. */
  function NCopySafe(destSize: nat, src: seq<int>, maxLen: nat): (o: Outcome)
    requires destSize > 0 ==> Readable(src, Min(maxLen, destSize - 1))
    ensures o.at == 0 && |o.written| <= destSize
    ensures o.code == 1 <==> destSize == 0
  {
    if destSize == 0 then Outcome(1, 0, [])
    else
      var i := NLen(src, Min(maxLen, destSize - 1));
      Outcome(0, 0, src[..i] + [0])
  }

  function Min(x: nat, y: nat): (z: nat)
    ensures z <= x && z <= y && (z == x || z == y)
  {
    if x <= y then x else y
  }

  /** StrNCopySafeA / StrNCopySafeW. */
  method StrNCopySafe(dest: array<Unit>, destSize: nat, src: seq<Unit>, maxLen: nat) returns (code: int)
    requires destSize <= dest.Length
    requires destSize > 0 ==> Readable(src, Min(maxLen, destSize - 1))
    modifies dest
    ensures code == NCopySafe(destSize, src, maxLen).code
    ensures Written(dest[..], old(dest[..]), 0, NCopySafe(destSize, src, maxLen).written)
  {
    ghost var n := if destSize == 0 then 0 else NLen(src, Min(maxLen, destSize - 1));
    var i := 0;
    while i < maxLen && i + 1 < destSize && src[i] != 0
      invariant i <= n
      invariant Written(dest[..], old(dest[..]), 0, src[..i])
      decreases destSize - i
    {
      ghost var prev := dest[..];
      dest[i] := src[i];
      WrittenStep(dest[..], prev, old(dest[..]), 0, src[..i], src[i]);
      assert src[..i] + [src[i]] == src[..i + 1];
      i := i + 1;
    }
    if i == destSize {
      return 1;
    }
    dest[i] := 0;
    return 0;
  }

  /** A successful StrNCopySafe leaves in the destination the source cut to
      maxLen units and to what fits before the NUL. */
  lemma StrNCopySafeResult(d': seq<int>, d: seq<int>, destSize: nat, src: seq<int>, maxLen: nat)
    requires destSize > 0 && Readable(src, Min(maxLen, destSize - 1))
    requires Written(d', d, 0, NCopySafe(destSize, src, maxLen).written)
    ensures 0 in d' && CStr(d') == Upto(src, Min(maxLen, destSize - 1))
    ensures |CStr(d')| < destSize
  {
    WrittenString(d', d, 0, src[..NLen(src, Min(maxLen, destSize - 1))]);
  }

  // ---- StrCat / StrNCat ---------------------------------------------------------

  /** StrCatA / StrCatW: copies the source string and its NUL over the
      destination's NUL. */
  method StrCat(dest: array<Unit>, src: seq<Unit>)
    requires 0 in dest[..] && 0 in src && CLen(dest[..]) + CLen(src) < dest.Length
    modifies dest
    ensures Written(dest[..], old(dest[..]), CLen(old(dest[..])), CStr(src) + [0])
  {
    var end := 0;
    while dest[end] != 0
      invariant end <= CLen(dest[..])
      decreases CLen(dest[..]) - end
    {
      end := end + 1;
    }
    var i := 0;
    while true
      invariant i <= CLen(src)
      invariant Written(dest[..], old(dest[..]), end, src[..i])
      decreases CLen(src) - i
    {
      ghost var prev := dest[..];
      dest[end + i] := src[i];
      WrittenStep(dest[..], prev, old(dest[..]), end, src[..i], src[i]);
      assert src[..i] + [src[i]] == src[..i + 1];
      if src[i] == 0 {
        assert src[..i + 1] == CStr(src) + [0];
        break;
      }
      i := i + 1;
    }
  }

  /** After StrCat the destination string is the old one followed by the source string. */
  lemma StrCatResult(d': seq<int>, d: seq<int>, src: seq<int>)
    requires 0 in d && 0 in src && Written(d', d, CLen(d), CStr(src) + [0])
    ensures 0 in d' && CStr(d') == CStr(d) + CStr(src)
  {
    WrittenString(d', d, CLen(d), CStr(src));
  }

  /** StrNCatA / StrNCatW: appends at most count units of the source, then a NUL. */
  method StrNCat(dest: array<Unit>, src: seq<Unit>, count: nat)
    requires 0 in dest[..] && Readable(src, count) && CLen(dest[..]) + NLen(src, count) < dest.Length
    modifies dest
    ensures Written(dest[..], old(dest[..]), CLen(old(dest[..])), src[..NLen(src, count)] + [0])
  {
    var end := 0;
    while dest[end] != 0
      invariant end <= CLen(dest[..])
      decreases CLen(dest[..]) - end
    {
      end := end + 1;
    }
    var i := 0;
    while i < count && src[i] != 0
      invariant i <= NLen(src, count)
      invariant Written(dest[..], old(dest[..]), end, src[..i])
      decreases count - i
    {
      ghost var prev := dest[..];
      dest[end + i] := src[i];
      WrittenStep(dest[..], prev, old(dest[..]), end, src[..i], src[i]);
      assert src[..i] + [src[i]] == src[..i + 1];
      i := i + 1;
    }
    dest[end + i] := 0;
    assert i == NLen(src, count);
  }

  /** After StrNCat the destination string is the old one followed by at most
      count units of the source. */
  lemma StrNCatResult(d': seq<int>, d: seq<int>, src: seq<int>, count: nat)
    requires 0 in d && Readable(src, count) && Written(d', d, CLen(d), src[..NLen(src, count)] + [0])
    ensures 0 in d' && CStr(d') == CStr(d) + Upto(src, count)
  {
    WrittenString(d', d, CLen(d), src[..NLen(src, count)]);
  }

  // ---- StrCatSafe / StrNCatSafe ---------------------------------------------------

  /** How many source units the checked concatenation copies: at most count,
      and as many as fit before the NUL. */
  function CatRoom(d: seq<int>, destSize: nat, count: nat): nat
    requires destSize <= |d| && NLen(d, destSize) < destSize
  {
    Min(count, destSize - NLen(d, destSize) - 1)
  }

  /** StrCatSafe and StrNCatSafe as the source writes them. A destination
      with no NUL within destSize fails with 1; otherwise the units that fit
      are appended, the NUL is written, and the size check that follows can
      no longer fail, so a source cut short still yields 0. StrCatSafe is
      this with no count limit. */
  function CatSafeAsWritten(d: seq<int>, destSize: nat, src: seq<int>, count: nat): (o: Outcome)
    requires destSize <= |d|
    requires NLen(d, destSize) < destSize ==> Readable(src, CatRoom(d, destSize, count))
    ensures o.code == 1 <==> NLen(d, destSize) == destSize
    ensures NLen(d, destSize) == destSize ==> o.written == []
    ensures NLen(d, destSize) < destSize ==>
      o.at == NLen(d, destSize) && o.written == src[..NLen(src, CatRoom(d, destSize, count))] + [0]
  {
    var destLen := NLen(d, destSize);
    if destLen == destSize then Outcome(1, 0, [])
    else
      var i := NLen(src, CatRoom(d, destSize, count));
      if destLen + i >= destSize then Outcome(1, destLen, [])
      else Outcome(0, destLen, src[..i] + [0])
  }

  /** Appending "ab" to an empty string in a 2-unit buffer keeps only "a", yet reports success. */
  lemma CatSafeTruncationUnreported()
    ensures CatSafeAsWritten([0, 0], 2, [97, 98, 0], 3) == Outcome(0, 0, [97, 0])
    ensures CatSafe([0, 0], 2, [97, 98, 0], 3) == Outcome(1, 0, [97, 0])
  {
    assert NLen([0, 0], 2) == 0;
    assert NLen([97, 98, 0], 1) == 1;
  }

  /** StrCatSafe and StrNCatSafe reporting the truncation: the same units are
      written, and the result is 1 also when the source still had units to
      append (within count) that did not fit. */
  function CatSafe(d: seq<int>, destSize: nat, src: seq<int>, count: nat): (o: Outcome)
    requires destSize <= |d|
    requires NLen(d, destSize) < destSize ==> Readable(src, count)
    ensures o.at + |o.written| <= destSize
    ensures o.code == 1 <==>
      NLen(d, destSize) == destSize || NLen(src, count) > CatRoom(d, destSize, count)
    ensures NLen(d, destSize) == destSize ==> o.written == []
    ensures NLen(d, destSize) < destSize ==>
      o.at == NLen(d, destSize) && o.written == src[..NLen(src, CatRoom(d, destSize, count))] + [0]
  {
    var destLen := NLen(d, destSize);
    if destLen == destSize then Outcome(1, 0, [])
    else
      var room := CatRoom(d, destSize, count);
      var i := NLen(src, room);
      CutShort(src, room, count);
      Outcome(if i < count && src[i] != 0 then 1 else 0, destLen, src[..i] + [0])
  }

  /** The copy stopped at room with source units still to go (within count)
      exactly when the count-limited source is longer than room. */
  lemma CutShort(src: seq<int>, room: nat, count: nat)
    requires room <= count && Readable(src, count)
    ensures NLen(src, room) < count ==> NLen(src, room) < |src|
    ensures (NLen(src, room) < count && src[NLen(src, room)] != 0) <==> NLen(src, count) > room
  {
    var i, n := NLen(src, room), NLen(src, count);
    if i < room {
      assert src[i] == 0;
      NLenUpTo(src, room, count);
    } else if i < count {
      assert i < |src| by {
        if 0 in src {
          NLenOfTerminated(src, room);
        }
      }
      if src[i] == 0 {
        NLenUpTo(src, room, count);
      } else {
        assert n > room;
      }
    }
  }

  /** The correction only changes the code, and only for a source cut short. */
  lemma CatSafeAgrees(d: seq<int>, destSize: nat, src: seq<int>, count: nat)
    requires destSize <= |d|
    requires NLen(d, destSize) < destSize ==> Readable(src, count)
    ensures var o, w := CatSafe(d, destSize, src, count), CatSafeAsWritten(d, destSize, src, count);
      && o.at == w.at && o.written == w.written
      && (o.code == w.code || (w.code == 0 && o.code == 1))
  {
  }

  /** A successful checked concatenation appends the whole source (up to count)
      and leaves a NUL-terminated string within destSize. */
  lemma CatSafeResult(d': seq<int>, d: seq<int>, destSize: nat, src: seq<int>, count: nat)
    requires destSize <= |d|
    requires NLen(d, destSize) < destSize ==> Readable(src, count)
    requires Written(d', d, CatSafe(d, destSize, src, count).at, CatSafe(d, destSize, src, count).written)
    ensures CatSafe(d, destSize, src, count).code == 0 ==>
      0 in d && 0 in d' && CStr(d') == CStr(d) + Upto(src, count) && CLen(d') < destSize
  {
    var o := CatSafe(d, destSize, src, count);
    if o.code == 0 {
      var destLen := NLen(d, destSize);
      NLenOfTerminated(d, destSize);
      var room := CatRoom(d, destSize, count);
      var i := NLen(src, room);
      assert NLen(src, count) == i by {
        NLenUpTo(src, room, count);
      }
      WrittenString(d', d, destLen, src[..i]);
    }
  }

  /** Raising the limit past a stop at a NUL (or at the old limit when the
      new unit is a NUL or the limit equals count) does not change NLen. */
  lemma NLenUpTo(s: seq<int>, small: nat, large: nat)
    requires small <= large && Readable(s, large)
    requires NLen(s, small) < small || NLen(s, small) == large || (NLen(s, small) < |s| && s[NLen(s, small)] == 0)
    ensures NLen(s, large) == NLen(s, small)
  {
    var n, n' := NLen(s, small), NLen(s, large);
    assert n' >= n;
    if n < large {
      assert s[n] == 0;
    }
  }

  /** StrCatSafeA / StrCatSafeW, reporting truncation. */
  method StrCatSafe(dest: array<Unit>, destSize: nat, src: seq<Unit>) returns (code: int)
    requires destSize <= dest.Length && 0 in src
    modifies dest
    ensures code == CatSafe(old(dest[..]), destSize, src, |src|).code
    ensures Written(dest[..], old(dest[..]), CatSafe(old(dest[..]), destSize, src, |src|).at,
                    CatSafe(old(dest[..]), destSize, src, |src|).written)
  {
    code := CatSafeLoop(dest, destSize, src, |src|, false);
  }

  /** StrNCatSafeA / StrNCatSafeW, reporting truncation. */
  method StrNCatSafe(dest: array<Unit>, destSize: nat, src: seq<Unit>, count: nat) returns (code: int)
    requires destSize <= dest.Length && Readable(src, count)
    modifies dest
    ensures code == CatSafe(old(dest[..]), destSize, src, count).code
    ensures Written(dest[..], old(dest[..]), CatSafe(old(dest[..]), destSize, src, count).at,
                    CatSafe(old(dest[..]), destSize, src, count).written)
  {
    code := CatSafeLoop(dest, destSize, src, count, true);
  }

  /** The length scan of the checked concatenation: the index of the first
      NUL among the first destSize units, or destSize. */
  method BoundedLength(dest: array<Unit>, destSize: nat) returns (n: nat)
    requires destSize <= dest.Length
    ensures n == NLen(dest[..], destSize)
  {
    n := 0;
    while n < destSize && dest[n] != 0
      invariant n <= NLen(dest[..], destSize)
      decreases destSize - n
    {
      n := n + 1;
    }
  }

  /** The loops shared by StrCatSafe and StrNCatSafe; only StrNCatSafe tests
      count in its copy loop (StrCatSafe's count, the source length, is never
      reached before the NUL). */
  method CatSafeLoop(dest: array<Unit>, destSize: nat, src: seq<Unit>, count: nat, limited: bool) returns (code: int)
    requires destSize <= dest.Length && Readable(src, count)
    requires !limited ==> 0 in src && count == |src|
    modifies dest
    ensures code == CatSafe(old(dest[..]), destSize, src, count).code
    ensures Written(dest[..], old(dest[..]), CatSafe(old(dest[..]), destSize, src, count).at,
                    CatSafe(old(dest[..]), destSize, src, count).written)
  {
    ghost var d := dest[..];
    var destLen := BoundedLength(dest, destSize);
    if destLen == destSize {
      assert Written(dest[..], d, 0, []);
      return 1;
    }
    ghost var room := CatRoom(d, destSize, count);
    ghost var n := NLen(src, room);
    var i := 0;
    while (!limited || i < count) && destLen + i + 1 < destSize && src[i] != 0
      invariant i <= n
      invariant Written(dest[..], d, destLen, src[..i])
      decreases destSize - i
    {
      ghost var prev := dest[..];
      dest[destLen + i] := src[i];
      WrittenStep(dest[..], prev, d, destLen, src[..i], src[i]);
      assert src[..i] + [src[i]] == src[..i + 1];
      i := i + 1;
    }
    assert i == n;
    dest[destLen + i] := 0;
    assert src[..i] + [0] == (src[..i] + [0]);
    if i < count && src[i] != 0 {
      return 1;
    }
    return 0;
  }
}
