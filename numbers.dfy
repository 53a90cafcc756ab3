/**
  IntToStr, UIntToStr, UIntToHex, Int64ToStr, UInt64ToStr and UInt64ToHex:
  the digits are produced least significant first into a small temporary
  buffer, then copied in reverse into the caller's buffer, followed by a NUL;
  the result is the number of characters written before the NUL.
 */
module NumberText {
  import opened Words
  import opened Strings
  import opened StringCopy

  const MINUS: int := 45
  const ZERO: int := 48

  /** The character for digit d: '0'..'9', then 'a'..'f' or 'A'..'F'. */
  function DigitChar(d: nat, upper: bool): (c: int)
    requires d < 16
    ensures ZERO <= c < 0x80 && c != MINUS
  {
    if d < 10 then ZERO + d else (if upper then 65 else 97) + (d - 10)
  }

  /** The digit a character stands for, 16 for a character that is no digit. */
  function DigitValue(c: int): (d: nat)
    ensures d <= 16
  {
    if ZERO <= c < ZERO + 10 then c - ZERO
    else if 97 <= c < 103 then c - 87
    else if 65 <= c < 71 then c - 55
    else 16
  }

  lemma DigitRoundTrip(d: nat, upper: bool)
    requires d < 16
    ensures DigitValue(DigitChar(d, upper)) == d
  {
  }

  /** The value of the MSVC multi-character constant 'c0c1c2c3': the first
      character is the most significant byte. */
  function CharConst(c0: byte, c1: byte, c2: byte, c3: byte): (v: nat)
    ensures v < TWO_32
  {
    ((c0 * 256 + c1) * 256 + c2) * 256 + c3
  }

  /** The 32-bit value v as it lies in memory on a little-endian machine. */
  function Word(v: nat): (bs: seq<byte>)
    requires v < TWO_32
    ensures |bs| == 4
  {
    assert Pow256(4) == TWO_32;
    EncodeLE(v, 4)
  }

  /** A multi-character constant lies in memory with its last character first. */
  lemma WordOfCharConst(c0: byte, c1: byte, c2: byte, c3: byte)
    ensures Word(CharConst(c0, c1, c2, c3)) == [c3, c2, c1, c0]
  {
    var v2 := c0 * 256 + c1;
    var v1 := v2 * 256 + c2;
    var v := v1 * 256 + c3;
    DivModUnique(v, 256, v1, c3);
    DivModUnique(v1, 256, v2, c2);
    DivModUnique(v2, 256, c0, c1);
    DivModUnique(c0, 256, 0, c0);
    assert Pow256(4) == TWO_32;
    assert EncodeLE(v, 4) == [c3] + EncodeLE(v1, 3);
    assert EncodeLE(v1, 3) == [c2] + EncodeLE(v2, 2);
    assert EncodeLE(v2, 2) == [c1] + EncodeLE(c0, 1);
  }

  /** The 32-bit store of the multi-character constant 'c0c1c2c3' at index
      at: the characters land in reverse order. */
  method PutWord(a: array<Unit>, at: nat, c0: byte, c1: byte, c2: byte, c3: byte)
    requires at + 4 <= a.Length
    modifies a
    ensures a[at] == c3 && a[at + 1] == c2 && a[at + 2] == c1 && a[at + 3] == c0
    ensures forall k | 0 <= k < a.Length && !(at <= k < at + 4) :: a[k] == old(a[k])
  {
    var w := Word(CharConst(c0, c1, c2, c3));
    WordOfCharConst(c0, c1, c2, c3);
    a[at] := w[0];
    a[at + 1] := w[1];
    a[at + 2] := w[2];
    a[at + 3] := w[3];
  }

  /** The digit table of UIntToHex and UInt64ToHex, built from four
      multi-character constants stored as 32-bit words and a NUL: it spells
      "0123456789abcdef", or "0123456789ABCDEF" for uppercase. */
  method HexDigits(upper: bool) returns (table: array<Unit>)
    ensures fresh(table) && table.Length == 17
    ensures forall d | 0 <= d < 16 :: table[d] == DigitChar(d, upper)
    ensures table[16] == 0
  {
    table := new Unit[17];
    PutWord(table, 0, 51, 50, 49, 48);
    PutWord(table, 4, 55, 54, 53, 52);
    if upper {
      PutWord(table, 8, 66, 65, 57, 56);
      PutWord(table, 12, 70, 69, 68, 67);
    } else {
      PutWord(table, 8, 98, 97, 57, 56);
      PutWord(table, 12, 102, 101, 100, 99);
    }
    table[16] := 0;
    forall d | 0 <= d < 16
      ensures table[d] == DigitChar(d, upper)
    {
    }
  }

  /** The radix: 16 for the hexadecimal routines, 10 for the others. */
  function Base(hex: bool): nat
  {
    if hex then 16 else 10
  }

  /** n divided by the radix, and the remainder. */
  function Quot(n: nat, hex: bool): (q: nat)
    ensures n >= Base(hex) ==> 0 < q < n
    ensures n < Base(hex) ==> q == 0
  {
    if hex then n / 16 else n / 10
  }

  function Rem(n: nat, hex: bool): (r: nat)
    ensures r < Base(hex) && (n < Base(hex) ==> r == n)
  {
    if hex then n % 16 else n % 10
  }

  /** The radix times x. */
  function Scale(x: nat, hex: bool): nat
  {
    if hex then 16 * x else 10 * x
  }

  lemma Recombine(n: nat, hex: bool)
    ensures Scale(Quot(n, hex), hex) + Rem(n, hex) == n
  {
  }

  /** The digits of n in base 10 or 16, most significant first, without
      leading zeros ("0" for zero). */
  function Digits(n: nat, hex: bool, upper: bool): (s: seq<int>)
    ensures |s| >= 1
    decreases n
  {
    if n < Base(hex) then [DigitChar(n, upper)]
    else Digits(Quot(n, hex), hex, upper) + [DigitChar(Rem(n, hex), upper)]
  }

  /** The value of a digit string, most significant digit first. */
  function ValueOf(s: seq<int>, hex: bool): nat
  {
    if s == [] then 0
    else Scale(ValueOf(s[..|s| - 1], hex), hex) + DigitValue(s[|s| - 1])
  }

  /** The last digit is that of the remainder; the digits before it are those
      of the quotient. */
  lemma LastDigit(n: nat, hex: bool, upper: bool)
    ensures var s := Digits(n, hex, upper);
      && s[|s| - 1] == DigitChar(Rem(n, hex), upper)
      && (n < Base(hex) ==> |s| == 1)
      && (n >= Base(hex) ==> s[..|s| - 1] == Digits(Quot(n, hex), hex, upper))
  {
  }

  /** Reading the digits back gives the number. */
  lemma {:induction false} DigitsValue(n: nat, hex: bool, upper: bool)
    ensures ValueOf(Digits(n, hex, upper), hex) == n
    decreases n
  {
    var s := Digits(n, hex, upper);
    LastDigit(n, hex, upper);
    DigitRoundTrip(Rem(n, hex), upper);
    assert ValueOf(s, hex) == Scale(ValueOf(s[..|s| - 1], hex), hex) + Rem(n, hex);
    if n >= Base(hex) {
      DigitsValue(Quot(n, hex), hex, upper);
      Recombine(n, hex);
    } else {
      assert s[..|s| - 1] == [];
    }
  }

  /** A digit of the radix, written in the given case. */
  predicate IsDigit(c: int, hex: bool, upper: bool)
  {
    DigitValue(c) < Base(hex) && DigitChar(DigitValue(c), upper) == c
  }

  /** The digit string is canonical: every character is a digit, and the first
      is '0' only for zero. */
  lemma {:induction false} DigitsCanonical(n: nat, hex: bool, upper: bool)
    ensures forall i | 0 <= i < |Digits(n, hex, upper)| :: IsDigit(Digits(n, hex, upper)[i], hex, upper)
    ensures Digits(n, hex, upper)[0] == ZERO <==> n == 0
    decreases n
  {
    DigitRoundTrip(Rem(n, hex), upper);
    if n >= Base(hex) {
      DigitsCanonical(Quot(n, hex), hex, upper);
      var s := Digits(n, hex, upper);
      assert s[0] == Digits(Quot(n, hex), hex, upper)[0];
    } else {
      DigitRoundTrip(n, upper);
    }
  }

  /** A canonical digit string is the digit string of its value: the text is
      the only one without leading zeros. */
  lemma {:induction false} DigitsUnique(s: seq<int>, hex: bool, upper: bool)
    requires |s| >= 1 && (forall i | 0 <= i < |s| :: IsDigit(s[i], hex, upper))
    requires s[0] != ZERO || |s| == 1
    ensures Digits(ValueOf(s, hex), hex, upper) == s
    decreases |s|
  {
    var last := s[|s| - 1];
    var init := s[..|s| - 1];
    if |s| > 1 {
      DigitsUnique(init, hex, upper);
      LeadingDigitPositive(init, hex, upper);
      var n := ValueOf(s, hex);
      assert Quot(n, hex) == ValueOf(init, hex) && Rem(n, hex) == DigitValue(last);
      LastDigit(n, hex, upper);
    } else {
      assert ValueOf(s, hex) == DigitValue(last) by {
        assert s[..0] == [];
      }
    }
  }

  /** A digit string whose first digit is not zero has a positive value. */
  lemma {:induction false} LeadingDigitPositive(s: seq<int>, hex: bool, upper: bool)
    requires |s| >= 1 && (forall i | 0 <= i < |s| :: IsDigit(s[i], hex, upper)) && s[0] != ZERO
    ensures ValueOf(s, hex) > 0
    decreases |s|
  {
    if |s| > 1 {
      LeadingDigitPositive(s[..|s| - 1], hex, upper);
    } else {
      assert DigitValue(s[0]) > 0;
    }
  }

  function Pow(b: nat, k: nat): (r: nat)
    ensures b > 0 ==> r > 0
  {
    if k == 0 then 1 else b * Pow(b, k - 1)
  }

  /** A number below radix^k has at most k digits. */
  lemma {:induction false} DigitsLength(n: nat, hex: bool, upper: bool, k: nat)
    requires k >= 1 && n < Pow(Base(hex), k)
    ensures |Digits(n, hex, upper)| <= k
    decreases k
  {
    if n >= Base(hex) && k > 1 {
      assert Pow(Base(hex), k) == Scale(Pow(Base(hex), k - 1), hex);
      DigitsLength(Quot(n, hex), hex, upper, k - 1);
    }
  }

  /** The powers that bound the digit counts of the 32- and 64-bit types. */
  lemma PowerBounds()
    ensures Pow(10, 10) >= TWO_32 && Pow(10, 19) >= TWO_64 / 2 && Pow(10, 20) >= TWO_64
    ensures Pow(16, 8) == TWO_32 && Pow(16, 16) == TWO_64
  {
    assert Pow(10, 5) == 100000 by {
      assert Pow(10, 1) == 10;
      assert Pow(10, 2) == 100;
      assert Pow(10, 3) == 1000;
      assert Pow(10, 4) == 10000;
    }
    PowAdd(10, 5, 5);
    PowAdd(10, 10, 5);
    PowAdd(10, 15, 4);
    PowAdd(10, 15, 5);
    assert Pow(16, 4) == 0x1_0000 by {
      assert Pow(16, 1) == 16;
      assert Pow(16, 2) == 256;
      assert Pow(16, 3) == 4096;
    }
    PowAdd(16, 4, 4);
    PowAdd(16, 8, 8);
  }

  lemma {:induction false} PowAdd(b: nat, j: nat, k: nat)
    ensures Pow(b, j + k) == Pow(b, j) * Pow(b, k)
    decreases k
  {
    if k > 0 {
      PowAdd(b, j, k - 1);
      assert Pow(b, j + k) == b * Pow(b, j + k - 1);
    }
  }

  /** The text of a number: a '-' for a negative one, then the digits of its magnitude. */
  function Text(magnitude: nat, negative: bool, hex: bool, upper: bool): (t: seq<int>)
    ensures |t| >= 1 && 0 !in t
  {
    DigitsNoNul(magnitude, hex, upper);
    (if negative then [MINUS] else []) + Digits(magnitude, hex, upper)
  }

  lemma DigitsNoNul(n: nat, hex: bool, upper: bool)
    ensures 0 !in Digits(n, hex, upper)
  {
    DigitsCanonical(n, hex, upper);
  }

  /** The decimal text of a signed value. */
  function SignedText(v: int): (t: seq<int>)
  {
    Text(if v < 0 then -v else v, v < 0, false, false)
  }

  /** Reading a decimal text back: an optional '-', then digits. */
  function ParseSigned(t: seq<int>): int
  {
    if |t| > 0 && t[0] == MINUS then -(ValueOf(t[1..], false) as int) else ValueOf(t, false)
  }

  /** The decimal text of a value reads back as the value. */
  lemma SignedTextValue(v: int)
    ensures ParseSigned(SignedText(v)) == v
  {
    var m := if v < 0 then -v else v;
    DigitsValue(m, false, false);
    DigitsCanonical(m, false, false);
    if v < 0 {
      assert SignedText(v)[1..] == Digits(m, false, false);
    } else {
      assert IsDigit(Digits(m, false, false)[0], false, false);
      assert SignedText(v) == Digits(m, false, false);
    }
  }

  /** One turn of the conversion loop: with i digits of the number already
      produced and v left to convert, the next digit is the one the loop
      computes from v, and the quotient leaves the rest. */
  lemma DigitStep(digits: seq<int>, v: nat, hex: bool, upper: bool, i: nat)
    requires |Digits(v, hex, upper)| + i == |digits|
    requires digits[..|Digits(v, hex, upper)|] == Digits(v, hex, upper)
    ensures digits[|digits| - 1 - i] == DigitChar(Rem(v, hex), upper)
    ensures Quot(v, hex) > 0 ==> |Digits(Quot(v, hex), hex, upper)| + i + 1 == |digits|
    ensures Quot(v, hex) > 0 ==> digits[..|Digits(Quot(v, hex), hex, upper)|] == Digits(Quot(v, hex), hex, upper)
    ensures Quot(v, hex) == 0 ==> i + 1 == |digits|
  {
    var rest := Digits(v, hex, upper);
    LastDigit(v, hex, upper);
    assert digits[|digits| - 1 - i] == rest[|rest| - 1];
    if v >= Base(hex) {
      assert digits[..|rest| - 1] == rest[..|rest| - 1];
    }
  }

  /** The do-while loop of the six routines: the digits of magnitude, least
      significant first, in a fresh temporary buffer of tempSize units. */
  method ReversedDigits(magnitude: nat, hex: bool, upper: bool, tempSize: nat)
    returns (temp: array<Unit>, i: nat)
    requires |Digits(magnitude, hex, upper)| <= tempSize
    ensures fresh(temp) && temp.Length == tempSize
    ensures i == |Digits(magnitude, hex, upper)|
    ensures forall j | 0 <= j < i :: temp[j] == Digits(magnitude, hex, upper)[i - 1 - j]
  {
    ghost var digits := Digits(magnitude, hex, upper);
    var table: array<Unit>;
    if hex {
      table := HexDigits(upper);
    } else {
      table := new Unit[0];
    }
    temp := new Unit[tempSize];
    i := 0;
    var v := magnitude;
    while true
      invariant i == 0 ==> v == magnitude
      invariant i == 0 || v > 0
      invariant |Digits(v, hex, upper)| + i == |digits|
      invariant digits[..|Digits(v, hex, upper)|] == Digits(v, hex, upper)
      invariant forall j | 0 <= j < i :: temp[j] == digits[|digits| - 1 - j]
      invariant hex ==> table.Length == 17 && forall d | 0 <= d < 16 :: table[d] == DigitChar(d, upper)
      decreases v
    {
      DigitStep(digits, v, hex, upper, i);
      var digit := if hex then table[v % 16] else ZERO + v % 10;
      temp[i] := digit;
      i := i + 1;
      v := if hex then v / 16 else v / 10;
      if v == 0 {
        break;
      }
    }
  }

  /** The text read from its end is the digits read from their end, then the '-'. */
  lemma TextEnds(magnitude: nat, negative: bool, hex: bool, upper: bool)
    ensures var t, s := Text(magnitude, negative, hex, upper), Digits(magnitude, hex, upper);
      && |t| == |s| + (if negative then 1 else 0)
      && (forall j | 0 <= j < |s| :: t[|t| - |s| + j] == s[j])
      && (negative ==> t[0] == MINUS)
  {
  }

  /** The end of the six routines: the n characters in temp copied back to
      front into buf, then a NUL; the result is n. */
  method CopyBack(buf: array<Unit>, temp: array<Unit>, n: nat, ghost text: seq<int>) returns (len: int)
    requires temp != buf && n <= temp.Length && n == |text| < buf.Length
    requires forall j | 0 <= j < n :: temp[j] == text[n - 1 - j]
    modifies buf
    ensures len == n
    ensures Written(buf[..], old(buf[..]), 0, text + [0])
  {
    var i := n;
    var p := 0;
    while i > 0
      invariant 0 <= i && p + i == n
      invariant Written(buf[..], old(buf[..]), 0, text[..p])
      decreases i
    {
      i := i - 1;
      ghost var prev := buf[..];
      buf[p] := temp[i];
      WrittenStep(buf[..], prev, old(buf[..]), 0, text[..p], text[p]);
      assert text[..p] + [text[p]] == text[..p + 1];
      p := p + 1;
    }
    assert text[..p] == text;
    ghost var prev := buf[..];
    buf[p] := 0;
    WrittenStep(buf[..], prev, old(buf[..]), 0, text, 0);
    len := p;
  }

  /** The characters of the text, last first, in a fresh temporary buffer:
      the digits least significant first, then the '-' of a negative value. */
  method ReversedText(magnitude: nat, negative: bool, hex: bool, upper: bool, tempSize: nat)
    returns (temp: array<Unit>, n: nat)
    requires |Text(magnitude, negative, hex, upper)| <= tempSize
    ensures fresh(temp) && temp.Length == tempSize
    ensures n == |Text(magnitude, negative, hex, upper)|
    ensures forall j | 0 <= j < n :: temp[j] == Text(magnitude, negative, hex, upper)[n - 1 - j]
  {
    ghost var text := Text(magnitude, negative, hex, upper);
    ghost var digits := Digits(magnitude, hex, upper);
    TextEnds(magnitude, negative, hex, upper);
    temp, n := ReversedDigits(magnitude, hex, upper, tempSize);
    forall j | 0 <= j < n
      ensures temp[j] == text[|text| - 1 - j]
    {
      assert text[|text| - |digits| + (n - 1 - j)] == digits[n - 1 - j];
    }
    if negative {
      temp[n] := MINUS;
      n := n + 1;
    }
  }

  /** The conversion shared by the six routines. */
  method Format(buf: array<Unit>, magnitude: nat, negative: bool, hex: bool, upper: bool, tempSize: nat)
    returns (len: int)
    requires |Text(magnitude, negative, hex, upper)| <= tempSize
    requires |Text(magnitude, negative, hex, upper)| < buf.Length
    modifies buf
    ensures len == |Text(magnitude, negative, hex, upper)|
    ensures Written(buf[..], old(buf[..]), 0, Text(magnitude, negative, hex, upper) + [0])
  {
    var temp, n := ReversedText(magnitude, negative, hex, upper, tempSize);
    len := CopyBack(buf, temp, n, Text(magnitude, negative, hex, upper));
  }

  /** IntToStr: the decimal text of a 32-bit value other than INT_MIN. */
  method IntToStr(buf: array<Unit>, value: int) returns (len: int)
    requires -0x8000_0000 < value < 0x8000_0000
    requires |SignedText(value)| < buf.Length
    modifies buf
    ensures len == |SignedText(value)|
    ensures Written(buf[..], old(buf[..]), 0, SignedText(value) + [0])
  {
    var negative := false;
    var v := value;
    if v < 0 {
      negative := true;
      v := -v;
    }
    PowerBounds();
    DigitsLength(v, false, false, 10);
    len := Format(buf, v, negative, false, false, 12);
  }

  /** UIntToStr: the decimal text of an unsigned 32-bit value. */
  method UIntToStr(buf: array<Unit>, value: u32) returns (len: int)
    requires |Digits(value, false, false)| < buf.Length
    modifies buf
    ensures len == |Digits(value, false, false)|
    ensures Written(buf[..], old(buf[..]), 0, Digits(value, false, false) + [0])
  {
    PowerBounds();
    DigitsLength(value, false, false, 10);
    len := Format(buf, value, false, false, false, 11);
    assert Text(value, false, false, false) == Digits(value, false, false);
  }

  /** UIntToHex: the lowercase hexadecimal text of an unsigned 32-bit value. */
  method UIntToHex(buf: array<Unit>, value: u32) returns (len: int)
    requires |Digits(value, true, false)| < buf.Length
    modifies buf
    ensures len == |Digits(value, true, false)|
    ensures Written(buf[..], old(buf[..]), 0, Digits(value, true, false) + [0])
  {
    PowerBounds();
    DigitsLength(value, true, false, 8);
    len := Format(buf, value, false, true, false, 9);
    assert Text(value, false, true, false) == Digits(value, true, false);
  }

  /** Int64ToStr: the decimal text of a 64-bit value other than LLONG_MIN. */
  method Int64ToStr(buf: array<Unit>, value: int) returns (len: int)
    requires -0x8000_0000_0000_0000 < value < 0x8000_0000_0000_0000
    requires |SignedText(value)| < buf.Length
    modifies buf
    ensures len == |SignedText(value)|
    ensures Written(buf[..], old(buf[..]), 0, SignedText(value) + [0])
  {
    var negative := false;
    var v := value;
    if v < 0 {
      negative := true;
      v := -v;
    }
    PowerBounds();
    DigitsLength(v, false, false, 19);
    len := Format(buf, v, negative, false, false, 21);
  }

  /** UInt64ToStr: the decimal text of an unsigned 64-bit value. */
  method UInt64ToStr(buf: array<Unit>, value: Addr) returns (len: int)
    requires |Digits(value, false, false)| < buf.Length
    modifies buf
    ensures len == |Digits(value, false, false)|
    ensures Written(buf[..], old(buf[..]), 0, Digits(value, false, false) + [0])
  {
    PowerBounds();
    DigitsLength(value, false, false, 20);
    len := Format(buf, value, false, false, false, 21);
    assert Text(value, false, false, false) == Digits(value, false, false);
  }

  /** UInt64ToHex: the hexadecimal text of an unsigned 64-bit value, in the
      requested case. */
  method UInt64ToHex(buf: array<Unit>, value: Addr, uppercase: bool) returns (len: int)
    requires |Digits(value, true, uppercase)| < buf.Length
    modifies buf
    ensures len == |Digits(value, true, uppercase)|
    ensures Written(buf[..], old(buf[..]), 0, Digits(value, true, uppercase) + [0])
  {
    PowerBounds();
    DigitsLength(value, true, uppercase, 16);
    len := Format(buf, value, false, true, uppercase, 17);
    assert Text(value, false, true, uppercase) == Digits(value, true, uppercase);
  }
}
