/** Printing and parsing of 64-bit numbers (lab2/misc.c): what is printed parses
    back, and parsing clamps digit strings of any length to the exact range. */
module NumberText {
  import opened Pow2

  // 2^64 - 1 and 2^63 - 1.
  const ULL_MAX: nat := 0xFFFF_FFFF_FFFF_FFFF
  const LL_MAX: nat := 0x7FFF_FFFF_FFFF_FFFF
  const LL_MIN: int := -0x8000_0000_0000_0000

  // ---- digits ----

  /** The value of a digit or letter; 36 for any other character. */
  function DigitVal(c: char): (d: nat)
    ensures d <= 36
  {
    if '0' <= c <= '9' then c as int - '0' as int
    else if 'a' <= c <= 'z' then c as int - 'a' as int + 10
    else if 'A' <= c <= 'Z' then c as int - 'A' as int + 10
    else 36
  }

  /** The lower-case digit of a value. */
  function Digit(d: nat): (c: char)
    requires d < 36
    ensures DigitVal(c) == d
  {
    if d < 10 then ('0' as int + d) as char else ('a' as int + d - 10) as char
  }

  predicate AllDigits(s: string, b: nat) {
    forall k :: 0 <= k < |s| ==> DigitVal(s[k]) < b
  }

  /** The number n with one more digit c behind it. */
  function Next(n: nat, b: nat, c: nat): nat {
    n * b + c
  }

  /** The number written by digits, most significant first. */
  function NatOf(s: string, b: nat): nat
    requires AllDigits(s, b)
  {
    if s == "" then 0 else Next(NatOf(s[..|s| - 1], b), b, DigitVal(s[|s| - 1]))
  }

  /** The digits of a number, without leading zeros. */
  function Text(v: nat, b: nat): (s: string)
    requires 2 <= b <= 36
    ensures |s| >= 1
  {
    if v < b then [Digit(v)] else assert v / b < v by { Smaller(v, b); } Text(v / b, b) + [Digit(v % b)]
  }

  lemma Smaller(v: nat, b: nat)
    requires v >= b >= 2
    ensures 0 < v / b < v
  {
    var q, r := v / b, v % b;
    assert v == q * b + r;
    MulMonotone(q, b);
    Distribute(b - 1, 1, q);
    assert q >= 1 ==> (b - 1) * q >= q by {
      if q >= 1 { MulMonotone(b - 1, q); }
    }
    assert q * b == b * q;
  }

  lemma Euclid(v: nat, b: nat)
    requires b > 0
    ensures Next(v / b, b, v % b) == v
  {
  }

  lemma {:induction false} NatSnoc(s: string, c: char, b: nat)
    requires AllDigits(s, b) && DigitVal(c) < b
    ensures AllDigits(s + [c], b) && NatOf(s + [c], b) == Next(NatOf(s, b), b, DigitVal(c))
  {
    assert (s + [c])[..|s|] == s;
  }

  /** Reading the digits of a number gives the number. */
  lemma {:induction false} TextReads(v: nat, b: nat)
    requires 2 <= b <= 36
    ensures AllDigits(Text(v, b), b) && NatOf(Text(v, b), b) == v
  {
    if v < b {
      NatSnoc("", Digit(v), b);
      assert "" + [Digit(v)] == [Digit(v)];
    } else {
      Smaller(v, b);
      TextReads(v / b, b);
      var s, q := Text(v / b, b), v / b;
      NatSnoc(s, Digit(v % b), b);
      Euclid(v, b);
    }
  }

  /** Only zero is written with a leading zero. */
  lemma {:induction false} TextStarts(v: nat, b: nat)
    requires 2 <= b <= 36
    ensures Text(v, b)[0] == '0' ==> v == 0
    ensures DigitVal(Text(v, b)[0]) < b
    ensures v < b ==> |Text(v, b)| == 1
  {
    if v >= b {
      Smaller(v, b);
      TextStarts(v / b, b);
      assert Text(v, b)[0] == Text(v / b, b)[0];
    }
  }

  function Power(b: nat, k: nat): nat {
    if k == 0 then 1 else Power(b, k - 1) * b
  }

  lemma {:induction false} TextLength(v: nat, b: nat, k: nat)
    requires 2 <= b <= 36 && k >= 1 && v < Power(b, k)
    ensures |Text(v, b)| <= k
  {
    if v >= b {
      Smaller(v, b);
      assert k != 1 by { assert Power(b, 1) == Power(b, 0) * b; }
      Quotient(v, b, Power(b, k - 1));
      TextLength(v / b, b, k - 1);
    }
  }

  lemma Quotient(v: nat, b: nat, p: nat)
    requires b > 0 && v < p * b
    ensures v / b < p
  {
    var q, r := v / b, v % b;
    assert v == q * b + r;
    Distribute(q, p, b);
    MulMonotone(q - p, b);
  }

  // ---- machine arithmetic ----

  /** Conversion to a 32-bit signed int. */
  function Int32(x: int): (r: int)
    ensures -0x8000_0000 <= r < 0x8000_0000
  {
    (x + 0x8000_0000) % 0x1_0000_0000 - 0x8000_0000
  }

  /** The decimal digit computed from numbers cut to 32 bits is the true digit. */
  lemma TruncatedDigit(q: nat)
    ensures Int32(Int32(q) - Int32(Int32(q / 10) * 10)) == q % 10
  {
    var i := CutBy(q);
    var j := CutBy(q / 10);
    var k := CutBy(Int32(q / 10) * 10);
    CutIs(Int32(q) - Int32(Int32(q / 10) * 10), 10 * j + k - i, q % 10);
  }

  lemma CutBy(x: int) returns (k: int)
    ensures Int32(x) == x - k * 0x1_0000_0000
  {
    k := (x + 0x8000_0000) / 0x1_0000_0000;
  }

  lemma CutIs(x: int, k: int, d: nat)
    requires x == d + k * 0x1_0000_0000 && d < 10
    ensures Int32(x) == d
  {
    DivModUnique(x + 0x8000_0000, 0x1_0000_0000, k, d + 0x8000_0000);
  }

  /** _lowdigit: the last digit, and the value divided by ten, of a 64-bit word. */
  lemma LowDigit(v: nat)
    ensures (v / 2) / 5 == v / 10 && (v / 2) % 5 * 2 + v % 2 == v % 10
  {
  }

  // ---- printing ----

  /** The digit buffer of myvsprintf: digits are stored backwards from bp. */
  class DigitBuffer {
    const buf: array<char>
    var bp: nat

    ghost predicate Valid()
      reads this, buf
    {
      buf.Length == 88 && bp <= 22
    }

    ghost function Digits(): string
      reads this, buf
      requires Valid()
    {
      buf[bp..22]
    }

    constructor ()
      ensures Valid() && Digits() == "" && bp == 22 && fresh(buf)
    {
      buf := new char[88](_ => '0');
      bp := 22;
    }

    method Store(c: char)
      requires Valid() && bp > 0
      modifies this`bp, buf
      ensures Valid() && bp == old(bp) - 1 && Digits() == [c] + old(Digits())
    {
      bp := bp - 1;
      buf[bp] := c;
      assert buf[bp..22] == [c] + buf[bp + 1..22];
    }

    /** _lowdigit: the last digit of a word with the high bit set, and its other digits. */
    method TakeLowDigit(v: nat) returns (rest: nat)
      requires Valid() && bp == 22 && LL_MAX < v <= ULL_MAX
      modifies this`bp, buf
      ensures Valid() && bp == 21 && rest == v / 10 && rest <= LL_MAX && Digits() + old(Digits()) == [Digit(v % 10)]
    {
      LowDigit(v);
      Store(((v / 2) % 5 * 2 + v % 2 + '0' as int) as char);
      rest := (v / 2) / 5;
    }

    /** The decimal loop: the digits of a 63-bit value in front of the stored ones. */
    method Decimal(val: nat)
      requires Valid() && val <= LL_MAX && bp >= |Text(val, 10)|
      modifies this`bp, buf
      ensures Valid() && Digits() == Text(val, 10) + old(Digits())
    {
      ghost var tail := Digits();
      var qval := val;
      if qval <= 9 {
        Store((qval + '0' as int) as char);
      } else {
        while qval > 9
          invariant Valid() && qval >= 0 && bp >= |Text(qval, 10)| && Text(val, 10) + tail == Text(qval, 10) + Digits()
        {
          var n := Int32(qval);
          TruncatedDigit(qval);
          Smaller(qval, 10);
          ghost var was, q := Digits(), qval;
          qval := qval / 10;
          Store((Int32(n - Int32(Int32(qval) * 10)) + '0' as int) as char);
          assert Text(q, 10) + was == Text(qval, 10) + ([Digit(q % 10)] + was);
        }
        Store((qval + '0' as int) as char);
      }
    }

    /** The octal and hexadecimal loop; zero leaves the buffer empty. */
    method Bits(val: nat, radix: nat)
      requires Valid() && bp == 22 && val <= ULL_MAX && (radix == 8 || radix == 16)
      modifies this`bp, buf
      ensures Valid() && Digits() == if val == 0 then "" else Text(val, radix)
    {
      var qval := val;
      if qval != 0 {
        BitsLength(val, radix);
        while true
          invariant Valid() && 0 < qval && bp >= |Text(qval, radix)| && Text(val, radix) == Text(qval, radix) + Digits()
          decreases qval
        {
          ghost var was, q := Digits(), qval;
          Store(Digit(qval % radix));
          qval := (qval / 2) / (radix / 2);
          ShiftRadix(q, radix);
          if qval == 0 {
            break;
          }
          Smaller(q, radix);
          assert Text(q, radix) + was == Text(qval, radix) + ([Digit(q % radix)] + was);
        }
      }
    }
  }

  lemma ShiftRadix(q: nat, radix: nat)
    requires radix == 8 || radix == 16
    ensures (q / 2) / (radix / 2) == q / radix && (q / radix == 0 <==> q < radix)
  {
  }

  lemma {:induction false} BitsLength(val: nat, radix: nat)
    requires val <= ULL_MAX && (radix == 8 || radix == 16)
    ensures |Text(val, radix)| <= 22
  {
    if radix == 8 {
      assert Power(8, 4) == 4096 by { assert Power(8, 1) == 8 && Power(8, 2) == 64 && Power(8, 3) == 512; }
      PowerAdd(8, 4, 4); PowerAdd(8, 8, 8); PowerAdd(8, 16, 4); PowerAdd(8, 20, 1); PowerAdd(8, 21, 1);
      assert Power(8, 1) == 8;
    } else {
      assert Power(16, 4) == 0x10000 by { assert Power(16, 1) == 16 && Power(16, 2) == 256 && Power(16, 3) == 4096; }
      PowerAdd(16, 4, 4); PowerAdd(16, 8, 8);
    }
    TextLength(val, radix, if radix == 8 then 22 else 16);
  }

  lemma {:induction false} PowerAdd(b: nat, j: nat, k: nat)
    ensures Power(b, j + k) == Power(b, j) * Power(b, k)
  {
    if k > 0 {
      PowerAdd(b, j, k - 1);
      Assoc(Power(b, j), Power(b, k - 1), b);
    }
  }

  /** What the three integer conversions print. */
  function Unsigned(v: nat): string {
    Text(v, 10)
  }

  function Signed(v: int): string {
    if v < 0 then "-" + Text(0 - v, 10) else Text(v, 10)
  }

  lemma {:induction false} DecimalLength(v: nat)
    requires v <= ULL_MAX
    ensures |Text(v, 10)| <= 20
  {
    assert Power(10, 1) == 10 && Power(10, 2) == 100 && Power(10, 3) == 1000;
    assert Power(10, 4) == 10000 && Power(10, 5) == 100000;
    PowerAdd(10, 5, 5);
    PowerAdd(10, 10, 10);
    TextLength(v, 10, 20);
  }

  /** The %lu conversion of a 64-bit word: a set high bit goes through _lowdigit. */
  method PrintUnsigned(v: nat) returns (s: string)
    requires v <= ULL_MAX
    ensures s == Unsigned(v)
  {
    var d := new DigitBuffer();
    var val := v;
    DecimalLength(v);
    if v > LL_MAX {
      val := d.TakeLowDigit(v);
    }
    d.Decimal(val);
    s := d.buf[d.bp..22];
    assert v <= LL_MAX ==> s == Text(v, 10) + "";
  }

  /** The %ld conversion; the most negative value cannot be negated in 64 bits. */
  method PrintSigned(v: int) returns (s: string)
    requires LL_MIN <= v <= LL_MAX
    ensures s == Signed(v)
  {
    var prefix := "";
    if v < 0 {
      prefix := "-";
      if v != LL_MIN {
        s := PrintUnsigned(0 - v);
      } else {
        s := PrintUnsigned(0x8000_0000_0000_0000);
      }
    } else {
      s := PrintUnsigned(v);
    }
    s := prefix + s;
  }

  /** The %lx and %lo conversions; zero prints as one padding zero. */
  method PrintBits(v: nat, radix: nat) returns (s: string)
    requires v <= ULL_MAX && (radix == 8 || radix == 16)
    ensures s == Text(v, radix)
  {
    var d := new DigitBuffer();
    d.Bits(v, radix);
    s := (if v == 0 then "0" else "") + d.buf[d.bp..22];
  }

  // ---- parsing ----

  predicate IsSpace(c: char) {
    c == ' ' || 9 <= c as int <= 13
  }

  /** The character at i, or the terminating zero. */
  function CharAt(s: string, i: nat): char {
    if i < |s| then s[i] else 0 as char
  }

  function SkipSpaces(s: string, i: nat): (j: nat)
    requires i <= |s|
    ensures i <= j <= |s| && (j < |s| ==> !IsSpace(s[j]))
    ensures forall k :: i <= k < j ==> IsSpace(s[k])
    decreases |s| - i
  {
    if i < |s| && IsSpace(s[i]) then SkipSpaces(s, i + 1) else i
  }

  /** The end of the longest run of digits of base b from i on. */
  function DigitsEnd(s: string, i: nat, b: nat): (j: nat)
    requires i <= |s|
    ensures i <= j <= |s| && AllDigits(s[i..j], b) && (j < |s| ==> DigitVal(s[j]) >= b)
    decreases |s| - i
  {
    if i < |s| && DigitVal(s[i]) < b then
      var j := DigitsEnd(s, i + 1, b);
      assert s[i..j] == [s[i]] + s[i + 1..j];
      j
    else i
  }

  predicate HexPrefix(s: string, i: nat) {
    CharAt(s, i) == '0' && (CharAt(s, i + 1) == 'x' || CharAt(s, i + 1) == 'X')
  }

  datatype Errno = Kept | Zero | ERange

  /** A value, how many characters were read, and what happened to errno. */
  datatype Parsed = Parsed(val: int, endp: nat, errno: Errno)

  const NOTHING := Parsed(0, 0, Kept)

  /** The base to use once the spaces are skipped. */
  function BaseOf(s: string, i: nat, base: nat): nat {
    if base != 0 then base else if HexPrefix(s, i) then 16 else 10
  }

  /** Digits from i on, after an optional 0x in base 16, with a sign and bounds:
      outside the bounds the nearer bound is returned. */
  function ParseFrom(s: string, i: nat, b: nat, negative: bool, max: nat, min: int): Parsed
    requires i <= |s| && 2 <= b <= 36
  {
    var start := if b == 16 && HexPrefix(s, i) then i + 2 else i;
    var end := DigitsEnd(s, start, b);
    var v := NatOf(s[start..end], b);
    if end == start then NOTHING
    else if v > max then Parsed(if negative then min else max, end, ERange)
    else Parsed(if negative then 0 - v else v, end, Zero)
  }

  function ParseUnsigned(s: string, base: nat): Parsed
    requires base == 0 || 2 <= base <= 36
  {
    var i := SkipSpaces(s, 0);
    if i == |s| then NOTHING else ParseFrom(s, i, BaseOf(s, i, base), false, ULL_MAX, 0)
  }

  /** The base is chosen before the sign is read, so "-0x10" in base 0 is decimal. */
  function ParseSigned(s: string, base: nat): Parsed
    requires base == 0 || 2 <= base <= 36
  {
    var i := SkipSpaces(s, 0);
    if i == |s| then NOTHING
    else
      var sign := s[i] == '-' || s[i] == '+';
      ParseFrom(s, if sign then i + 1 else i, BaseOf(s, i, base), s[i] == '-', LL_MAX, LL_MIN)
  }

  /** The cutoff test is exact. */
  lemma Cutoff(i: nat, c: nat, b: nat, max: nat)
    requires c < b
    ensures (i > max / b || (i == max / b && c > max % b)) <==> Next(i, b, c) > max
  {
    var q, r := max / b, max % b;
    assert max == q * b + r;
    Distribute(i, q, b);
    MulMonotone(i - q, b);
  }

  /** The accumulating loop: digits are read to their end; once a digit does not
      fit, overflow stays set. */
  method Accumulate(s: string, start: nat, b: nat, max: nat) returns (i: nat, end: nat, overflow: bool)
    requires start <= |s| && 2 <= b <= 36
    ensures end == DigitsEnd(s, start, b)
    ensures overflow <==> NatOf(s[start..end], b) > max
    ensures !overflow ==> i == NatOf(s[start..end], b)
  {
    i, end, overflow := 0, start, false;
    var cutoff: nat, cutlim: nat := max / b, max % b;
    ghost var e := DigitsEnd(s, start, b);
    while end < |s|
      invariant start <= end <= e && DigitsEnd(s, end, b) == e
      invariant KeptBy(s[start..end], b, max, i, overflow)
    {
      var c := DigitVal(s[end]);
      if c >= b {
        break;
      }
      assert s[start..end + 1] == s[start..end] + [s[end]];
      i, overflow := AddDigit(i, overflow, s[end], b, cutoff, cutlim, max, s[start..end]);
      end := end + 1;
    }
  }

  /** One turn of the loop. */
  method AddDigit(i: nat, overflow: bool, d: char, b: nat, cutoff: nat, cutlim: nat, ghost max: nat,
                  ghost digits: string)
    returns (i': nat, overflow': bool)
    requires 2 <= b <= 36 && DigitVal(d) < b && KeptBy(digits, b, max, i, overflow)
    requires cutoff == max / b && cutlim == max % b
    ensures KeptBy(digits + [d], b, max, i', overflow')
  {
    KeptSnoc(digits, d, b, max, i, overflow, cutoff, cutlim);
    var c := DigitVal(d);
    i', overflow' := i, overflow;
    if i > cutoff || (i == cutoff && c > cutlim) {
      overflow' := true;
    } else {
      i' := Next(i, b, c);
    }
  }

  /** The state of the loop after some digits. */
  ghost predicate KeptBy(digits: string, b: nat, max: nat, i: nat, overflow: bool) {
    && AllDigits(digits, b) && i <= max
    && (overflow <==> NatOf(digits, b) > max) && (!overflow ==> i == NatOf(digits, b))
  }

  lemma KeptSnoc(digits: string, d: char, b: nat, max: nat, i: nat, overflow: bool, cutoff: nat, cutlim: nat)
    requires 2 <= b <= 36 && cutoff == max / b && cutlim == max % b
    requires DigitVal(d) < b && KeptBy(digits, b, max, i, overflow)
    ensures var c := DigitVal(d);
            var over := i > cutoff || (i == cutoff && c > cutlim);
            KeptBy(digits + [d], b, max, if over then i else Next(i, b, c), overflow || over)
  {
    NatSnoc(digits, d, b);
    OneDigit(NatOf(digits, b), i, overflow, DigitVal(d), b, max);
  }

  /** One digit of the accumulating loop: n is the number so far, i what is kept of it. */
  lemma OneDigit(n: nat, i: nat, overflow: bool, c: nat, b: nat, max: nat)
    requires c < b && b >= 2 && i <= max && (overflow <==> n > max) && (!overflow ==> i == n)
    ensures var over := i > max / b || (i == max / b && c > max % b);
            && (overflow || over <==> Next(n, b, c) > max)
            && (!overflow && !over ==> Next(i, b, c) == Next(n, b, c))
            && (!over ==> Next(i, b, c) <= max)
  {
    Cutoff(i, c, b, max);
    Grows(n, b);
  }

  lemma Grows(n: nat, b: nat)
    requires b >= 2
    ensures n * b >= n
  {
    Distribute(b - 1, 1, n);
    MulMonotone(b - 1, if n == 0 then 1 else n);
  }

  method SkipSpace(s: string) returns (i: nat)
    ensures i == SkipSpaces(s, 0)
  {
    i := 0;
    while i < |s| && IsSpace(s[i])
      invariant i <= |s| && SkipSpaces(s, i) == SkipSpaces(s, 0)
    {
      i := i + 1;
    }
  }

  /** myatoq; the source refuses an empty string and other bases. */
  method Atoq(s: string, base: nat) returns (r: Parsed)
    requires s != "" && (base == 0 || 2 <= base <= 36)
    ensures r == ParseUnsigned(s, base)
  {
    var i := SkipSpace(s);
    if i == |s| {
      return NOTHING;
    }
    var b := base;
    if b == 0 {
      if HexPrefix(s, i) {
        b := 16;
      } else {
        b := 10;
      }
    }
    r := Convert(s, i, b, false, ULL_MAX, 0);
  }

  /** The part that both conversions share: the hexadecimal prefix, the digits,
      and the result with its sign or its bound. */
  method Convert(s: string, start: nat, b: nat, negative: bool, max: nat, min: int) returns (r: Parsed)
    requires start <= |s| && 2 <= b <= 36
    ensures r == ParseFrom(s, start, b, negative, max, min)
  {
    var save := start;
    if b == 16 && HexPrefix(s, start) {
      save := start + 2;
    }
    var i, end, overflow := Accumulate(s, save, b, max);
    if end == save {
      return NOTHING;
    }
    var v: int := i;
    if overflow {
      r := Parsed(if negative then min else max, end, ERange);
    } else {
      r := Parsed(if negative then -v else v, end, Zero);
    }
  }

  /** myatosq. */
  method Atosq(s: string, base: nat) returns (r: Parsed)
    requires s != "" && (base == 0 || 2 <= base <= 36)
    ensures r == ParseSigned(s, base)
  {
    var i := SkipSpace(s);
    if i == |s| {
      return NOTHING;
    }
    var b := base;
    if b == 0 {
      if HexPrefix(s, i) {
        b := 16;
      } else {
        b := 10;
      }
    }
    var negative := false;
    if s[i] == '-' {
      negative, i := true, i + 1;
    } else if s[i] == '+' {
      i := i + 1;
    }
    r := Convert(s, i, b, negative, LL_MAX, LL_MIN);
  }

  // ---- round trips ----

  lemma {:induction false} DigitsToEnd(s: string, i: nat, b: nat)
    requires i <= |s| && AllDigits(s[i..], b)
    ensures DigitsEnd(s, i, b) == |s|
  {
    var j := DigitsEnd(s, i, b);
    assert forall k :: i <= k < |s| ==> s[k] == s[i..][k - i];
  }

  /** Digits from `start` to the end of the string are read as their number. */
  lemma {:induction false} ReadsText(s: string, start: nat, v: nat, b: nat)
    requires 2 <= b <= 36 && start <= |s| && s[start..] == Text(v, b)
    ensures DigitsEnd(s, start, b) == |s| > start && NatOf(s[start..|s|], b) == v
  {
    TextReads(v, b);
    DigitsToEnd(s, start, b);
    assert s[start..|s|] == s[start..];
  }

  /** A decimal number starts with a digit, and never looks hexadecimal. */
  lemma {:induction false} DecimalStart(s: string, v: nat)
    requires s == Text(v, 10)
    ensures '0' <= s[0] <= '9' && SkipSpaces(s, 0) == 0 && !HexPrefix(s, 0)
  {
    TextStarts(v, 10);
    NotHex(s);
  }

  lemma {:induction false} NotHex(s: string)
    requires s != "" && DigitVal(s[0]) < 10 && (s[0] == '0' ==> |s| == 1)
    ensures '0' <= s[0] <= '9' && SkipSpaces(s, 0) == 0 && !HexPrefix(s, 0)
  {
  }

  /** %lu and back, in base 0. */
  lemma UnsignedRoundTrip(v: nat)
    requires v <= ULL_MAX
    ensures ParseUnsigned(Unsigned(v), 0) == Parsed(v, |Unsigned(v)|, Zero)
  {
    var s := Unsigned(v);
    DecimalStart(s, v);
    assert s[0..] == s;
    ReadsText(s, 0, v, 10);
  }

  /** 0x, then %lx, and back, in base 0. */
  lemma {:induction false} HexRoundTrip(v: nat)
    requires v <= ULL_MAX
    ensures ParseUnsigned("0x" + Text(v, 16), 0) == Parsed(v, 2 + |Text(v, 16)|, Zero)
  {
    var s := "0x" + Text(v, 16);
    assert s[0] == '0' && s[1] == 'x' && s[2..] == Text(v, 16);
    ReadsText(s, 2, v, 16);
  }

  /** %ld and back: the value always comes back, but the most negative one is
      reported as out of range. */
  lemma SignedRoundTrip(v: int)
    requires LL_MIN <= v <= LL_MAX
    ensures ParseSigned(Signed(v), 0) == Parsed(v, |Signed(v)|, if v == LL_MIN then ERange else Zero)
  {
    var s, n := Signed(v), if v < 0 then 0 - v else v;
    if v < 0 {
      assert SkipSpaces(s, 0) == 0 && !HexPrefix(s, 0);
      assert s[0] == '-' && s[1..] == Text(n, 10);
      ReadsText(s, 1, n, 10);
    } else {
      DecimalStart(s, n);
      assert s[0..] == s;
      ReadsText(s, 0, n, 10);
    }
  }

  /** The base is detected before the sign: a signed hexadecimal number in base 0
      is read as the single digit 0. */
  lemma SignedHexStops(t: string, negative: bool)
    ensures ParseSigned((if negative then "-" else "+") + "0x" + t, 0) == Parsed(0, 2, Zero)
  {
    var s := (if negative then "-" else "+") + "0x" + t;
    assert s[0] == (if negative then '-' else '+') && s[1] == '0' && s[2] == 'x';
    assert DigitsEnd(s, 1, 10) == 2;
    assert s[1..2] == ['0'];
    NatSnoc("", '0', 10);
    assert "" + ['0'] == ['0'];
  }

  // ---- digits, letter case, and what a text means ----

  /** The digits by their codes: 0 to 9 from 48 on, the letters from 97 and from 65 on. */
  lemma Alphabet(c: char, d: nat)
    requires d < 36
    ensures DigitVal(c) == d <==> if d < 10 then c as int == 48 + d else c as int == 87 + d || c as int == 55 + d
    ensures Digit(d) as int == if d < 10 then 48 + d else 87 + d
  {
  }

  /** One character twice, or one letter in both cases. */
  predicate SameLetter(c: char, d: char) {
    || c == d
    || ('a' <= c <= 'z' && d as int == c as int - 32)
    || ('A' <= c <= 'Z' && d as int == c as int + 32)
  }

  predicate SameButCase(s: string, t: string) {
    |s| == |t| && forall k :: 0 <= k < |s| ==> SameLetter(s[k], t[k])
  }

  lemma {:induction false} SkipsAlike(s: string, t: string, i: nat)
    requires SameButCase(s, t) && i <= |s|
    ensures SkipSpaces(s, i) == SkipSpaces(t, i)
    decreases |s| - i
  {
    if i < |s| {
      assert SameLetter(s[i], t[i]);
      if IsSpace(s[i]) {
        SkipsAlike(s, t, i + 1);
      }
    }
  }

  lemma {:induction false} EndsAlike(s: string, t: string, i: nat, b: nat)
    requires SameButCase(s, t) && i <= |s|
    ensures DigitsEnd(s, i, b) == DigitsEnd(t, i, b)
    decreases |s| - i
  {
    if i < |s| {
      assert SameLetter(s[i], t[i]);
      if DigitVal(s[i]) < b {
        EndsAlike(s, t, i + 1, b);
      }
    }
  }

  lemma {:induction false} ReadsAlike(s: string, t: string, b: nat)
    requires SameButCase(s, t) && AllDigits(s, b)
    ensures AllDigits(t, b) && NatOf(s, b) == NatOf(t, b)
  {
    assert forall k :: 0 <= k < |s| ==> SameLetter(s[k], t[k]) && DigitVal(t[k]) == DigitVal(s[k]);
    if s != "" {
      ReadsAlike(s[..|s| - 1], t[..|s| - 1], b);
    }
  }

  lemma HexAlike(s: string, t: string, i: nat)
    requires SameButCase(s, t)
    ensures HexPrefix(s, i) == HexPrefix(t, i)
  {
    assert i < |s| ==> SameLetter(s[i], t[i]);
    assert i + 1 < |s| ==> SameLetter(s[i + 1], t[i + 1]);
  }

  lemma {:induction false} ParseFromAlike(s: string, t: string, i: nat, b: nat, negative: bool, max: nat, min: int)
    requires SameButCase(s, t) && i <= |s| && 2 <= b <= 36
    ensures ParseFrom(s, i, b, negative, max, min) == ParseFrom(t, i, b, negative, max, min)
  {
    HexAlike(s, t, i);
    var start := if b == 16 && HexPrefix(s, i) then i + 2 else i;
    var end := DigitsEnd(s, start, b);
    EndsAlike(s, t, start, b);
    assert SameButCase(s[start..end], t[start..end]);
    ReadsAlike(s[start..end], t[start..end], b);
  }

  lemma BaseAlike(s: string, t: string, i: nat, base: nat)
    requires SameButCase(s, t) && i < |s|
    ensures BaseOf(s, i, base) == BaseOf(t, i, base) && (s[i] == '-' <==> t[i] == '-') && (s[i] == '+' <==> t[i] == '+')
  {
    assert SameLetter(s[i], t[i]);
    HexAlike(s, t, i);
  }

  /** The case of letters does not matter, in any base. */
  lemma {:induction false} CaseDoesNotMatter(s: string, t: string, base: nat)
    requires SameButCase(s, t) && (base == 0 || 2 <= base <= 36)
    ensures ParseUnsigned(s, base) == ParseUnsigned(t, base) && ParseSigned(s, base) == ParseSigned(t, base)
  {
    SkipsAlike(s, t, 0);
    var i := SkipSpaces(s, 0);
    if i < |s| {
      BaseAlike(s, t, i, base);
      var b := BaseOf(s, i, base);
      var from := if s[i] == '-' || s[i] == '+' then i + 1 else i;
      ParseFromAlike(s, t, i, b, false, ULL_MAX, 0);
      ParseFromAlike(s, t, from, b, s[i] == '-', LL_MAX, LL_MIN);
    }
  }

  /** Hexadecimal and back, for digits and prefix of any case. */
  lemma {:induction false} AnyHexRoundTrip(v: nat, s: string)
    requires v <= ULL_MAX && SameButCase("0x" + Text(v, 16), s)
    ensures ParseUnsigned(s, 0) == ParseUnsigned(s, 16) == Parsed(v, |s|, Zero)
  {
    HexRoundTrip(v);
    CaseDoesNotMatter("0x" + Text(v, 16), s, 0);
    var t := "0x" + Text(v, 16);
    assert BaseOf(t, 0, 0) == BaseOf(t, 0, 16) == 16 && SkipSpaces(t, 0) == 0;
    CaseDoesNotMatter(t, s, 16);
  }

  predicate Spaces(sp: string) {
    forall k :: 0 <= k < |sp| ==> sp[k] in {' ', '\t', '\n', '\r', 11 as char, 12 as char}
  }

  lemma {:induction false} Skips(sp: string, s: string, i: nat)
    requires Spaces(sp) && i <= |sp| <= |s| && s[..|sp|] == sp
    requires |sp| < |s| ==> s[|sp|] !in {' ', '\t', '\n', '\r', 11 as char, 12 as char}
    ensures SkipSpaces(s, i) == |sp|
    decreases |sp| - i
  {
    if i < |sp| {
      assert s[i] == sp[i];
      Skips(sp, s, i + 1);
    }
  }

  /** A string of zeros. */
  function Zeros(k: nat): string { seq(k, _ => '0') }

  lemma {:induction false} LeadingZeros(k: nat, w: string, b: nat)
    requires AllDigits(w, b) && b > 0
    ensures AllDigits(Zeros(k) + w, b) && NatOf(Zeros(k) + w, b) == NatOf(w, b)
    decreases |w|, k
  {
    var z := Zeros(k) + w;
    if w != "" {
      LeadingZeros(k, w[..|w| - 1], b);
      assert z[..|z| - 1] == Zeros(k) + w[..|w| - 1];
    } else if k > 0 {
      LeadingZeros(k - 1, "", b);
      assert z[..k - 1] == Zeros(k - 1) + "";
    }
  }

  /** The text w is the number v in base b: digits in any case, behind any zeros. */
  ghost predicate Writes(w: string, b: nat, v: nat)
    requires 2 <= b <= 36
  {
    exists k :: SameButCase(Zeros(k) + Text(v, b), w)
  }

  lemma {:induction false} WritesReads(w: string, b: nat, v: nat)
    requires 2 <= b <= 36 && Writes(w, b, v)
    ensures w != "" && AllDigits(w, b) && NatOf(w, b) == v
  {
    var k :| SameButCase(Zeros(k) + Text(v, b), w);
    TextReads(v, b);
    LeadingZeros(k, Text(v, b), b);
    ReadsAlike(Zeros(k) + Text(v, b), w, b);
  }

  /** What follows the digits is not one more digit. */
  predicate NoDigit(tail: string, b: nat) {
    tail != "" ==> DigitVal(tail[0]) >= b
  }

  lemma {:induction false} DigitsAt(s: string, i: nat, w: string, tail: string, b: nat)
    requires i <= |s| && s[i..] == w + tail && AllDigits(w, b) && NoDigit(tail, b)
    ensures DigitsEnd(s, i, b) == i + |w| && s[i..i + |w|] == w
  {
    assert forall k :: i <= k < |s| ==> s[k] == (w + tail)[k - i];
    assert s[i..i + |w|] == w;
    EndsAt(s, i, i + |w|, b);
  }

  lemma {:induction false} EndsAt(s: string, i: nat, e: nat, b: nat)
    requires i <= e <= |s| && AllDigits(s[i..e], b) && (e < |s| ==> DigitVal(s[e]) >= b)
    ensures DigitsEnd(s, i, b) == e
    decreases e - i
  {
    if i < e {
      assert s[i..e][0] == s[i] && s[i + 1..e] == s[i..e][1..];
      EndsAt(s, i + 1, e, b);
    }
  }

  /** The 0x of a hexadecimal number, in either case. */
  predicate HexMark(px: string) { px == "0x" || px == "0X" }

  /** A single zero is not followed by an x that would make it a hexadecimal prefix. */
  predicate NoHexMark(w: string, tail: string) {
    w == "0" && tail != "" ==> tail[0] != 'x' && tail[0] != 'X'
  }

  /** A prefix where base 16 allows it, digits, and whatever follows them, from i on. */
  lemma {:induction false} ParsesFrom(s: string, i: nat, px: string, w: string, tail: string, b: nat, v: nat,
                                      negative: bool, max: nat, min: int)
    requires 2 <= b <= 36 && i <= |s| && s[i..] == px + (w + tail) && Writes(w, b, v) && NoDigit(tail, b)
    requires px == "" || (b == 16 && HexMark(px))
    requires b == 16 && px == "" ==> NoHexMark(w, tail)
    ensures ParseFrom(s, i, b, negative, max, min)
         == var end := i + |px| + |w|;
            if v > max then Parsed(if negative then min else max, end, ERange)
            else Parsed(if negative then 0 - v else v, end, Zero)
  {
    WritesReads(w, b, v);
    StartAfter(s, i, px, w, tail, b);
    DigitsAt(s, i + |px|, w, tail, b);
    ParsesDigits(s, i, i + |px|, w, b, negative, max, min);
  }

  lemma StartAfter(s: string, i: nat, px: string, w: string, tail: string, b: nat)
    requires i <= |s| && s[i..] == px + (w + tail) && w != "" && AllDigits(w, b)
    requires px == "" || (b == 16 && HexMark(px))
    requires b == 16 && px == "" ==> NoHexMark(w, tail)
    ensures i + |px| <= |s| && s[i + |px|..] == w + tail
    ensures i + |px| == if b == 16 && HexPrefix(s, i) then i + 2 else i
  {
    assert s[i..][|px|..] == w + tail;
    if px != "" {
      Prefixed(s, i, px, w + tail);
    } else if b == 16 {
      NotPrefixed(s, i, w, tail, b);
    }
  }

  lemma {:induction false} ParsesDigits(s: string, i: nat, start: nat, w: string, b: nat, negative: bool, max: nat,
                                        min: int)
    requires 2 <= b <= 36 && i <= start <= start + |w| <= |s| && w != "" && AllDigits(w, b)
    requires start == (if b == 16 && HexPrefix(s, i) then i + 2 else i)
    requires DigitsEnd(s, start, b) == start + |w| && s[start..start + |w|] == w
    ensures ParseFrom(s, i, b, negative, max, min)
         == if NatOf(w, b) > max then Parsed(if negative then min else max, start + |w|, ERange)
            else Parsed(if negative then 0 - NatOf(w, b) else NatOf(w, b), start + |w|, Zero)
  {
  }

  lemma Prefixed(s: string, i: nat, px: string, rest: string)
    requires i <= |s| && HexMark(px) && s[i..] == px + rest
    ensures HexPrefix(s, i)
  {
    assert s[i] == (px + rest)[0] && s[i + 1] == (px + rest)[1];
  }

  lemma NotPrefixed(s: string, i: nat, w: string, tail: string, b: nat)
    requires i <= |s| && s[i..] == w + tail && w != "" && AllDigits(w, b) && b <= 16 && NoHexMark(w, tail)
    ensures !HexPrefix(s, i)
  {
    assert forall k :: i <= k < |s| ==> s[k] == (w + tail)[k - i];
    assert s[i] == w[0];
    if |w| > 1 {
      assert s[i + 1] == w[1];
    } else if tail != "" {
      assert s[i + 1] == tail[0] && w == [w[0]];
    }
  }

  predicate SignText(sg: string) { sg == "" || sg == "-" || sg == "+" }

  /** The base that is used: in base 0 a prefix counts only without a sign before it. */
  function Base(base: nat, sg: string, px: string): nat {
    if base != 0 then base else if sg == "" && px != "" then 16 else 10
  }

  /** A text that names a number: spaces, a sign, in base 16 perhaps a prefix, digits,
      and something that does not continue them. */
  ghost predicate Names(sp: string, sg: string, px: string, w: string, tail: string, base: nat, v: nat) {
    && (base == 0 || 2 <= base <= 36) && Spaces(sp) && SignText(sg)
    && (px == "" || (Base(base, sg, px) == 16 && HexMark(px)))
    && Writes(w, Base(base, sg, px), v) && NoDigit(tail, Base(base, sg, px))
    && (px == "" && (base == 16 || (base == 0 && sg == "")) ==> NoHexMark(w, tail))
  }

  /** Behind the spaces and the sign. */
  lemma {:induction false} SignAt(s: string, sp: string, sg: string, rest: string)
    requires Spaces(sp) && SignText(sg) && s == sp + (sg + rest)
    requires sg + rest != "" && (sg == "" ==> !IsSpace(rest[0]) && rest[0] != '-' && rest[0] != '+')
    ensures var i := |sp|;
            && SkipSpaces(s, 0) == i < |s| && (s[i] == '-' <==> sg == "-") && (s[i] == '+' <==> sg == "+")
            && s[i + |sg|..] == rest && s[i..] == sg + rest
  {
    var all := sg + rest;
    assert s[..|sp|] == sp && s[|sp|..] == all && s[|sp|] == all[0];
    assert s[|sp| + |sg|..] == all[|sg|..] == rest;
    Skips(sp, s, 0);
  }

  lemma {:induction false} RestStarts(px: string, w: string, tail: string, b: nat, v: nat)
    requires 2 <= b <= 36 && Writes(w, b, v) && (px == "" || HexMark(px))
    ensures var rest := px + (w + tail); rest != "" && !IsSpace(rest[0]) && rest[0] != '-' && rest[0] != '+'
  {
    WritesReads(w, b, v);
    var rest := px + (w + tail);
    assert rest[0] == if px == "" then w[0] else px[0];
  }

  lemma {:induction false} BaseFound(s: string, i: nat, sg: string, px: string, w: string, tail: string, base: nat,
                                     v: nat)
    requires Names("", sg, px, w, tail, base, v) && i <= |s| && s[i..] == sg + (px + (w + tail))
    ensures BaseOf(s, i, base) == Base(base, sg, px)
  {
    if base == 0 {
      WritesReads(w, Base(base, sg, px), v);
      var rest := sg + (px + (w + tail));
      assert s[i] == rest[0];
      if sg == "" && px != "" {
        Prefixed(s, i, px, w + tail);
      } else if sg == "" {
        assert rest == w + tail;
        NotPrefixed(s, i, w, tail, 10);
      }
    }
  }

  /** The number is read to the end of its digits, or clamped to the nearer bound. */
  lemma {:induction false} ReadsSigned(s: string, sp: string, sg: string, px: string, w: string, tail: string,
                                       base: nat, v: nat)
    requires Names(sp, sg, px, w, tail, base, v) && s == sp + (sg + (px + (w + tail)))
    ensures ParseSigned(s, base)
         == var end := |sp| + |sg| + |px| + |w|;
            if v > LL_MAX then Parsed(if sg == "-" then LL_MIN else LL_MAX, end, ERange)
            else Parsed(if sg == "-" then 0 - v else v, end, Zero)
  {
    RestStarts(px, w, tail, Base(base, sg, px), v);
    SignAt(s, sp, sg, px + (w + tail));
    BaseFound(s, |sp|, sg, px, w, tail, base, v);
    var i := SkipSpaces(s, 0);
    var from := if s[i] == '-' || s[i] == '+' then i + 1 else i;
    assert from == |sp| + |sg|;
    ParsesFrom(s, from, px, w, tail, BaseOf(s, i, base), v, s[i] == '-', LL_MAX, LL_MIN);
  }

  lemma {:induction false} ReadsUnsigned(s: string, sp: string, px: string, w: string, tail: string, base: nat, v: nat)
    requires Names(sp, "", px, w, tail, base, v) && s == sp + (px + (w + tail))
    ensures ParseUnsigned(s, base)
         == var end := |sp| + |px| + |w|;
            if v > ULL_MAX then Parsed(ULL_MAX, end, ERange) else Parsed(v, end, Zero)
  {
    var b, rest := Base(base, "", px), px + (w + tail);
    assert "" + rest == rest;
    RestStarts(px, w, tail, b, v);
    SignAt(s, sp, "", rest);
    BaseFound(s, |sp|, "", px, w, tail, base, v);
    var i := SkipSpaces(s, 0);
    ParsesFrom(s, i, px, w, tail, BaseOf(s, i, base), v, false, ULL_MAX, 0);
  }

  lemma NoDigitsFrom(s: string, i: nat, start: nat, b: nat, negative: bool, max: nat, min: int)
    requires 2 <= b <= 36 && i <= start <= |s| && NoDigit(s[start..], b)
    requires start == if b == 16 && HexPrefix(s, i) then i + 2 else i
    ensures ParseFrom(s, i, b, negative, max, min) == NOTHING
  {
    assert start < |s| ==> s[start..][0] == s[start];
    EndsAt(s, start, start, b);
  }

  /** Without a digit behind a prefix nothing is read, and errno is left alone. */
  lemma {:induction false} ReadsNoHex(s: string, sp: string, px: string, tail: string, base: nat)
    requires (base == 0 || base == 16) && Spaces(sp) && HexMark(px) && NoDigit(tail, 16) && s == sp + (px + tail)
    ensures ParseUnsigned(s, base) == ParseSigned(s, base) == NOTHING
  {
    var rest, i := px + tail, |sp|;
    assert "" + rest == rest;
    SignAt(s, sp, "", rest);
    Prefixed(s, i, px, tail);
    assert s[i + 2..] == s[i..][2..] == tail;
    NoDigitsFrom(s, i, i + 2, 16, false, ULL_MAX, 0);
    NoDigitsFrom(s, i, i + 2, 16, false, LL_MAX, LL_MIN);
  }

  /** Nor without a digit behind the spaces and the sign; an unsigned number has no sign. */
  lemma {:induction false} ReadsNothing(s: string, sp: string, sg: string, tail: string, base: nat)
    requires (base == 0 || 2 <= base <= 36) && Spaces(sp) && SignText(sg) && s == sp + (sg + tail)
    requires NoDigit(tail, if base == 0 then 10 else base)
    requires sg == "" && tail != "" ==> !IsSpace(tail[0]) && tail[0] != '-' && tail[0] != '+'
    ensures ParseUnsigned(s, base) == ParseSigned(s, base) == NOTHING
  {
    if sg + tail == "" {
      assert s == sp;
      Skips(sp, s, 0);
    } else {
      NothingAt(s, sp, sg, tail, base);
    }
  }

  lemma {:induction false} NothingAt(s: string, sp: string, sg: string, tail: string, base: nat)
    requires (base == 0 || 2 <= base <= 36) && Spaces(sp) && SignText(sg) && s == sp + (sg + tail) && sg + tail != ""
    requires NoDigit(tail, if base == 0 then 10 else base)
    requires sg == "" && tail != "" ==> !IsSpace(tail[0]) && tail[0] != '-' && tail[0] != '+'
    ensures ParseUnsigned(s, base) == ParseSigned(s, base) == NOTHING
  {
    var i, j, b := |sp|, |sp| + |sg|, if base == 0 then 10 else base;
    SignAt(s, sp, sg, tail);
    assert s[i] == (sg + tail)[0] && DigitVal(s[i]) >= b;
    assert !HexPrefix(s, i);
    NotHexAt(s, j, tail, b);
    assert s[i..] == sg + tail;
    NoDigitsFrom(s, i, i, b, false, ULL_MAX, 0);
    var from := if s[i] == '-' || s[i] == '+' then i + 1 else i;
    NoDigitsFrom(s, from, from, BaseOf(s, i, base), s[i] == '-', LL_MAX, LL_MIN);
  }

  lemma NotHexAt(s: string, j: nat, tail: string, b: nat)
    requires b >= 2 && j <= |s| && s[j..] == tail && NoDigit(tail, b)
    ensures !HexPrefix(s, j)
  {
    assert j < |s| ==> s[j] == tail[0];
  }
}
