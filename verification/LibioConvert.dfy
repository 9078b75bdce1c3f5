/** Integers to text and back (sys/libio/stdlib.cxx): libio_ulltoa and atoi. Characters are bytes. */
module LibioConvert {
  import opened Sequences
  import opened CharacterTypes
  import opened NatArithmetic

  /** One more than the largest unsigned long long, and the largest int. */
  const ULL_RANGE: nat := 0x1_0000_0000_0000_0000
  const INT_MAX: nat := 2147483647
  /** The size of the printer's own buffer. */
  const NUMBUF: nat := 24

  function Pow(b: nat, k: nat): nat {
    if k == 0 then 1 else b * Pow(b, k - 1)
  }

  // ----- Printing

  /** The character of a digit; above 200 it wraps around. */
  function DigitChar(rem: nat): char
    requires rem < 256
  {
    (if rem >= 10 then (rem - 10 + 'A' as nat) % 256 else rem + '0' as nat) as char
  }

  /** What the printer divides its value into: the last digit, kept in 8 bits, and the rest. */
  function LastDigit(val: nat, base: nat): (rem: nat)
    requires base >= 1
    ensures rem < 256
  {
    val % base % 256
  }

  function Rest(val: nat, base: nat): (rest: nat)
    requires base >= 1
    ensures base >= 2 ==> rest <= val && (val > 0 ==> rest < val)
    ensures base == 1 ==> rest == val
  {
    if base >= 2 then
      Division(val, base);
      val / base
    else val
  }

  lemma Division(val: nat, base: nat)
    requires base >= 2
    ensures var q := val / base; base * q <= val < base * q + base && 0 <= q && 2 * q <= val
  {
    var q := val / base;
    assert val == base * q + val % base;
    assert (base - 2) * q >= 0;
  }

  lemma RestAndDigit(val: nat, base: nat)
    requires base >= 2
    ensures base <= 256 ==> Rest(val, base) * base + LastDigit(val, base) == val && LastDigit(val, base) < base
    ensures val < base ==> Rest(val, base) == 0 && LastDigit(val, base) == val % 256
  {
    assert val / base * base + val % base == val;
    if val < base {
      assert val / base == 0;
    }
  }

  /** The digits of a number, most significant first, none for zero. */
  function Digits(val: nat, base: nat): string
    requires base >= 2
    decreases val
  {
    if val == 0 then "" else Digits(Rest(val, base), base) + [DigitChar(LastDigit(val, base))]
  }

  /** The number printed behind the sign. */
  function Magnitude(val: nat, signed: bool): nat
    requires val < ULL_RANGE
  {
    if signed && val >= ULL_RANGE / 2 then ULL_RANGE - val else val
  }

  function Sign(val: nat, signed: bool): string {
    if signed && val >= ULL_RANGE / 2 then "-" else ""
  }

  /** What a call of the printer comes to: a text, a digit stored behind the buffer of digits, or a
      division by zero. */
  datatype Printing = Text(text: string) | Overrun | Trap

  function Printed(val: nat, base: nat, signed: bool): Printing
    requires val < ULL_RANGE
  {
    if val == 0 then Text("0")
    else if base == 0 then Trap
    else if base == 1 || |Digits(Magnitude(val, signed), base)| > NUMBUF then Overrun
    else Text(Sign(val, signed) + Digits(Magnitude(val, signed), base))
  }

  lemma NextDigit(left: nat, base: nat, buf: string)
    requires left > 0 && base >= 2
    ensures var c := DigitChar(LastDigit(left, base));
            Digits(left, base) + Reverse(buf) == Digits(Rest(left, base), base) + Reverse(buf + [c])
            && |Digits(left, base) + Reverse(buf)| > |buf|
  {
    hide Rest, LastDigit, DigitChar;
    var c := DigitChar(LastDigit(left, base));
    ReverseConcat(buf, [c]);
    ReverseOne(c);
  }

  /** The digit loop of libio_ulltoa, least significant digit first; it fails when the buffer is full and
      digits are left. In base 1 there is no end of them. */
  method DigitsInto(numbuf: array<char>, val: nat, base: nat) returns (fits: bool, j: nat)
    requires base >= 1 && val > 0
    modifies numbuf
    ensures fits <==> base >= 2 && |Digits(val, base)| <= numbuf.Length
    ensures fits ==> j <= numbuf.Length && numbuf[..j] == Reverse(Digits(val, base))
  {
    ghost var digits := if base >= 2 then Digits(val, base) else "";
    hide Digits, DigitChar, LastDigit, Rest, Reverse;
    var left: nat := val;
    j := 0;
    NothingReversed(numbuf[..0]);
    while left > 0
      invariant j <= numbuf.Length
      invariant if base >= 2 then digits == Digits(left, base) + Reverse(numbuf[..j]) else left == val
      decreases numbuf.Length - j
    {
      ghost var before := numbuf[..j];
      if base >= 2 {
        NextDigit(left, base, before);
      }
      if j == numbuf.Length {
        return false, j;
      }
      var rem := LastDigit(left, base);
      numbuf[j] := DigitChar(rem);
      assert numbuf[..j + 1] == before + [DigitChar(rem)];
      left := Rest(left, base);
      j := j + 1;
    }
    NoDigits(base);
    assert digits == Reverse(numbuf[..j]);
    ReverseTwice(numbuf[..j]);
    fits := true;
  }

  lemma NothingReversed(s: string)
    requires s == []
    ensures Reverse(s) == []
  {
  }

  lemma NoDigits(base: nat)
    requires base >= 2
    ensures Digits(0, base) == ""
  {
  }

  /** The loop that copies the digits out in their proper order, and the terminator. */
  method CopyOut(str: array<char>, start: nat, numbuf: array<char>, j: nat)
    requires str != numbuf && j <= numbuf.Length && start + j < str.Length
    modifies str
    ensures str[..start] == old(str[..start]) && str[start..start + j + 1] == Reverse(numbuf[..j]) + ['\0']
    ensures str[start + j + 1..] == old(str[start + j + 1..])
  {
    var i := 0;
    while i != j
      invariant i <= j
      invariant forall k :: 0 <= k < str.Length ==>
        str[k] == if start <= k < start + i then numbuf[j - 1 - (k - start)] else old(str[k])
    {
      str[start + i] := numbuf[j - 1 - i];
      i := i + 1;
    }
    str[start + i] := '\0';
    forall k: nat | k < j
      ensures str[start..start + j + 1][k] == Reverse(numbuf[..j])[k]
    {
      ReverseAt(numbuf[..j], k);
    }
  }

  /** How a call of the printer ends. */
  datatype Ending = Returned | Overran | Trapped

  /** libio_ulltoa; base is the int argument as the unsigned number it is converted to. */
  method UllToA(val: nat, str: array<char>, base: nat, signed: bool) returns (r: Ending)
    requires val < ULL_RANGE && base < ULL_RANGE
    requires match Printed(val, base, signed) case Text(t) => |t| < str.Length case _ => 0 < str.Length
    modifies str
    ensures match Printed(val, base, signed)
            case Text(t) =>
              var text := t + ['\0'];
              r == Returned && str[..|text|] == text && str[|text|..] == old(str[|text|..])
            case Overrun => r == Overran && str[1..] == old(str[1..])
            case Trap => r == Trapped && str[1..] == old(str[1..])
  {
    ghost var was := str[..];
    hide Digits, Magnitude, Reverse;
    if val == 0 {
      str[0], str[1] := '0', '\0';
      assert str[..2] == ['0', '\0'];
      return Returned;
    }
    var start: nat, left: nat := 0, val;
    if signed && val >= ULL_RANGE / 2 {
      str[0] := '-';
      start, left := 1, ULL_RANGE - val;
    }
    ghost var sign := Sign(val, signed);
    PrintedParts(val, base, signed);
    assert left == Magnitude(val, signed);
    assert str[..start] == sign && str[1..] == was[1..];
    hide Printed, Sign;
    if base == 0 {
      return Trapped;
    }
    var numbuf := new char[NUMBUF];
    var fits, j := DigitsInto(numbuf, left, base);
    if !fits {
      return Overran;
    }
    ghost var digits := Digits(left, base);
    ReverseTwice(digits);
    assert str[start + j + 1..] == was[start + j + 1..];
    CopyOut(str, start, numbuf, j);
    Placed(was, str[..], sign, digits);
    r := Returned;
  }

  lemma PrintedParts(val: nat, base: nat, signed: bool)
    requires 0 < val < ULL_RANGE
    ensures Magnitude(val, signed) == if signed && val >= ULL_RANGE / 2 then ULL_RANGE - val else val
    ensures base == 0 ==> Printed(val, base, signed) == Trap
    ensures base == 1 ==> Printed(val, base, signed) == Overrun
    ensures base >= 2 ==>
              var digits := Digits(Magnitude(val, signed), base);
              Printed(val, base, signed)
              == if |digits| <= NUMBUF then Text(Sign(val, signed) + digits) else Overrun
  {
    hide Digits;
  }

  lemma Placed(was: string, after: string, sign: string, digits: string)
    requires |sign| + |digits| < |was| == |after|
    requires after[..|sign|] == sign && after[|sign|..|sign| + |digits| + 1] == digits + ['\0']
    requires after[|sign| + |digits| + 1..] == was[|sign| + |digits| + 1..]
    ensures var text := sign + digits + ['\0']; after[..|text|] == text && after[|text|..] == was[|text|..]
  {
    var k := |sign| + |digits| + 1;
    assert after[..k] == after[..|sign|] + after[|sign|..k];
  }

  // ----- How many digits

  /** A number has at most k digits exactly when it is below the k-th power of the base. */
  lemma {:induction false} DigitCountExactly(val: nat, base: nat, k: nat)
    requires base >= 2
    ensures |Digits(val, base)| <= k <==> val < Pow(base, k)
    decreases k
  {
    hide Rest, LastDigit, DigitChar;
    if k > 0 && val > 0 {
      DigitCountExactly(Rest(val, base), base, k - 1);
      Quotient(val, base, Pow(base, k - 1));
    } else if val == 0 {
      PowPositive(base, k);
    }
  }

  lemma Quotient(val: nat, base: nat, p: nat)
    requires base >= 2
    ensures Rest(val, base) < p <==> val < base * p
  {
    Division(val, base);
    var q := Rest(val, base);
    hide Rest;
    if q < p {
      MultipleMonotone(base, q, p);
    } else if p < q {
      MultipleMonotone(base, p, q);
    }
  }

  lemma {:induction false} PowPositive(b: nat, k: nat)
    requires b > 0
    ensures Pow(b, k) > 0
  {
    if k > 0 {
      PowPositive(b, k - 1);
    }
  }

  lemma ProductMonotone(b: nat, c: nat, x: nat, y: nat)
    requires b <= c && x <= y
    ensures b * x <= c * y
  {
    assert b * x <= b * y;
    assert b * y <= c * y;
  }

  lemma {:induction false} PowMonotone(b: nat, c: nat, k: nat)
    requires b <= c
    ensures Pow(b, k) <= Pow(c, k)
  {
    if k > 0 {
      PowMonotone(b, c, k - 1);
      ProductMonotone(b, c, Pow(b, k - 1), Pow(c, k - 1));
    }
  }

  lemma ProductRegroup(a: nat, b: nat, c: nat)
    ensures a * (b * c) == a * b * c
  {
  }

  lemma {:induction false} PowSum(b: nat, j: nat, k: nat)
    ensures Pow(b, j + k) == Pow(b, j) * Pow(b, k)
  {
    if j > 0 {
      PowSum(b, j - 1, k);
      ProductRegroup(b, Pow(b, j - 1), Pow(b, k));
    }
  }

  lemma PowersAroundRange()
    ensures Pow(6, 24) < ULL_RANGE / 2 && ULL_RANGE <= Pow(7, 24)
    ensures ULL_RANGE <= Pow(8, 22)
  {
    PowsOfThree();
    hide Pow;
    PowSum(6, 6, 6);
    PowSum(6, 12, 12);
    PowSum(7, 6, 6);
    PowSum(7, 12, 12);
    PowSum(8, 3, 3);
    PowSum(8, 6, 6);
    PowSum(8, 12, 6);
    PowSum(8, 18, 3);
    PowSum(8, 21, 1);
  }

  lemma PowsOfThree()
    ensures Pow(6, 6) == 46656 && Pow(7, 6) == 117649 && Pow(8, 3) == 512 && Pow(8, 1) == 8
  {
    assert Pow(6, 3) == 216 && Pow(7, 3) == 343;
    PowSum(6, 3, 3);
    PowSum(7, 3, 3);
  }

  ghost predicate NumbufSuffices(base: nat, signed: bool) {
    forall val: nat :: val < ULL_RANGE ==> Printed(val, base, signed).Text?
  }

  /** Every value is printed, with no digit behind the buffer, exactly in the bases from 7 on. */
  lemma NumbufSufficesExactly(base: nat, signed: bool)
    ensures NumbufSuffices(base, signed) <==> base >= 7
  {
    hide Pow, Digits;
    PowersAroundRange();
    if base >= 7 {
      PowMonotone(7, base, NUMBUF);
      forall val: nat | val < ULL_RANGE
        ensures Printed(val, base, signed).Text?
      {
        DigitCountExactly(Magnitude(val, signed), base, NUMBUF);
      }
    } else {
      var val := ULL_RANGE / 2 - 1;
      if base >= 2 {
        PowMonotone(base, 6, NUMBUF);
        DigitCountExactly(val, base, NUMBUF);
      }
      assert !Printed(val, base, signed).Text?;
    }
  }

  /** From base 8 on 22 digits are enough. */
  lemma TwentyTwoDigits(val: nat, base: nat)
    requires val < ULL_RANGE && base >= 8
    ensures |Digits(val, base)| <= 22
  {
    hide Pow, Digits;
    PowersAroundRange();
    PowMonotone(8, base, 22);
    DigitCountExactly(val, base, 22);
  }

  // ----- Reading any printed number back

  /** A C string ends at its first zero byte. */
  function CString(s: string): string {
    if s == [] || s[0] == '\0' then [] else [s[0]] + CString(s[1..])
  }

  function DigitOf(c: char): int {
    if c <= '9' then c as int - '0' as int else c as int - 'A' as int + 10
  }

  function Value(s: string, base: nat): int {
    if s == [] then 0 else Value(s[..|s| - 1], base) * base + DigitOf(s[|s| - 1])
  }

  /** What a printed number stands for, read back in the same base. */
  function ReadBack(s: string, base: nat): int {
    if s != [] && s[0] == '-' then ULL_RANGE - Value(s[1..], base) else Value(s, base)
  }

  lemma DigitComesBack(rem: nat)
    requires rem <= 200
    ensures DigitOf(DigitChar(rem)) == rem && DigitChar(rem) >= '0'
  {
  }

  lemma ValueAppend(s: string, c: char, base: nat)
    ensures Value(s + [c], base) == Value(s, base) * base + DigitOf(c)
  {
    assert (s + [c])[..|s|] == s;
  }

  lemma {:induction false} ValueOfDigits(val: nat, base: nat)
    requires 2 <= base <= 201
    ensures Value(Digits(val, base), base) == val
    ensures forall i :: 0 <= i < |Digits(val, base)| ==> Digits(val, base)[i] >= '0'
    decreases val
  {
    if val > 0 {
      hide Rest, LastDigit, DigitChar, DigitOf, Value;
      var rem := LastDigit(val, base);
      var high, c := Digits(Rest(val, base), base), DigitChar(rem);
      ValueOfDigits(Rest(val, base), base);
      ValueAppend(high, c, base);
      RestAndDigit(val, base);
      DigitComesBack(rem);
    }
  }

  lemma {:induction false} NoZeroByte(s: string)
    requires forall i :: 0 <= i < |s| ==> s[i] != '\0'
    ensures CString(s) == s
  {
    if s != [] {
      NoZeroByte(s[1..]);
    }
  }

  lemma ValueOfZero(base: nat)
    ensures Value("0", base) == 0
  {
    assert Value("0"[..0], base) == 0;
  }

  /** Whatever is printed in a base up to 201 can be read back. */
  lemma PrintedReadsBack(val: nat, base: nat, signed: bool)
    requires val < ULL_RANGE && Printed(val, base, signed).Text? && base <= 201
    ensures ReadBack(CString(Printed(val, base, signed).text), base) == val
  {
    if val == 0 {
      NoZeroByte("0");
      ValueOfZero(base);
    } else {
      PrintedParts(val, base, signed);
      var m := Magnitude(val, signed);
      ValueOfDigits(m, base);
      SignedReadsBack(Sign(val, signed), Digits(m, base), base);
    }
  }

  lemma SignedReadsBack(sign: string, digits: string, base: nat)
    requires sign == "" || sign == "-"
    requires forall i :: 0 <= i < |digits| ==> digits[i] >= '0'
    ensures ReadBack(CString(sign + digits), base)
            == if sign == "" then Value(digits, base) else ULL_RANGE - Value(digits, base)
  {
    hide CString, Value;
    NoZeroByte(sign + digits);
    if sign == "" {
      assert sign + digits == digits;
    } else {
      assert (sign + digits)[1..] == digits;
    }
  }

  /** Every value is printed, and no two values as the same C string. */
  ghost predicate TellsApart(base: nat, signed: bool) {
    NumbufSuffices(base, signed) && NoTwoAlike(base, signed)
  }

  ghost predicate NoTwoAlike(base: nat, signed: bool)
    requires NumbufSuffices(base, signed)
  {
    forall u: nat, v: nat | u < ULL_RANGE && v < ULL_RANGE ::
      CString(Printed(u, base, signed).text) == CString(Printed(v, base, signed).text) ==> u == v
  }

  /** The printer tells all 64-bit values apart exactly in the bases from 7 to 201. */
  lemma TellsApartExactly(base: nat, signed: bool)
    ensures TellsApart(base, signed) <==> 7 <= base <= 201
  {
    NumbufSufficesExactly(base, signed);
    if 7 <= base <= 201 {
      hide Printed, CString, ReadBack;
      forall u: nat, v: nat | u < ULL_RANGE && v < ULL_RANGE
        && CString(Printed(u, base, signed).text) == CString(Printed(v, base, signed).text)
        ensures u == v
      {
        PrintedReadsBack(u, base, signed);
        PrintedReadsBack(v, base, signed);
      }
    } else if base > 201 {
      hide Printed, CString;
      var v := if base <= 457 then 201 * base else 457;
      PrintsNothing(201, base, signed);
      PrintsNothing(v, base, signed);
      assert !NoTwoAlike(base, signed);
    }
  }

  /** The digit 201 comes out as a zero byte. */
  lemma PrintsNothing(val: nat, base: nat, signed: bool)
    requires base >= 202
    requires val == 201 || (base <= 457 && val == 201 * base) || (base > 457 && val == 457)
    ensures val < ULL_RANGE && Printed(val, base, signed).Text? && CString(Printed(val, base, signed).text) == []
  {
    NumbufSufficesExactly(base, signed);
    assert DigitChar(201) == '\0';
    hide Rest, LastDigit, DigitChar;
    if val < base {
      OneDigit(val, base);
    } else {
      OneDigit(201, base);
      Quotient201(base);
      assert Digits(val, base)[0] == '\0';
    }
  }

  lemma OneDigit(val: nat, base: nat)
    requires 0 < val < base && base >= 2
    ensures Digits(val, base) == [DigitChar(val % 256)]
  {
    hide Rest, LastDigit, DigitChar;
    RestAndDigit(val, base);
    NoDigits(base);
  }

  lemma Quotient201(base: nat)
    requires base >= 2
    ensures Rest(201 * base, base) == 201
  {
    Division(201 * base, base);
    var q := Rest(201 * base, base);
    hide Rest;
    if q < 201 {
      MultipleMonotone(base, q, 201);
    } else if 201 < q {
      MultipleMonotone(base, 201, q);
    }
  }

  // ----- Parsing

  /** The number read, or a signed overflow on the way, which C++ leaves undefined. */
  datatype Outcome = Number(value: int) | Overflow

  predicate Blank(c: char) {
    c == ' ' || c == '\t'
  }

  /** The digit loop; it stops at the first character that is no digit. */
  function Accumulate(s: string, num: nat): Outcome {
    if s == [] || !IsDigit(s[0]) then Number(num)
    else
      var next := num * 10 + (s[0] as nat - '0' as nat);
      if next > INT_MAX then Overflow else Accumulate(s[1..], next)
  }

  function Negated(o: Outcome, negative: bool): Outcome {
    if o.Number? && negative then Number(-o.value) else o
  }

  function SkipBlanks(s: string): (r: string) {
    if s != [] && Blank(s[0]) then SkipBlanks(s[1..]) else s
  }

  /** A leading 0, or 0x; both loops behind it read decimal digits. */
  function SkipPrefix(s: string): string {
    if s == [] || s[0] != '0' then s
    else if |s| >= 2 && s[1] == 'x' then s[2..]
    else s[1..]
  }

  /** What is parsed behind the blanks. */
  function Unblanked(s: string): Outcome {
    if s != [] && s[0] == '-' then Negated(Accumulate(SkipPrefix(s[1..]), 0), true) else Accumulate(SkipPrefix(s), 0)
  }

  function Parsed(s: string): Outcome {
    Unblanked(SkipBlanks(s))
  }

  method SpanBlanks(s: string) returns (i: nat)
    ensures i <= |s| && s[i..] == SkipBlanks(s)
  {
    i := 0;
    while i < |s| && Blank(s[i])
      invariant i <= |s| && SkipBlanks(s) == SkipBlanks(s[i..])
    {
      assert s[i..][1..] == s[i + 1..];
      i := i + 1;
    }
  }

  /** The digit loop, the same for decimal and hexadecimal. */
  method ReadDigits(s: string, from: nat) returns (r: Outcome)
    requires from <= |s|
    ensures r == Accumulate(s[from..], 0)
  {
    var num, i := 0, from;
    while i < |s| && IsDigit(s[i])
      invariant from <= i <= |s| && 0 <= num <= INT_MAX
      invariant Accumulate(s[from..], 0) == Accumulate(s[i..], num)
    {
      assert s[i..][1..] == s[i + 1..];
      if num * 10 + (s[i] as int - '0' as int) > INT_MAX {
        return Overflow;
      }
      num := num * 10;
      num := num + (s[i] as int - '0' as int);
      i := i + 1;
    }
    r := Number(num);
  }

  method AToI(s: string) returns (r: Outcome)
    ensures r == Parsed(s)
  {
    hide Accumulate, SkipBlanks;
    var i := SpanBlanks(s);
    ghost var t := s[i..];
    var negative := i < |s| && s[i] == '-';
    if negative {
      i := i + 1;
    }
    ghost var u := s[i..];
    assert u == if negative then t[1..] else t;
    if i < |s| && s[i] == '0' {
      i := i + 1;
      if i < |s| && s[i] == 'x' {
        i := i + 1;
      }
    }
    assert SkipPrefix(u) == s[i..];
    r := ReadDigits(s, i);
    r := Negated(r, negative);
  }

  // ----- Printing and parsing

  lemma {:induction false} AccumulateAppend(s: string, t: string, num: nat)
    requires forall i :: 0 <= i < |s| ==> IsDigit(s[i])
    ensures Accumulate(s + t, num) == match Accumulate(s, num)
                                      case Overflow => Overflow
                                      case Number(n) => if n < 0 then Overflow else Accumulate(t, n)
  {
    if s == [] {
      assert s + t == t;
    } else {
      assert (s + t)[1..] == s[1..] + t;
      var next := num * 10 + (s[0] as nat - '0' as nat);
      if next <= INT_MAX {
        AccumulateAppend(s[1..], t, next);
      }
    }
  }

  lemma {:induction false} DecimalDigits(val: nat)
    requires val > 0
    ensures var s := Digits(val, 10);
            s != [] && s[0] != '0' && forall i :: 0 <= i < |s| ==> IsDigit(s[i])
    decreases val
  {
    if val >= 10 {
      DecimalDigits(Rest(val, 10));
    } else {
      NoDigits(10);
    }
  }

  /** Reading the digits of a number: the number, unless it is too large for an int. */
  lemma {:induction false} AccumulateDigits(val: nat, t: string)
    requires t == [] || !IsDigit(t[0])
    ensures Accumulate(Digits(val, 10) + t, 0) == if val <= INT_MAX then Number(val) else Overflow
    decreases val
  {
    if val == 0 {
      assert Digits(0, 10) + t == t;
    } else {
      hide Rest, LastDigit;
      var high, digit := Rest(val, 10), LastDigit(val, 10);
      RestAndDigit(val, 10);
      AccumulateDigits(high, "");
      assert Digits(high, 10) + "" == Digits(high, 10);
      if high > 0 {
        DecimalDigits(high);
      }
      AccumulateAppend(Digits(high, 10), [DigitChar(digit)] + t, 0);
      assert Digits(val, 10) + t == Digits(high, 10) + ([DigitChar(digit)] + t);
      if high <= INT_MAX {
        LastDigitAccumulated(high, digit, t);
      }
    }
  }

  lemma LastDigitAccumulated(high: nat, digit: nat, t: string)
    requires digit < 10 && (t == [] || !IsDigit(t[0]))
    ensures Accumulate([DigitChar(digit)] + t, high)
            == if high * 10 + digit <= INT_MAX then Number(high * 10 + digit) else Overflow
  {
    assert ([DigitChar(digit)] + t)[1..] == t;
  }

  lemma {:induction false} BlanksSkipped(blanks: string, s: string)
    requires forall i :: 0 <= i < |blanks| ==> Blank(blanks[i])
    ensures SkipBlanks(blanks + s) == SkipBlanks(s)
  {
    if blanks == [] {
      assert blanks + s == s;
    } else {
      assert (blanks + s)[1..] == blanks[1..] + s;
      BlanksSkipped(blanks[1..], s);
    }
  }

  /** What may stand behind a number without changing it: no digit, and behind a zero no x. */
  predicate Ends(val: int, rest: string) {
    rest == [] || (!IsDigit(rest[0]) && (val == 0 ==> rest[0] != 'x'))
  }

  /** A signed 64-bit value as the unsigned argument of the printer. */
  function Unsigned(val: int): nat
    requires -(ULL_RANGE / 2) <= val < ULL_RANGE / 2
  {
    if val < 0 then val + ULL_RANGE else val
  }

  /** Every signed 64-bit value, printed in decimal between blanks and any other text, is read back
      exactly when its magnitude fits an int; otherwise the parser overflows. */
  lemma ParsePrintedExactly(val: int, blanks: string, rest: string)
    requires -(ULL_RANGE / 2) <= val < ULL_RANGE / 2
    requires (forall i :: 0 <= i < |blanks| ==> Blank(blanks[i])) && Ends(val, rest)
    ensures Printed(Unsigned(val), 10, true).Text?
    ensures Parsed(blanks + Printed(Unsigned(val), 10, true).text + rest)
            == if -(INT_MAX as int) <= val <= INT_MAX then Number(val) else Overflow
  {
    NumbufSufficesExactly(10, true);
    hide Digits, Accumulate;
    var s := Printed(Unsigned(val), 10, true).text;
    assert blanks + s + rest == blanks + (s + rest);
    BlanksSkipped(blanks, s + rest);
    if val == 0 {
      ZeroParsed(rest);
    } else {
      NonzeroParsed(val, rest);
    }
    SkippedAlready(s + rest);
  }

  lemma ZeroParsed(rest: string)
    requires Ends(0, rest)
    ensures Accumulate(SkipPrefix("0" + rest), 0) == Number(0)
  {
    assert ("0" + rest)[1..] == rest;
  }

  lemma SkippedAlready(s: string)
    requires s != [] && !Blank(s[0])
    ensures SkipBlanks(s) == s
  {
  }

  lemma SignedParsed(sign: string, digits: string, rest: string)
    requires sign == "" || sign == "-"
    requires digits != [] && digits[0] != '0' && IsDigit(digits[0])
    ensures var s := sign + digits + rest;
            s != [] && !Blank(s[0])
            && Unblanked(s) == Negated(Accumulate(digits + rest, 0), sign == "-")
  {
    hide Accumulate;
    var s := sign + digits + rest;
    assert SkipPrefix(digits + rest) == digits + rest;
    if sign == "" {
      assert s == digits + rest;
    } else {
      assert s[1..] == digits + rest;
    }
  }

  lemma NonzeroParsed(val: int, rest: string)
    requires -(ULL_RANGE / 2) <= val < ULL_RANGE / 2 && val != 0
    requires Ends(val, rest)
    ensures Printed(Unsigned(val), 10, true).Text?
    ensures var s := Printed(Unsigned(val), 10, true).text + rest;
            s != [] && !Blank(s[0])
            && Unblanked(s) == if -(INT_MAX as int) <= val <= INT_MAX then Number(val) else Overflow
  {
    NumbufSufficesExactly(10, true);
    PrintedParts(Unsigned(val), 10, true);
    hide Digits, Accumulate, Printed, Unblanked, SkipPrefix;
    var m := Magnitude(Unsigned(val), true);
    DecimalDigits(m);
    AccumulateDigits(m, rest);
    SignedParsed(Sign(Unsigned(val), true), Digits(m, 10), rest);
  }

  // ----- Hexadecimal texts

  predicate IsHex(c: char) {
    IsDigit(c) || 'A' <= c <= 'F' || 'a' <= c <= 'f'
  }

  function HexDigit(c: char): nat
    requires IsHex(c)
  {
    if IsDigit(c) then c as nat - '0' as nat
    else if c <= 'F' then c as nat - 'A' as nat + 10
    else c as nat - 'a' as nat + 10
  }

  predicate AllHex(s: string) {
    forall i :: 0 <= i < |s| ==> IsHex(s[i])
  }

  /** What hexadecimal digits stand for, behind others that stand for num. */
  function HexValue(s: string, num: nat): (r: nat)
    requires AllHex(s)
    ensures r >= num
  {
    if s == [] then num else HexValue(s[1..], num * 16 + HexDigit(s[0]))
  }

  /** Once the hexadecimal value is ahead of the decimal reading it stays ahead. */
  lemma {:induction false} HexStaysAhead(s: string, num: nat, hex: nat)
    requires AllHex(s) && num < hex
    ensures Accumulate(s, num) != Number(HexValue(s, hex))
  {
    if s != [] && IsDigit(s[0]) {
      HexStaysAhead(s[1..], num * 10 + HexDigit(s[0]), hex * 16 + HexDigit(s[0]));
    }
  }

  lemma {:induction false} HexAgainstDecimal(s: string, num: nat)
    requires AllHex(s) && num <= 9
    ensures Accumulate(s, num) == Number(HexValue(s, num)) <==> HexValue(s, num) <= 9
  {
    if s != [] && IsDigit(s[0]) {
      if num == 0 {
        HexAgainstDecimal(s[1..], HexDigit(s[0]));
      } else {
        HexStaysAhead(s[1..], num * 10 + HexDigit(s[0]), num * 16 + HexDigit(s[0]));
      }
    }
  }

  /** A hexadecimal number behind 0x, with blanks and a sign in front, is read as what it stands for exactly
      when that is below 10: the digits are weighted by ten, and none above 9 is read. */
  lemma ParseHexExactly(blanks: string, negative: bool, s: string)
    requires (forall i :: 0 <= i < |blanks| ==> Blank(blanks[i])) && AllHex(s)
    ensures Parsed(blanks + ((if negative then "-" else "") + ("0x" + s)))
            == Number(if negative then -(HexValue(s, 0) as int) else HexValue(s, 0))
            <==> HexValue(s, 0) <= 9
  {
    hide Accumulate, HexValue;
    var sign := if negative then "-" else "";
    var t := sign + ("0x" + s);
    BlanksSkipped(blanks, t);
    SkippedAlready(t);
    assert ("0x" + s)[2..] == s;
    assert SkipPrefix("0x" + s) == s;
    if negative {
      assert t[1..] == "0x" + s;
    } else {
      assert t == "0x" + s;
    }
    HexAgainstDecimal(s, 0);
  }
}
