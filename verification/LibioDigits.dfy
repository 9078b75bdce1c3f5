/** What the C library prints and reads, digit by digit, in the codes of the characters. */
module LibioDigits {
  import opened CharacterTypes
  import opened NatArithmetic
  import opened LibioConvert

  // ----- Printing

  /** The digit of a remainder, of which the low 8 bits are kept: 0 to 9, then capital letters and what follows. */
  predicate IsDigitOf(c: char, rem: nat) {
    var r := rem % 256;
    c as int == if r < 10 then 48 + r else (55 + r) % 256
  }

  /** A value below the base is printed as its digit, in every base that divides at all. */
  lemma OneDigitPrinted(val: nat, base: nat, signed: bool)
    requires val < base && 2 <= base && val < 0x8000_0000_0000_0000
    ensures var p := Printed(val, base, signed);
            p.Text? && |p.text| == 1 && IsDigitOf(p.text[0], val)
  {
    if val > 0 {
      OneDigit(val, base);
    }
  }

  /** A value of more digits is printed as its higher digits and the lowest one behind them. */
  lemma DigitBehind(high: nat, digit: nat, base: nat)
    requires 2 <= base <= 256 && high > 0 && digit < base && high * base + digit < 0x1_0000_0000_0000_0000
    requires Printed(high * base + digit, base, false).Text?
    ensures high < 0x1_0000_0000_0000_0000 && Printed(high, base, false).Text?
    ensures var (t, h) := (Printed(high * base + digit, base, false).text, Printed(high, base, false).text);
            |t| == |h| + 1 && t[..|h|] == h && IsDigitOf(t[|h|], digit)
  {
    hide Rest, LastDigit, Digits, DigitChar;
    var val := high * base + digit;
    NotLess(high, base);
    UnsignedPrinted(val, base);
    UnsignedPrinted(high, base);
    DigitsBehind(high, digit, base);
    CharacterOf(digit);
  }

  lemma NotLess(a: nat, b: nat)
    requires b >= 1
    ensures a <= a * b
  {
    ProductMonotone(1, b, a, a);
    ProductCommutes(a, b);
  }

  lemma UnsignedPrinted(val: nat, base: nat)
    requires 0 < val < 0x1_0000_0000_0000_0000 && base >= 2
    ensures Printed(val, base, false) == if |Digits(val, base)| > 24 then Overrun else Text(Digits(val, base))
  {
    hide Digits;
    assert "" + Digits(val, base) == Digits(val, base);
  }

  lemma DigitsBehind(high: nat, digit: nat, base: nat)
    requires 2 <= base <= 256 && high > 0 && digit < base
    ensures Digits(high * base + digit, base) == Digits(high, base) + [DigitChar(digit)]
  {
    hide Rest, LastDigit, DigitChar;
    NotLess(high, base);
    QuotientAndDigit(high, digit, base);
  }

  lemma CharacterOf(digit: nat)
    requires digit < 256
    ensures IsDigitOf(DigitChar(digit), digit)
  {
  }

  lemma ProductCommutes(a: nat, b: nat)
    ensures a * b == b * a
  {
  }

  lemma QuotientAndDigit(high: nat, digit: nat, base: nat)
    requires 2 <= base <= 256 && digit < base
    ensures Rest(high * base + digit, base) == high && LastDigit(high * base + digit, base) == digit
  {
    var val := high * base + digit;
    ProductCommutes(high, base);
    Division(val, base);
    var q := val / base;
    if q < high {
      MultipleMonotone(base, q, high);
    } else if high < q {
      MultipleMonotone(base, high, q);
    }
    RestAndDigit(val, base);
    ProductCommutes(q, base);
  }

  /** A signed value from 2 to the 63 on is printed as a minus sign and its negative; others as they are. */
  lemma MinusPrinted(val: nat, base: nat)
    requires val < 0x1_0000_0000_0000_0000
    ensures val < 0x8000_0000_0000_0000 ==> Printed(val, base, true) == Printed(val, base, false)
    ensures val >= 0x8000_0000_0000_0000 ==>
              Printed(val, base, true) == match Printed(0x1_0000_0000_0000_0000 - val, base, false)
                                          case Text(t) => Text("-" + t)
                                          case other => other
  {
    if base >= 2 && val > 0 {
      assert "" + Digits(val, base) == Digits(val, base);
      if val >= 0x8000_0000_0000_0000 {
        var m := 0x1_0000_0000_0000_0000 - val;
        assert "" + Digits(m, base) == Digits(m, base);
      }
    }
  }

  /** In base 2 there is room for 24 digits. */
  lemma BinaryPrintedExactly(val: nat)
    requires val < 0x1_0000_0000_0000_0000
    ensures Printed(val, 2, false).Text? <==> val < 16777216
  {
    DigitCountExactly(val, 2, 24);
    assert Pow(2, 24) == 16777216 by {
      assert Pow(2, 6) == 64;
      assert Pow(2, 12) == 4096;
      PowSum(2, 12, 12);
    }
  }

  // ----- Reading

  ghost predicate AllDigits(s: string) {
    forall i :: 0 <= i < |s| ==> 48 <= s[i] as int <= 57
  }

  /** Blanks and tabs in front do not matter. */
  lemma BlankInFront(s: string)
    ensures Parsed(" " + s) == Parsed(s) && Parsed("\t" + s) == Parsed(s)
  {
    assert (" " + s)[1..] == s && ("\t" + s)[1..] == s;
  }

  /** Anything else that is no digit and no minus sign ends the number before it begins. */
  lemma OtherInFront(c: char, s: string)
    requires c as int != 32 && c as int != 9 && c as int != 45 && !(48 <= c as int <= 57)
    ensures Parsed([c] + s) == Number(0)
  {
    assert SkipBlanks([c] + s) == [c] + s;
  }

  lemma SkippedOnce(s: string)
    requires s != [] && 48 <= s[0] as int <= 57
    ensures Parsed(s) == Accumulate(SkipPrefix(s), 0)
  {
  }

  /** A minus sign negates. */
  lemma MinusRead(s: string)
    requires s != [] && 48 <= s[0] as int <= 57
    ensures Parsed("-" + s) == match Parsed(s) case Number(v) => Number(-v) case Overflow => Overflow
  {
    hide Accumulate;
    SkippedOnce(s);
    assert ("-" + s)[1..] == s && SkipBlanks("-" + s) == "-" + s;
  }

  /** A single digit is its value. */
  lemma OneDigitRead(c: char)
    requires 48 <= c as int <= 57
    ensures Parsed([c]) == Number(c as int - 48)
  {
    SkippedOnce([c]);
    assert [c][1..] == [];
  }

  /** A digit more is the number so far times ten and the digit, up to the largest int. */
  lemma DigitRead(s: string, c: char)
    requires s != [] && AllDigits(s) && 48 <= c as int <= 57
    ensures Parsed(s + [c]) == match Parsed(s)
                               case Overflow => Overflow
                               case Number(v) =>
                                 if v * 10 + (c as int - 48) <= 2147483647 then Number(v * 10 + (c as int - 48))
                                 else Overflow
  {
    hide Accumulate;
    SkippedOnce(s);
    SkippedOnce(s + [c]);
    var t := if s[0] == '0' then s[1..] else s;
    assert SkipPrefix(s) == t;
    assert SkipPrefix(s + [c]) == t + [c] by {
      if s[0] == '0' {
        assert (s + [c])[1..] == s[1..] + [c];
        assert (s + [c])[1] != 'x';
      }
    }
    AccumulateAppend(t, [c], 0);
    AccumulateNatural(t, 0);
    LastCharacter(c, Accumulate(t, 0));
  }

  lemma {:induction false} AccumulateNatural(s: string, num: nat)
    ensures Accumulate(s, num).Number? ==> Accumulate(s, num).value >= 0
  {
    if s != [] && IsDigit(s[0]) {
      var next := num * 10 + (s[0] as nat - '0' as nat);
      AccumulateNatural(s[1..], next);
    }
  }

  lemma LastCharacter(c: char, o: Outcome)
    requires 48 <= c as int <= 57 && (o.Number? ==> o.value >= 0)
    ensures o.Number? ==> Accumulate([c], o.value)
                          == if o.value * 10 + (c as int - 48) <= 2147483647
                             then Number(o.value * 10 + (c as int - 48)) else Overflow
  {
    assert [c][1..] == [];
  }

  /** Which characters of a hexadecimal text are worth how much. */
  lemma HexadecimalDigits(c: char)
    ensures IsHex(c) <==> 48 <= c as int <= 57 || 65 <= c as int <= 70 || 97 <= c as int <= 102
    ensures IsHex(c) ==> HexDigit(c) as int == if c as int <= 57 then c as int - 48
                                               else if c as int <= 70 then c as int - 55 else c as int - 87
  {
  }

  /** Zeros in front do not matter, nor does 0x in front of digits: they are read as decimal ones. */
  lemma PrefixRead(s: string)
    requires s != [] && AllDigits(s)
    ensures Parsed("0" + s) == Parsed(s) && Parsed("0x" + s) == Parsed(s)
  {
    SkippedOnce(s);
    SkippedOnce("0" + s);
    SkippedOnce("0x" + s);
    assert ("0" + s)[1..] == s && ("0x" + s)[2..] == s;
    assert s[0] == '0' ==> SkipPrefix(s) == s[1..] && Accumulate(s, 0) == Accumulate(s[1..], 0);
  }
}
