/**
  How lines of the JDA shell are cut into tokens, in the codes of their characters. A single character is a
  symbol, starts a number, a name or a string, is skipped, ends the line or is an error.
 */
module JdaCharacters {
  import opened Wrappers
  import opened CharacterTypes
  import opened JdaTokens
  import opened JdaLexer

  predicate DigitCode(c: char) {
    48 <= c as int <= 57
  }

  predicate LetterCode(c: char) {
    65 <= c as int <= 90 || 97 <= c as int <= 122
  }

  predicate Digits(s: string) {
    forall i :: 0 <= i < |s| ==> DigitCode(s[i])
  }

  // ----- Numbers

  /** From k on there are digits only. */
  lemma {:induction false} DigitsToEnd(s: string, k: nat, point: bool)
    requires k <= |s| && forall i :: k <= i < |s| ==> DigitCode(s[i])
    ensures SkipNumber(s, k, point) == Some(|s|)
    decreases |s| - k
  {
    if k < |s| {
      DigitsToEnd(s, k + 1, point);
    }
  }

  /** Digits, and then a point at n. */
  lemma {:induction false} DigitsToPoint(s: string, k: nat, n: nat, point: bool)
    requires k < n < |s| && s[n] == '.' && forall i :: k <= i < n ==> DigitCode(s[i])
    ensures SkipNumber(s, k, point) == if point then None else SkipNumber(s, n + 1, true)
    decreases n - k
  {
    if k + 1 < n {
      DigitsToPoint(s, k + 1, n, point);
    }
  }

  /** Digits are one number to their end, with digits behind a point, too; a second point is an error, unless it
      comes right behind the first. */
  lemma NumbersScanned(d: string, f: string)
    requires d != "" && Digits(d) && Digits(f)
    ensures SkipNumber(d, 0, false) == Some(|d|)
    ensures SkipNumber(d + "." + f, 0, false) == Some(|d| + 1 + |f|)
    ensures SkipNumber(d + "." + f + ".", 0, false) == if f == "" then Some(|d| + 1) else None
  {
    DigitsToEnd(d, 0, false);
    var s, t := d + "." + f, d + "." + f + ".";
    DigitsToPoint(s, 0, |d|, false);
    DigitsToEnd(s, |d| + 1, true);
    DigitsToPoint(t, 0, |d|, false);
    if f != "" {
      DigitsToPoint(t, |d| + 1, |s|, true);
    }
  }

  /** Such a line is one number token, or an error. */
  lemma NumberLine(rd: Reader, d: string, f: string)
    requires d != "" && Digits(d) && Digits(f)
    ensures Lex(rd, d, 0, []) == Tokens([Num(Number(rd.atof(d), 0.0, 1.0))])
    ensures Lex(rd, d + "." + f, 0, []) == Tokens([Num(Number(rd.atof(d + "." + f), 0.0, 1.0))])
    ensures f != "" ==> Lex(rd, d + "." + f + ".", 0, []) == LexError([])
  {
    hide Lex, SkipNumber;
    NumbersScanned(d, f);
    OneNumber(rd, d);
    OneNumber(rd, d + "." + f);
    var t := d + "." + f + ".";
    assert t[0] == d[0] && (|d| > 1 ==> t[1] == d[1]) && (|d| == 1 ==> t[1] == '.');
    if f != "" {
      NoNumber(rd, t);
    }
  }

  lemma NoNumber(rd: Reader, s: string)
    requires s != "" && DigitCode(s[0]) && At(s, 1) != 'x' && SkipNumber(s, 0, false) == None
    ensures Lex(rd, s, 0, []) == LexError([])
  {
    hide SkipNumber, SkipHex, SkipWord, SkipString, SkipSpaces;
  }

  lemma OneNumber(rd: Reader, s: string)
    requires s != "" && DigitCode(s[0]) && At(s, 1) != 'x' && SkipNumber(s, 0, false) == Some(|s|)
    ensures Lex(rd, s, 0, []) == Tokens([Num(Number(rd.atof(s), 0.0, 1.0))])
  {
    hide SkipNumber, SkipHex, SkipWord, SkipString, SkipSpaces;
    assert s[0..|s|] == s;
    assert Scan(rd, s, 0) == Some((Num(Number(rd.atof(s), 0.0, 1.0)), |s|));
  }

  /** Behind 0x decimal digits are taken along, and nothing else. */
  lemma HexadecimalLine(rd: Reader, h: string, c: char)
    requires Digits(h) && LetterCode(c)
    ensures Lex(rd, "0x" + h, 0, []) == Tokens([Num(Number(rd.atof("0x" + h), 0.0, 1.0))])
    ensures Scan(rd, "0x" + h + [c], 0) == Some((Num(Number(rd.atof("0x" + h), 0.0, 1.0)), |h| + 2))
  {
    hide Lex, Scan;
    var s, t := "0x" + h, "0x" + h + [c];
    HexToEnd(s, 2, |s|);
    HexToEnd(t, 2, |s|);
    OneHexadecimal(rd, s, |s|);
    OneHexadecimal(rd, t, |s|);
    assert s[0..|s|] == s && t[0..|s|] == s;
    WholeLine(rd, s, Num(Number(rd.atof(s), 0.0, 1.0)));
  }

  lemma OneHexadecimal(rd: Reader, s: string, n: nat)
    requires |s| >= 2 && s[0] == '0' && s[1] == 'x' && SkipHex(s, 2) == n
    ensures n <= |s| && Scan(rd, s, 0) == Some((Num(Number(rd.atof(s[0..n]), 0.0, 1.0)), n))
  {
    hide SkipHex, SkipNumber, SkipWord, SkipString;
  }

  /** A line that is scanned to its end as one token. */
  lemma WholeLine(rd: Reader, s: string, t: Token)
    requires s != "" && s[0] != '\0' && !IsBlank(s[0]) && Scan(rd, s, 0) == Some((t, |s|)) && !t.LParen?
    ensures Lex(rd, s, 0, []) == Tokens([t])
  {
    hide Scan;
    assert Push([], t) == [t];
  }

  lemma {:induction false} HexToEnd(s: string, k: nat, n: nat)
    requires k <= n <= |s| && forall i :: k <= i < n ==> DigitCode(s[i])
    requires n < |s| ==> LetterCode(s[n])
    ensures SkipHex(s, k) == n
    decreases n - k
  {
    if k < n {
      HexToEnd(s, k + 1, n);
    } else if n < |s| {
      HexDigitsAreDecimal(s[n]);
    }
  }

  // ----- Names

  predicate WordCode(c: char) {
    LetterCode(c) || DigitCode(c) || c as int == 95
  }

  /** Letters, digits and underscores are one name, unless a digit comes first. */
  lemma NameLine(rd: Reader, s: string)
    requires s != "" && !DigitCode(s[0]) && forall i :: 0 <= i < |s| ==> WordCode(s[i])
    ensures Lex(rd, s, 0, []) == Tokens([Ident(s)])
  {
    assert forall i :: 0 <= i < |s| ==> IsWord(s[i]);
    WordToEnd(s, 0);
    assert s[0..|s|] == s;
    assert Scan(rd, s, 0) == Some((Ident(s), |s|));
  }

  lemma {:induction false} WordToEnd(s: string, k: nat)
    requires k <= |s| && forall i :: 0 <= i < |s| ==> IsWord(s[i])
    ensures SkipWord(s, k) == |s|
    decreases |s| - k
  {
    if k < |s| {
      WordToEnd(s, k + 1);
    }
  }

  // ----- Strings

  /** No quote, no backslash and no zero byte. */
  predicate PlainCode(c: char) {
    c as int !in [34, 92, 0]
  }

  predicate PlainText(s: string) {
    forall i :: 0 <= i < |s| ==> PlainCode(s[i])
  }

  /** Plain characters from k up to n, where the line ends or a quote stands. */
  lemma {:induction false} PlainToQuote(s: string, k: nat, n: nat)
    requires k <= n <= |s| && (n < |s| ==> s[n] == '"') && forall i :: k <= i < n ==> PlainCode(s[i])
    ensures SkipString(s, k) == n
    decreases n - k
  {
    if k < n {
      PlainToQuote(s, k + 1, n);
    }
  }

  /** Between quotes, or behind a quote to the end of the line, a text is one string; an empty one is an error. */
  lemma StringLine(rd: Reader, x: string)
    requires x != "" && PlainText(x)
    ensures Lex(rd, "\"" + x + "\"", 0, []) == Tokens([Str(rd.unescape(x))])
    ensures Lex(rd, "\"" + x, 0, []) == Tokens([Str(rd.unescape(x))])
    ensures Lex(rd, "\"\"", 0, []) == LexError([])
  {
    hide Lex, Scan;
    var s, t := "\"" + x + "\"", "\"" + x;
    PlainToQuote(s, 1, |x| + 1);
    PlainToQuote(t, 1, |x| + 1);
    OneString(rd, s, |x| + 1);
    OneString(rd, t, |x| + 1);
    assert s[1..|x| + 1] == x && t[1..|x| + 1] == x;
    WholeLine(rd, s, Str(rd.unescape(x)));
    WholeLine(rd, t, Str(rd.unescape(x)));
    NoString(rd);
  }

  lemma OneString(rd: Reader, s: string, n: nat)
    requires 1 < n <= |s| && s[0] == '"' && SkipString(s, 1) == n
    ensures Scan(rd, s, 0) == Some((Str(rd.unescape(s[1..n])), if n < |s| && s[n] == '"' then n + 1 else n))
  {
    hide SkipHex, SkipNumber, SkipWord, SkipString;
  }

  lemma NoString(rd: Reader)
    ensures Lex(rd, "\"\"", 0, []) == LexError([])
  {
    PlainToQuote("\"\"", 1, 1);
  }

  /** A backslash behind at least one character makes a quote part of the string. */
  lemma QuoteInString(x: string, y: string)
    requires x != "" && PlainText(x) && PlainText(y)
    ensures Quotable(x + "\\\"" + y)
  {
    var s := x + "\\\"" + y + "\"";
    PlainToBackslash(s, 0, |x|);
    PlainToQuote(s, |x| + 2, |s| - 1);
    assert x + "\\\"" + y + "\"" == s;
  }

  lemma {:induction false} PlainToBackslash(s: string, k: nat, n: nat)
    requires k < n && n + 1 < |s| && s[n] == '\\' && s[n + 1] == '"' && forall i :: k <= i < n ==> PlainCode(s[i])
    ensures SkipString(s, k) == SkipString(s, n + 2)
    decreases n - k
  {
    if k + 1 < n {
      PlainToBackslash(s, k + 1, n);
    }
  }

  // ----- Single characters

  /** The fifteen symbols. */
  lemma SymbolLines(rd: Reader)
    ensures Lex(rd, "(", 0, []) == Tokens([LParen])
    ensures Lex(rd, ")", 0, []) == Tokens([RParen])
    ensures Lex(rd, "{", 0, []) == Tokens([LBrace])
    ensures Lex(rd, "}", 0, []) == Tokens([RBrace])
    ensures Lex(rd, "+", 0, []) == Tokens([Operator(Sum)])
    ensures Lex(rd, "-", 0, []) == Tokens([Operator(Sub)])
    ensures Lex(rd, "*", 0, []) == Tokens([Operator(Mul)])
    ensures Lex(rd, "/", 0, []) == Tokens([Operator(Div)])
    ensures Lex(rd, "%", 0, []) == Tokens([Operator(Rem)])
    ensures Lex(rd, "^", 0, []) == Tokens([Operator(Exponent)])
    ensures Lex(rd, "=", 0, []) == Tokens([Assign])
    ensures Lex(rd, ".", 0, []) == Tokens([Dot])
    ensures Lex(rd, ",", 0, []) == Tokens([Comma])
    ensures Lex(rd, ":", 0, []) == Tokens([Colon])
    ensures Lex(rd, ";", 0, []) == Tokens([Semicolon])
  {
    hide Lex;
    SymbolAlone(rd, '(', LParen);
    SymbolAlone(rd, ')', RParen);
    SymbolAlone(rd, '{', LBrace);
    SymbolAlone(rd, '}', RBrace);
    SymbolAlone(rd, '+', Operator(Sum));
    SymbolAlone(rd, '-', Operator(Sub));
    SymbolAlone(rd, '*', Operator(Mul));
    SymbolAlone(rd, '/', Operator(Div));
    SymbolAlone(rd, '%', Operator(Rem));
    SymbolAlone(rd, '^', Operator(Exponent));
    SymbolAlone(rd, '=', Assign);
    SymbolAlone(rd, '.', Dot);
    SymbolAlone(rd, ',', Comma);
    SymbolAlone(rd, ':', Colon);
    SymbolAlone(rd, ';', Semicolon);
  }

  lemma SymbolAlone(rd: Reader, c: char, t: Token)
    requires Symbol(c) == Some(t)
    ensures Lex(rd, [c], 0, []) == Tokens([t])
  {
    hide SkipHex, SkipNumber, SkipWord, SkipString, SkipSpaces;
    assert Scan(rd, [c], 0) == Some((t, 1));
    assert Push([], t) == [t];
  }

  /** Every other printing character is an error: one that is no symbol, letter, digit, underscore, quote, blank,
      tab or line end. */
  lemma OtherCharacter(rd: Reader, c: char, ts: seq<Token>)
    requires !WordCode(c) && c !in "(){}+-/%*^=.,:;\"" && c as int !in [0, 9, 10, 13, 32]
    ensures Lex(rd, [c], 0, ts) == LexError(ts)
  {
  }

  // ----- Blanks in front

  /** p is s with a character in front. */
  predicate Moved(p: string, s: string) {
    |p| == |s| + 1 && forall k :: 0 <= k < |s| ==> p[k + 1] == s[k]
  }

  lemma MovedAt(p: string, s: string, i: nat)
    requires Moved(p, s)
    ensures At(p, i + 1) == At(s, i)
  {
  }

  lemma {:induction false} NumberShift(p: string, s: string, i: nat, point: bool)
    requires Moved(p, s) && i <= |s|
    ensures SkipNumber(p, i + 1, point)
         == match SkipNumber(s, i, point) case None => None case Some(j) => Some(j + 1)
    decreases |s| - i
  {
    hide At, Moved;
    MovedAt(p, s, i);
    MovedAt(p, s, i + 1);
    InRange(p, s, i);
    if i < |s| && IsDigit(s[i]) {
      if At(s, i + 1) == '.' {
        InRange(s, s, i + 1);
        if !point {
          NumberShift(p, s, i + 2, true);
        }
      } else {
        NumberShift(p, s, i + 1, point);
      }
    }
  }

  lemma InRange(p: string, s: string, i: nat)
    ensures Moved(p, s) && i < |s| ==> i + 1 < |p| == |s| + 1 && p[i + 1] == s[i]
    ensures Moved(p, s) ==> |p| == |s| + 1
    ensures At(s, i) != '\0' ==> i < |s| && At(s, i) == s[i]
  {
  }

  lemma {:induction false} WordShift(c: char, s: string, i: nat)
    requires i <= |s|
    ensures SkipWord([c] + s, i + 1) == SkipWord(s, i) + 1
    decreases |s| - i
  {
    if i < |s| {
      assert ([c] + s)[i + 1] == s[i];
      WordShift(c, s, i + 1);
    }
  }

  lemma {:induction false} HexShift(c: char, s: string, i: nat)
    requires i <= |s|
    ensures SkipHex([c] + s, i + 1) == SkipHex(s, i) + 1
    decreases |s| - i
  {
    if i < |s| {
      assert ([c] + s)[i + 1] == s[i];
      HexShift(c, s, i + 1);
    }
  }

  lemma {:induction false} SpacesShift(c: char, s: string, i: nat)
    requires i <= |s|
    ensures SkipSpaces([c] + s, i + 1) == SkipSpaces(s, i) + 1
    decreases |s| - i
  {
    if i < |s| {
      assert ([c] + s)[i + 1] == s[i];
      SpacesShift(c, s, i + 1);
    }
  }

  lemma {:induction false} StringShift(p: string, s: string, i: nat)
    requires Moved(p, s) && i <= |s|
    ensures SkipString(p, i + 1) == SkipString(s, i) + 1
    decreases |s| - i
  {
    hide At, Moved;
    MovedAt(p, s, i);
    MovedAt(p, s, i + 1);
    MovedAt(p, s, i + 2);
    InRange(p, s, i);
    InRange(p, s, i + 1);
    InRange(p, s, i + 2);
    if At(s, i) != '\0' && s[i] != '"' {
      if At(s, i + 1) != '\\' {
        StringShift(p, s, i + 1);
      } else if At(s, i + 2) == '"' {
        StringShift(p, s, i + 3);
      } else {
        StringShift(p, s, i + 2);
      }
    }
  }

  lemma ScanShift(rd: Reader, c: char, s: string, i: nat)
    requires i < |s| && !IsBlank(s[i])
    ensures !IsBlank(([c] + s)[i + 1])
    ensures Scan(rd, [c] + s, i + 1) == Shifted(Scan(rd, s, i))
  {
    hide Scan, Symbol, IsWord;
    assert ([c] + s)[i + 1] == s[i];
    if Symbol(s[i]).None? && IsDigit(s[i]) {
      NumberScanShift(rd, c, s, i);
    } else if Symbol(s[i]).None? && s[i] == '"' {
      StringScanShift(rd, c, s, i);
    } else {
      OtherScanShift(rd, c, s, i);
    }
  }

  function Shifted(r: Option<(Token, nat)>): Option<(Token, nat)> {
    match r case None => None case Some((t, j)) => Some((t, j + 1))
  }

  lemma NumberScanShift(rd: Reader, c: char, s: string, i: nat)
    requires i < |s| && !IsBlank(s[i]) && Symbol(s[i]).None? && IsDigit(s[i]) && ([c] + s)[i + 1] == s[i]
    ensures Scan(rd, [c] + s, i + 1) == Shifted(Scan(rd, s, i))
  {
    hide SkipNumber, SkipHex, Symbol, IsWord;
    assert At([c] + s, i + 2) == At(s, i + 1);
    NumberShift([c] + s, s, i, false);
    HexShift(c, s, if i + 2 <= |s| then i + 2 else i);
    SameSlices(c, s);
  }

  lemma StringScanShift(rd: Reader, c: char, s: string, i: nat)
    requires i < |s| && !IsBlank(s[i]) && Symbol(s[i]).None? && s[i] == '"' && ([c] + s)[i + 1] == s[i]
    ensures Scan(rd, [c] + s, i + 1) == Shifted(Scan(rd, s, i))
  {
    hide SkipString, Symbol, IsWord;
    StringShift([c] + s, s, i + 1);
    SameSlices(c, s);
    var j := SkipString(s, i + 1);
    assert At([c] + s, j + 1) == At(s, j);
  }

  lemma OtherScanShift(rd: Reader, c: char, s: string, i: nat)
    requires i < |s| && !IsBlank(s[i]) && ([c] + s)[i + 1] == s[i]
    requires Symbol(s[i]).Some? || (!IsDigit(s[i]) && s[i] != '"')
    ensures Scan(rd, [c] + s, i + 1) == Shifted(Scan(rd, s, i))
  {
    hide SkipWord, Symbol;
    WordShift(c, s, i);
    SameSlices(c, s);
  }

  lemma SameSlices(c: char, s: string)
    ensures forall i, j :: 0 <= i <= j <= |s| ==> ([c] + s)[i + 1..j + 1] == s[i..j]
  {
  }

  /** A character in front shifts the positions of a line and nothing else. */
  lemma {:induction false} LexShift(rd: Reader, c: char, s: string, i: nat, ts: seq<Token>)
    requires i <= |s|
    ensures Lex(rd, [c] + s, i + 1, ts) == Lex(rd, s, i, ts)
    decreases |s| - i
  {
    hide Scan, SkipSpaces, Push;
    assert At([c] + s, i + 1) == At(s, i);
    if At(s, i) != '\0' {
      if IsBlank(s[i]) {
        SpacesShift(c, s, i);
        BlankSkipped(s, i);
        LexShift(rd, c, s, SkipSpaces(s, i), ts);
      } else {
        ScanShift(rd, c, s, i);
        var r := Scan(rd, s, i);
        if r.Some? {
          LexShift(rd, c, s, r.value.1, Push(ts, r.value.0));
        }
      }
    }
  }

  lemma BlankSkipped(s: string, i: nat)
    requires i < |s| && IsBlank(s[i])
    ensures i < SkipSpaces(s, i) <= |s|
  {
  }

  /** A blank, a tab or a line end in front of a line does not matter, unless a vertical tab or a form feed, which
      are errors elsewhere, comes behind it. */
  lemma BlankBefore(rd: Reader, c: char, s: string, ts: seq<Token>)
    requires c as int in [32, 9, 13, 10] && (s != "" ==> s[0] as int != 11 && s[0] as int != 12)
    ensures Lex(rd, [c] + s, 0, ts) == Lex(rd, s, 0, ts)
  {
    hide Scan, Push;
    assert ([c] + s)[0] == c && IsBlank(c);
    SpacesShift(c, s, 0);
    LexShift(rd, c, s, SkipSpaces(s, 0), ts);
    assert SkipSpaces([c] + s, 0) == SkipSpaces([c] + s, 1);
    assert s != "" && !IsBlank(s[0]) ==> SkipSpaces(s, 0) == 0;
  }

  /** Behind a blank they are skipped like one. */
  lemma VerticalTab(rd: Reader, c: char, s: string, ts: seq<Token>)
    requires c as int == 11 || c as int == 12
    ensures Lex(rd, " " + ([c] + s), 0, ts) == Lex(rd, " " + s, 0, ts)
  {
    hide Scan, Push;
    var p, q := " " + ([c] + s), " " + s;
    SpacesShift(' ', [c] + s, 0);
    SpacesShift(c, s, 0);
    SpacesShift(' ', s, 0);
    assert p[0] == ' ' && q[0] == ' ' && ([c] + s)[0] == c;
    var j := SkipSpaces(s, 0);
    assert SkipSpaces([c] + s, 0) == j + 1;
    LexShift(rd, ' ', [c] + s, j + 1, ts);
    LexShift(rd, c, s, j, ts);
    LexShift(rd, ' ', s, j, ts);
    assert SkipSpaces(p, 0) == SkipSpaces(p, 1) && SkipSpaces(q, 0) == SkipSpaces(q, 1);
  }

  /** A zero byte ends the line, whatever stands behind it. */
  lemma ZeroEndsLine(rd: Reader, s: string, ts: seq<Token>)
    ensures Lex(rd, "\0" + s, 0, ts) == Tokens(ts)
  {
  }
}
