/**
  jda_lex_line (sys/jda/jda.cxx) as a function on the characters of a line, and the round trip
  through the printed form of a token list. The method in JdaContext.dfy is proved against it.
 */
module JdaLexer {
  import opened Wrappers
  import opened JdaTokens
  import opened CharacterTypes

  /** atof, in whatever float arithmetic, and the rewriting of escapes in a string. */
  datatype Reader = Reader(atof: string -> real, unescape: string -> string)

  /** The blanks that start a run of skipped characters ... */
  predicate IsBlank(c: char) {
    c == ' ' || c == '\t' || c == '\r' || c == '\n'
  }

  /** ... and those that continue it: a vertical tab and a form feed count too. */
  predicate IsSpace(c: char) {
    IsBlank(c) || c == '\U{0B}' || c == '\U{0C}'
  }

  predicate IsWord(c: char) {
    c == '_' || IsDigit(c) || 'a' <= c <= 'z' || 'A' <= c <= 'Z'
  }

  /** The character at i; the terminating zero byte at the end. A line stops at its first zero byte. */
  function At(line: string, i: nat): char {
    if i < |line| then line[i] else '\0'
  }

  /** The one-character tokens. */
  function Symbol(c: char): Option<Token> {
    match c
    case '(' => Some(LParen)
    case ')' => Some(RParen)
    case '{' => Some(LBrace)
    case '}' => Some(RBrace)
    case '+' => Some(Operator(Sum))
    case '-' => Some(Operator(Sub))
    case '/' => Some(Operator(Div))
    case '%' => Some(Operator(Rem))
    case '*' => Some(Operator(Mul))
    case '^' => Some(Operator(Exponent))
    case '=' => Some(Assign)
    case '.' => Some(Dot)
    case ',' => Some(Comma)
    case ':' => Some(Colon)
    case ';' => Some(Semicolon)
    case _ => None
  }

  /** Appending a token; an identifier in front of a left parenthesis becomes a function. */
  function Push(ts: seq<Token>, t: Token): (r: seq<Token>)
    ensures |r| == |ts| + 1
  {
    if t.LParen? && ts != [] && ts[|ts|-1].Ident? then ts[..|ts|-1] + [Function(ts[|ts|-1].name, 0), t]
    else ts + [t]
  }

  function SkipSpaces(line: string, i: nat): (j: nat)
    requires i <= |line|
    ensures i <= j <= |line|
    ensures forall k :: i <= k < j ==> IsSpace(line[k])
    ensures j < |line| ==> !IsSpace(line[j])
    decreases |line| - i
  {
    if i < |line| && IsSpace(line[i]) then SkipSpaces(line, i + 1) else i
  }

  function SkipWord(line: string, i: nat): (j: nat)
    requires i <= |line|
    ensures i <= j <= |line|
    ensures forall k :: i <= k < j ==> IsWord(line[k])
    ensures j < |line| ==> !IsWord(line[j])
    decreases |line| - i
  {
    if i < |line| && IsWord(line[i]) then SkipWord(line, i + 1) else i
  }

  function SkipHex(line: string, i: nat): (j: nat)
    requires i <= |line|
    ensures i <= j <= |line|
    decreases |line| - i
  {
    if i < |line| && IsHexDigit(line[i]) then SkipHex(line, i + 1) else i
  }

  /** The loop over a decimal number: a point right behind a digit is taken along, a second one is an
      error; None is that error. */
  function SkipNumber(line: string, i: nat, point: bool): (j: Option<nat>)
    requires i <= |line|
    ensures j.Some? ==> i <= j.value <= |line|
    ensures j.Some? && i < |line| && IsDigit(line[i]) ==> i < j.value
    decreases |line| - i
  {
    if i < |line| && IsDigit(line[i]) then
      if At(line, i + 1) == '.' then
        if point then None else SkipNumber(line, i + 2, true)
      else SkipNumber(line, i + 1, point)
    else Some(i)
  }

  /** The loop over a string literal from behind its opening quote: a backslash skips itself and a
      quote behind it. */
  function SkipString(line: string, i: nat): (j: nat)
    requires i <= |line|
    ensures i <= j <= |line|
    decreases |line| - i
  {
    if At(line, i) == '\0' || line[i] == '"' then i
    else if At(line, i + 1) != '\\' then SkipString(line, i + 1)
    else if At(line, i + 2) == '"' then SkipString(line, i + 3)
    else SkipString(line, i + 2)
  }

  /** The token that starts at i, where no space stands, and the position behind it; None is a
      reported error. */
  function Scan(rd: Reader, line: string, i: nat): (r: Option<(Token, nat)>)
    requires i < |line| && !IsBlank(line[i])
    ensures r.Some? ==> i < r.value.1 <= |line|
  {
    if Symbol(line[i]).Some? then Some((Symbol(line[i]).value, i + 1))
    else if IsDigit(line[i]) then
      if line[i] == '0' && At(line, i + 1) == 'x' then
        var j := SkipHex(line, i + 2);
        Some((Num(Number(rd.atof(line[i..j]), 0.0, 1.0)), j))
      else
        match SkipNumber(line, i, false)
        case None => None
        case Some(j) => Some((Num(Number(rd.atof(line[i..j]), 0.0, 1.0)), j))
    else if line[i] == '"' then
      var j := SkipString(line, i + 1);
      if j == i + 1 then None
      else Some((Str(rd.unescape(line[i+1..j])), if At(line, j) == '"' then j + 1 else j))
    else if IsWord(line[i]) then
      var j := SkipWord(line, i);
      Some((Ident(line[i..j]), j))
    else None
  }

  datatype Lexed = Tokens(tokens: seq<Token>) | LexError(tokens: seq<Token>)

  function Lex(rd: Reader, line: string, i: nat, ts: seq<Token>): Lexed
    requires i <= |line|
    decreases |line| - i
  {
    if At(line, i) == '\0' then Tokens(ts)
    else if IsBlank(line[i]) then Lex(rd, line, SkipSpaces(line, i), ts)
    else match Scan(rd, line, i)
      case None => LexError(ts)
      case Some((t, j)) => Lex(rd, line, j, Push(ts, t))
  }

  // ----- The printed form of a token list

  /** How numbers and strings are spelled, strings without their quotes. */
  datatype Spelling = Spelling(number: Number -> string, text: string -> string)

  /** Printing: every token is followed by a blank. */
  function Text(spell: Spelling, t: Token): string {
    match t
    case Num(v) => spell.number(v)
    case Ident(n) => n
    case Function(n, _) => n
    case Operator(Sum) => "+"
    case Operator(Sub) => "-"
    case Operator(Mul) => "*"
    case Operator(Div) => "/"
    case Operator(Rem) => "%"
    case Operator(Exponent) => "^"
    case Assign => "="
    case Dot => "."
    case Colon => ":"
    case Comma => ","
    case LParen => "("
    case RParen => ")"
    case LBrace => "{"
    case RBrace => "}"
    case Semicolon => ";"
    case Str(s) => "\"" + spell.text(s) + "\""
    case Dummy => ""
  }

  function Print(spell: Spelling, ts: seq<Token>): string {
    if ts == [] then "" else Text(spell, ts[0]) + " " + Print(spell, ts[1..])
  }

  /** A decimal numeral: it starts with a digit and is scanned as one number to its end. */
  predicate Numeral(s: string) {
    s != "" && IsDigit(s[0]) && At(s, 1) != 'x' && SkipNumber(s, 0, false) == Some(|s|)
  }

  predicate Name(s: string) {
    s != "" && !IsDigit(s[0]) && forall k :: 0 <= k < |s| ==> IsWord(s[k])
  }

  /** Between quotes the text is scanned as one string literal to its end. */
  predicate Quotable(s: string) {
    s != "" && SkipString(s + "\"", 0) == |s|
  }

  predicate Printable(rd: Reader, spell: Spelling, t: Token) {
    match t
    case Num(v) => Numeral(spell.number(v)) && Number(rd.atof(spell.number(v)), 0.0, 1.0) == v
    case Ident(n) => Name(n)
    case Function(n, c) => Name(n) && c == 0
    case Str(s) => Quotable(spell.text(s)) && rd.unescape(spell.text(s)) == s
    case Dummy => false
    case _ => true
  }

  /** Functions stand in front of a left parenthesis and identifiers do not. */
  predicate FollowedRight(ts: seq<Token>, k: nat)
    requires k < |ts|
  {
    && (ts[k].Function? ==> k + 1 < |ts| && ts[k+1] == LParen)
    && (ts[k].Ident? && k + 1 < |ts| ==> ts[k+1] != LParen)
  }

  ghost predicate WellFormedTokens(rd: Reader, spell: Spelling, ts: seq<Token>) {
    && (forall k :: 0 <= k < |ts| ==> Printable(rd, spell, ts[k]))
    && (forall k: nat {:trigger FollowedRight(ts, k)} :: k < |ts| ==> FollowedRight(ts, k))
  }

  /** What is scanned before a following left parenthesis is seen. */
  function Raw(t: Token): Token {
    if t.Function? then Ident(t.name) else t
  }

  lemma {:induction false} SkipNumberThrough(line: string, s: string, i: nat, k: nat, point: bool)
    requires k <= |s| && i + |s| <= |line| && line[i..i + |s|] == s && At(line, i + |s|) == ' '
    requires SkipNumber(s, k, point) == Some(|s|)
    ensures SkipNumber(line, i + k, point) == Some(i + |s|)
    decreases |s| - k
  {
    assert forall j :: 0 <= j < |s| ==> line[i + j] == s[j];
    if k < |s| && IsDigit(s[k]) {
      if At(s, k + 1) == '.' {
        SkipNumberThrough(line, s, i, k + 2, true);
      } else {
        SkipNumberThrough(line, s, i, k + 1, point);
      }
    }
  }

  lemma {:induction false} SkipWordThrough(line: string, s: string, i: nat, k: nat)
    requires k <= |s| && i + |s| <= |line| && line[i..i + |s|] == s && At(line, i + |s|) == ' '
    requires forall j :: 0 <= j < |s| ==> IsWord(s[j])
    ensures SkipWord(line, i + k) == i + |s|
    decreases |s| - k
  {
    assert forall j :: 0 <= j < |s| ==> line[i + j] == s[j];
    if k < |s| {
      SkipWordThrough(line, s, i, k + 1);
    }
  }

  lemma {:induction false} SkipStringThrough(line: string, s: string, i: nat, k: nat)
    requires k <= |s| && i + |s| < |line| && line[i..i + |s|] == s && line[i + |s|] == '"'
    requires SkipString(s + "\"", k) == |s|
    ensures SkipString(line, i + k) == i + |s|
    decreases |s| - k
  {
    var q := s + "\"";
    assert forall j :: 0 <= j <= |s| ==> line[i + j] == q[j];
    if k < |s| {
      if q[k + 1] != '\\' {
        SkipStringThrough(line, s, i, k + 1);
      } else if q[k + 2] == '"' {
        SkipStringThrough(line, s, i, k + 3);
      } else {
        SkipStringThrough(line, s, i, k + 2);
      }
    }
  }

  /** A text without quotes, backslashes and zero bytes can be quoted as it is. */
  lemma PlainTextQuotable(s: string)
    requires s != "" && forall k :: 0 <= k < |s| ==> s[k] !in "\"\\\0"
    ensures Quotable(s)
  {
    SkipPlainText(s, 0);
  }

  lemma {:induction false} SkipPlainText(s: string, k: nat)
    requires k <= |s| && forall j :: 0 <= j < |s| ==> s[j] !in "\"\\\0"
    ensures SkipString(s + "\"", k) == |s|
    decreases |s| - k
  {
    if k < |s| {
      SkipPlainText(s, k + 1);
    }
  }

  /** A printed token is scanned as itself, up to the blank behind it. */
  lemma ScanText(rd: Reader, spell: Spelling, line: string, i: nat, t: Token)
    requires Printable(rd, spell, t)
    requires var s := Text(spell, t); i + |s| < |line| && line[i..i + |s|] == s && line[i + |s|] == ' '
    ensures Text(spell, t) != "" && !IsBlank(line[i])
    ensures Scan(rd, line, i) == Some((Raw(t), i + |Text(spell, t)|))
  {
    var s := Text(spell, t);
    assert s != "";
    assert line[i] == s[0];
    if t.Num? {
      assert |s| > 1 ==> line[i+1] == s[1];
      SkipNumberThrough(line, s, i, 0, false);
    } else if t.Ident? || t.Function? {
      SkipWordThrough(line, s, i, 0);
    } else if t.Str? {
      ScanQuoted(rd, spell.text(t.text), line, i);
    }
  }

  lemma ScanQuoted(rd: Reader, s: string, line: string, i: nat)
    requires Quotable(s) && i + |s| + 2 <= |line| && line[i..i + |s| + 2] == "\"" + s + "\""
    ensures line[i] == '"' && Scan(rd, line, i) == Some((Str(rd.unescape(s)), i + |s| + 2))
  {
    var q := "\"" + s + "\"";
    assert forall j :: 0 <= j < |q| ==> line[i + j] == q[j];
    assert line[i + 1..i + 1 + |s|] == line[i..i + |s| + 2][1..1 + |s|] == q[1..1 + |s|] == s;
    SkipStringThrough(line, s, i + 1, 0);
  }

  /** Pushing tokens one by one. */
  function PushAll(acc: seq<Token>, ts: seq<Token>): seq<Token>
    decreases |ts|
  {
    if ts == [] then acc else PushAll(Push(acc, Raw(ts[0])), ts[1..])
  }

  lemma {:induction false} LexPrinted(rd: Reader, spell: Spelling, line: string, i: nat,
                                      ts: seq<Token>, acc: seq<Token>)
    requires i <= |line| && line[i..] == Print(spell, ts)
    requires forall k :: 0 <= k < |ts| ==> Printable(rd, spell, ts[k])
    ensures Lex(rd, line, i, acc) == Tokens(PushAll(acc, ts))
    decreases |ts|
  {
    hide Scan, Text, Push, SkipSpaces;
    if ts != [] {
      var s, rest := Text(spell, ts[0]), Print(spell, ts[1..]);
      FirstOfText(rd, spell, ts[0]);
      Prefixed(line, i, s, rest);
      var j := i + |s|;
      ScanText(rd, spell, line, i, ts[0]);
      OneBlank(spell, line, j, ts[1..], rd);
      LexPrinted(rd, spell, line, j + 1, ts[1..], Push(acc, Raw(ts[0])));
    }
  }

  lemma Prefixed(line: string, i: nat, s: string, rest: string)
    requires i <= |line| && line[i..] == s + " " + rest
    ensures var j := i + |s|;
            j < |line| && line[i..j] == s && line[j] == ' ' && line[j + 1..] == rest
  {
    assert line[i..][..|s|] == s && line[i..][|s|] == ' ' && line[i..][|s| + 1..] == rest;
  }

  lemma OneBlank(spell: Spelling, line: string, j: nat, ts: seq<Token>, rd: Reader)
    requires j < |line| && line[j] == ' ' && line[j + 1..] == Print(spell, ts)
    requires forall k :: 0 <= k < |ts| ==> Printable(rd, spell, ts[k])
    ensures SkipSpaces(line, j) == j + 1
  {
    if j + 1 < |line| {
      assert line[j + 1] == line[j + 1..][0];
      if ts != [] {
        FirstOfText(rd, spell, ts[0]);
      }
    }
  }

  lemma FirstOfText(rd: Reader, spell: Spelling, t: Token)
    requires Printable(rd, spell, t)
    ensures Text(spell, t) != "" && !IsSpace(Text(spell, t)[0]) && Text(spell, t)[0] != '\0'
  {}

  /** The tokens pushed after the first k of a well-formed list: a function is still an identifier. */
  function Pushed(ts: seq<Token>, k: nat): seq<Token>
    requires k <= |ts|
  {
    if k > 0 then ts[..k-1] + [Raw(ts[k-1])] else []
  }

  lemma {:induction false} PushRestores(rd: Reader, spell: Spelling, ts: seq<Token>, k: nat)
    requires WellFormedTokens(rd, spell, ts) && k <= |ts|
    ensures PushAll(Pushed(ts, k), ts[k..]) == ts
    decreases |ts| - k
  {
    if k == |ts| {
      if k > 0 {
        assert FollowedRight(ts, k - 1);
        assert ts[..k-1] + [ts[k-1]] == ts;
      }
    } else {
      hide Push, Pushed, Raw;
      assert ts[k..][1..] == ts[k+1..];
      PushNext(rd, spell, ts, k);
      PushRestores(rd, spell, ts, k + 1);
    }
  }

  lemma PushNext(rd: Reader, spell: Spelling, ts: seq<Token>, k: nat)
    requires WellFormedTokens(rd, spell, ts) && k < |ts|
    ensures Push(Pushed(ts, k), Raw(ts[k])) == Pushed(ts, k + 1)
  {
    hide Printable;
    if k > 0 {
      assert FollowedRight(ts, k - 1);
      if ts[k-1].Function? {
        ArgCountZero(rd, spell, ts[k-1]);
      }
      assert ts[..k] == ts[..k-1] + [ts[k-1]];
      assert Pushed(ts, k)[..k-1] == ts[..k-1];
    }
  }

  lemma ArgCountZero(rd: Reader, spell: Spelling, t: Token)
    requires Printable(rd, spell, t) && t.Function?
    ensures t.argCount == 0
  {}

  /** Lexing the printed form of any well-formed token list gives the list back. */
  lemma LexOfPrint(rd: Reader, spell: Spelling, ts: seq<Token>)
    requires WellFormedTokens(rd, spell, ts)
    ensures Lex(rd, Print(spell, ts), 0, []) == Tokens(ts)
  {
    var line := Print(spell, ts);
    assert line[0..] == line && ts[0..] == ts;
    LexPrinted(rd, spell, line, 0, ts, []);
    PushRestores(rd, spell, ts, 0);
  }

  // ----- Behind tokens that are there already

  /** The tokens in front; a name at their end becomes a function when a left parenthesis follows. */
  function InFront(left: seq<Token>, ts: seq<Token>): seq<Token> {
    if ts != [] && ts[0].LParen? && left != [] && left[|left|-1].Ident?
    then left[..|left|-1] + [Function(left[|left|-1].name, 0)]
    else left
  }

  lemma {:induction false} PushAllBehind(left: seq<Token>, acc: seq<Token>, ts: seq<Token>)
    requires acc != []
    ensures PushAll(left + acc, ts) == left + PushAll(acc, ts)
    decreases |ts|
  {
    if ts != [] {
      var t := Raw(ts[0]);
      assert (left + acc)[..|left + acc| - 1] == left + acc[..|acc|-1];
      assert Push(left + acc, t) == left + Push(acc, t);
      PushAllBehind(left, Push(acc, t), ts[1..]);
    }
  }

  /** Lexing the printed form behind other tokens. */
  lemma LexBehind(rd: Reader, spell: Spelling, ts: seq<Token>, left: seq<Token>)
    requires WellFormedTokens(rd, spell, ts) && ts != []
    ensures Lex(rd, Print(spell, ts), 0, left) == Tokens(InFront(left, ts) + ts)
  {
    hide Lex, Print;
    var line := Print(spell, ts);
    assert line[0..] == line && ts[0..] == ts;
    LexPrinted(rd, spell, line, 0, ts, left);
    PushRestores(rd, spell, ts, 0);
    var first := [Raw(ts[0])];
    assert Push(left, Raw(ts[0])) == InFront(left, ts) + first && Push([], Raw(ts[0])) == first;
    PushAllBehind(InFront(left, ts), first, ts[1..]);
  }
}
