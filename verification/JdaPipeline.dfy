/**
  The passes together on the printed form of an expression tree: the line evaluates to the meaning of the
  tree, and behind a name and an assignment it binds the name.
 */
module JdaPipeline {
  import opened JdaTokens
  import opened Sequences
  import opened JdaRpn
  import opened JdaTree
  import opened JdaEval
  import opened JdaAssign
  import opened JdaLexer
  import opened JdaContext

  /** Numbers can be spelled and names are words. */
  predicate SpellableOperand(rd: Reader, spell: Spelling, o: Operand)
    decreases o, 1
  {
    match o
    case Literal(v) => Printable(rd, spell, Num(v))
    case Quoted(s) => Printable(rd, spell, Str(s))
    case Variable(n) => Name(n)
    case Group(e) => Spellable(rd, spell, e)
    case Call(f, args) => Name(f) && SpellableArgs(rd, spell, args)
  }

  predicate Spellable(rd: Reader, spell: Spelling, e: Expr)
    decreases e, 1
  {
    match e
    case Single(o) => SpellableOperand(rd, spell, o)
    case Binary(l, _, r) => SpellableOperand(rd, spell, l) && Spellable(rd, spell, r)
  }

  predicate SpellableArgs(rd: Reader, spell: Spelling, args: seq<Expr>)
    decreases args, 0
  {
    args == [] || (Spellable(rd, spell, args[0]) && SpellableArgs(rd, spell, args[1..]))
  }

  lemma WellFormedConcat(rd: Reader, spell: Spelling, a: seq<Token>, b: seq<Token>)
    requires WellFormedTokens(rd, spell, a) && WellFormedTokens(rd, spell, b)
    requires a != [] && a[|a|-1].Ident? ==> b == [] || b[0] != LParen
    ensures WellFormedTokens(rd, spell, a + b)
  {
    hide Printable;
    var s := a + b;
    forall k: nat | k < |s|
      ensures Printable(rd, spell, s[k]) && FollowedRight(s, k)
    {
      if k < |a| {
        assert s[k] == a[k] && FollowedRight(a, k);
      } else {
        assert s[k] == b[k-|a|] && FollowedRight(b, k - |a|);
      }
    }
  }

  lemma WellFormedOne(rd: Reader, spell: Spelling, t: Token)
    requires Printable(rd, spell, t) && !t.Function?
    ensures WellFormedTokens(rd, spell, [t])
  {}

  lemma {:induction false} WrittenOperand(rd: Reader, spell: Spelling, o: Operand)
    requires SpellableOperand(rd, spell, o)
    ensures WellFormedTokens(rd, spell, WriteOperand(o))
    ensures var t := WriteOperand(o)[0]; t.Num? || t.Str? || t.Ident? || t.LParen? || t.Function?
    decreases o, 1
  {
    hide WellFormedTokens, Printable;
    match o
    case Literal(v) => WellFormedOne(rd, spell, Num(v));
    case Quoted(s) => WellFormedOne(rd, spell, Str(s));
    case Variable(n) =>
      assert Printable(rd, spell, Ident(n)) by { NamePrintable(rd, spell, n); }
      WellFormedOne(rd, spell, Ident(n));
    case Group(e) =>
      Written(rd, spell, e);
      Enclosed(rd, spell, Write(e));
    case Call(f, args) =>
      WrittenArgs(rd, spell, args);
      Enclosed(rd, spell, WriteArgs(args));
      Called(rd, spell, f, [LParen] + WriteArgs(args) + [RParen]);
      assert [Function(f, 0)] + ([LParen] + WriteArgs(args) + [RParen]) == WriteOperand(o);
  }

  lemma NamePrintable(rd: Reader, spell: Spelling, n: string)
    requires Name(n)
    ensures Printable(rd, spell, Ident(n))
  {}

  lemma Enclosed(rd: Reader, spell: Spelling, ts: seq<Token>)
    requires WellFormedTokens(rd, spell, ts)
    ensures WellFormedTokens(rd, spell, [LParen] + ts + [RParen])
  {
    WellFormedOne(rd, spell, LParen);
    WellFormedOne(rd, spell, RParen);
    WellFormedConcat(rd, spell, [LParen], ts);
    WellFormedConcat(rd, spell, [LParen] + ts, [RParen]);
  }

  lemma Called(rd: Reader, spell: Spelling, f: string, ts: seq<Token>)
    requires WellFormedTokens(rd, spell, ts) && Name(f) && ts != [] && ts[0] == LParen
    ensures WellFormedTokens(rd, spell, [Function(f, 0)] + ts)
  {
    var s := [Function(f, 0)] + ts;
    forall k: nat | k < |s|
      ensures Printable(rd, spell, s[k]) && FollowedRight(s, k)
    {
      if k > 0 {
        assert s[k] == ts[k-1] && FollowedRight(ts, k - 1);
      }
    }
  }

  lemma {:induction false} Written(rd: Reader, spell: Spelling, e: Expr)
    requires Spellable(rd, spell, e)
    ensures WellFormedTokens(rd, spell, Write(e))
    ensures var t := Write(e)[0]; t.Num? || t.Str? || t.Ident? || t.LParen? || t.Function?
    decreases e, 1
  {
    match e
    case Single(o) => WrittenOperand(rd, spell, o);
    case Binary(l, op, r) =>
      hide WellFormedTokens;
      WrittenOperand(rd, spell, l);
      Written(rd, spell, r);
      WellFormedOne(rd, spell, Operator(op));
      WellFormedConcat(rd, spell, WriteOperand(l), [Operator(op)]);
      WellFormedConcat(rd, spell, WriteOperand(l) + [Operator(op)], Write(r));
  }

  lemma {:induction false} WrittenArgs(rd: Reader, spell: Spelling, args: seq<Expr>)
    requires SpellableArgs(rd, spell, args)
    ensures WellFormedTokens(rd, spell, WriteArgs(args))
    decreases args, 0
  {
    if args != [] {
      Written(rd, spell, args[0]);
      if |args| > 1 {
        WrittenArgs(rd, spell, args[1..]);
        WellFormedOne(rd, spell, Comma);
        WellFormedConcat(rd, spell, Write(args[0]), [Comma]);
        WellFormedConcat(rd, spell, Write(args[0]) + [Comma], WriteArgs(args[1..]));
      }
    }
  }

  lemma FirstCharacter(rd: Reader, spell: Spelling, ts: seq<Token>)
    requires ts != [] && Printable(rd, spell, ts[0])
    requires ts[0].Num? || ts[0].Str? || ts[0].Ident? || ts[0].LParen? || ts[0].Function?
    ensures At(Print(spell, ts), 0) != '*'
  {
    var s := Text(spell, ts[0]);
    assert s != "" && Print(spell, ts)[0] == s[0];
  }

  /** Bad: an error was reported. Unknown: a read outside of a stack or through a null pointer. */
  datatype LineOutcome = Ignored | Value(tokens: seq<Token>, world: World) | Bad | Unknown

  /** Lexing, conversion and evaluation one after the other. */
  function Outcome(rd: Reader, env: Env, line: string, ts: seq<Token>, w: World): LineOutcome {
    match ReadLine(rd, line, ts)
    case Comment => Ignored
    case Unread(_) => Bad
    case Crashed => Unknown
    case Postfixed(rpn) =>
      match Eval(env, [], rpn, w)
      case Got((values, w')) => Value(values, w')
      case Refused(_) => Bad
      case Wild => Unknown
  }

  /** A line that spells an expression tree whose calls all get their right number of arguments is read as its
      postfix form exactly when the tokens left in front of it, by lines that could not be read, are blank. */
  lemma ReadBehindExactly(rd: Reader, spell: Spelling, e: Expr, left: seq<Token>)
    requires Spellable(rd, spell, e) && Right(e)
    ensures ReadLine(rd, Print(spell, Write(e)), left) == Postfixed(Postfix(e)) <==> Blank(left)
  {
    hide Convert, Lex, Print, Write, Postfix, Blank, Right;
    Written(rd, spell, e);
    FirstCharacter(rd, spell, Write(e));
    LexBehind(rd, spell, Write(e), left);
    ConvertBehindExactly(InFront(left, Write(e)), e);
    BlankInFront(left, Write(e));
  }

  lemma BlankInFront(left: seq<Token>, ts: seq<Token>)
    ensures Blank(InFront(left, ts)) <==> Blank(left)
  {
    hide Content, WellNested;
    NothingKept(left);
    NothingKept(InFront(left, ts));
    if InFront(left, ts) != left {
      assert Kept(left[|left|-1]) && Kept(InFront(left, ts)[|left|-1]);
    }
  }

  /** Strings are spelled as they are; numbers do not matter. */
  function AsItIs(): Spelling {
    Spelling(n => "", t => t)
  }

  lemma TextAsItIs(s: string)
    ensures Text(AsItIs(), Str(s)) == "\"" + s + "\""
  {
  }

  lemma OneTextIsSpellable(rd: Reader, f: string, s: string)
    requires Name(f) && Quotable(s) && rd.unescape(s) == s
    ensures Spellable(rd, AsItIs(), Single(Call(f, [Single(Quoted(s))])))
  {
    hide Quotable, Name;
    var a := Single(Quoted(s));
    assert [a][1..] == [] && SpellableArgs(rd, AsItIs(), []);
    assert SpellableOperand(rd, AsItIs(), a.operand) && SpellableArgs(rd, AsItIs(), [a]);
    assert SpellableOperand(rd, AsItIs(), Call(f, [a]));
  }

  /** A line such as PRINT ( "Hello" ) is read as a call with one string. */
  lemma CallOfText(rd: Reader, f: string, s: string)
    requires Name(f) && Quotable(s) && rd.unescape(s) == s
    ensures ReadLine(rd, f + " ( \"" + s + "\" ) ", []) == Postfixed([Str(s), Function(f, 1)])
  {
    hide ReadLine, Quotable, Print, Text, Spellable, Right, Name;
    var spell := AsItIs();
    var a := Single(Quoted(s));
    var e := Single(Call(f, [a]));
    assert WriteArgs([a]) == Write(a) == [Str(s)] && PostfixArgs([a]) == Postfix(a) + [] == [Str(s)];
    assert Write(e) == WriteOperand(e.operand) == [Function(f, 0), LParen] + [Str(s)] + [RParen];
    assert Postfix(e) == PostfixOperand(e.operand) == [Str(s), Function(f, 1)];
    PrintedCall(spell, f, Str(s));
    assert Text(spell, Str(s)) == "\"" + s + "\"" by { TextAsItIs(s); }
    assert f + " ( " + Text(spell, Str(s)) + " ) " == f + " ( \"" + s + "\" ) ";
    OneTextIsSpellable(rd, f, s);
    OneTextIsRight(f, s);
    ReadBehindExactly(rd, spell, e, []);
  }

  lemma OneTextIsRight(f: string, s: string)
    ensures Right(Single(Call(f, [Single(Quoted(s))])))
  {
    var a := Single(Quoted(s));
    assert [a][1..] == [] && RightArgs([]) && RightOperand(a.operand) && RightArgs([a]);
    assert LeadCount(a) == [1] && Extras(a) == ExtrasOperand(a.operand) == [] && [1] + [] == [1];
    assert RightOperand(Call(f, [a]));
  }

  lemma PrintedCall(spell: Spelling, f: string, t: Token)
    ensures Print(spell, [Function(f, 0), LParen] + [t] + [RParen]) == f + " ( " + Text(spell, t) + " ) "
  {
    var ts := [Function(f, 0), LParen, t, RParen];
    assert [Function(f, 0), LParen] + [t] + [RParen] == ts;
    assert ts[1..] == [LParen, t, RParen] && ts[1..][1..] == [t, RParen] && [t, RParen][1..] == [RParen];
    assert Print(spell, [RParen]) == ") ";
    assert Print(spell, [t, RParen]) == Text(spell, t) + " " + ") ";
    assert Print(spell, ts[1..]) == "( " + Print(spell, [t, RParen]);
  }

  /** Of two lines ( a and b the first leaves its number in front of the second, which then has two values. */
  lemma OpenParenthesisStays(rd: Reader, spell: Spelling, a: Number, b: Number)
    requires Printable(rd, spell, Num(a)) && Printable(rd, spell, Num(b))
    ensures ReadLine(rd, Print(spell, [LParen, Num(a)]), []) == Unread([Num(a)])
    ensures ReadLine(rd, Print(spell, [Num(b)]), [Num(a)]) == Postfixed([Num(a), Num(b)])
  {
    assert Printable(rd, spell, LParen);
    hide Print, Lex, Printable;
    FirstCharacter(rd, spell, [LParen, Num(a)]);
    FirstCharacter(rd, spell, [Num(b)]);
    LexOfPrint(rd, spell, [LParen, Num(a)]);
    LexBehind(rd, spell, [Num(b)], [Num(a)]);
    OpenParenthesisFails(a);
    TwoNumbers(a, b);
  }

  lemma OpenParenthesisFails(a: Number)
    ensures Convert([LParen, Num(a)]) == Error([Num(a)])
  {
    var st := Rpn([], [LParen], [0]);
    assert [LParen] + [Num(a)] == [LParen, Num(a)];
    FeedOne(START, LParen);
    FeedMore(START, [LParen], [Num(a)], st);
    FeedOne(st, Num(a));
    assert Reverse([LParen][1..]) == [];
  }

  lemma TwoNumbers(a: Number, b: Number)
    ensures Convert([Num(a)] + [Num(b)]) == Ok([Num(a), Num(b)])
  {
    var st := Rpn([Num(a)], [], []);
    FeedOne(START, Num(a));
    FeedMore(START, [Num(a)], [Num(b)], st);
    FeedOne(st, Num(b));
    assert START.operators[0..] == [] && Reverse(START.operators) == [];
  }

  /** Behind blank tokens, in particular none, it evaluates to exactly one token, the meaning of the tree, and is
      an error exactly when the meaning of the tree is. */
  lemma LineOfTree(rd: Reader, spell: Spelling, env: Env, e: Expr, left: seq<Token>, w: World)
    requires Spellable(rd, spell, e) && Right(e) && Blank(left)
    ensures Outcome(rd, env, Print(spell, Write(e)), left, w)
         == match Meaning(env, e, w)
            case Got((t, w')) => Value([t], w')
            case Refused(_) => Bad
            case Wild => Unknown
  {
    hide Eval, ReadLine, Meaning, Print, Write, Blank;
    ReadBehindExactly(rd, spell, e, left);
    EvalOfPostfix(env, e, w);
  }

  /** With tame routines, such a line that reports no error runs wild exactly when the tree is not safe. */
  lemma LineRunsWildExactly(rd: Reader, spell: Spelling, env: Env, e: Expr, left: seq<Token>, w: World)
    requires Spellable(rd, spell, e) && Right(e) && Blank(left)
    requires Tame(env) && NoRoutine(w.stack)
    ensures var r := Outcome(rd, env, Print(spell, Write(e)), left, w);
            !r.Bad? ==> (r.Unknown? <==> !Safe(w.named, e))
  {
    hide Blank;
    LineOfTree(rd, spell, env, e, left, w);
    RunsWildExactly(env, e, w);
  }

  /** The name of a routine alone on a line runs wild ... */
  lemma PlainNameRunsWild(rd: Reader, env: Env, name: string, w: World)
    requires Name(name) && Tame(env) && NoRoutine(w.stack)
    requires name in w.named && w.named[name].RoutineObject?
    ensures Outcome(rd, env, name + " ", [], w) == Unknown
  {
    hide Outcome;
    var e := Single(Variable(name));
    var spell := Spelling(n => "", s => "");
    assert Print(spell, Write(e)) == name + " ";
    LineOfTree(rd, spell, env, e, [], w);
    LookupSettled(env, name, w);
  }

  /** ... and so does a call of a name that stands for something else. */
  lemma CallOfValueRunsWild(rd: Reader, env: Env, name: string, w: World)
    requires Name(name) && name in w.named && !w.named[name].RoutineObject?
    ensures Outcome(rd, env, name + " ( ) ", [], w) == Unknown
  {
    hide Outcome;
    var e := Single(Call(name, []));
    var spell := Spelling(n => "", s => "");
    assert WriteArgs([]) == [] && Write(e) == WriteOperand(e.operand) == [Function(name, 0), LParen, RParen];
    assert Print(spell, [RParen]) == ") ";
    assert [LParen, RParen][1..] == [RParen] && Print(spell, [LParen, RParen]) == "( " + ") ";
    assert [Function(name, 0), LParen, RParen][1..] == [LParen, RParen];
    assert Print(spell, Write(e)) == name + " " + "( ) " == name + " ( ) ";
    assert SpellableArgs(rd, spell, []) && RightArgs([]) && RightCall([]);
    assert SpellableOperand(rd, spell, e.operand) && RightOperand(e.operand);
    LineOfTree(rd, spell, env, e, [], w);
    assert MeaningOfArgs(env, [], w) == Got(([], w)) && MeaningOfOperand(env, e.operand, w) == Wild;
  }

  lemma LogoutRunsWild(rd: Reader, env: Env, w: World)
    requires Tame(env) && NoRoutine(w.stack)
    requires "LOGOUT" in w.named && w.named["LOGOUT"].RoutineObject?
    ensures Outcome(rd, env, "LOGOUT ", [], w) == Unknown
  {
    assert "LOGOUT" + " " == "LOGOUT ";
    PlainNameRunsWild(rd, env, "LOGOUT", w);
  }

  // ----- Assignments

  /** What a line does to the names. */
  function Effect(rd: Reader, env: Env, line: string, w: World): Parsing {
    match ReadLine(rd, line, [])
    case Postfixed(rpn) => Parse(env, rpn, w)
    case Comment => Stored(w.named)
    case Unread(_) => Unevaluated(w.named)
    case Crashed => Undefined
  }

  lemma WrittenAssignment(rd: Reader, spell: Spelling, name: string, e: Expr)
    requires Name(name) && Spellable(rd, spell, e) && Right(e)
    ensures ReadLine(rd, Print(spell, [Ident(name), Assign] + Write(e)), [])
         == Postfixed([Ident(name), Assign] + Postfix(e))
  {
    hide Convert, Lex, Print, Write;
    var ts := [Ident(name), Assign] + Write(e);
    Written(rd, spell, e);
    assert Printable(rd, spell, Ident(name)) by { NamePrintable(rd, spell, name); }
    WellFormedOne(rd, spell, Ident(name));
    WellFormedOne(rd, spell, Assign);
    WellFormedConcat(rd, spell, [Ident(name)], [Assign]);
    assert [Ident(name)] + [Assign] == [Ident(name), Assign];
    WellFormedConcat(rd, spell, [Ident(name), Assign], Write(e));
    FirstCharacter(rd, spell, ts);
    LexOfPrint(rd, spell, ts);
    ConvertAssignment(name, e);
    RightOut(e, []);
  }

  lemma EvalAssignment(env: Env, name: string, e: Expr, w: World)
    ensures Eval(env, [], [Ident(name), Assign] + Postfix(e), w)
         == match Meaning(env, e, w)
            case Got((t, w')) => Got(([Ident(name), Assign, t], w'))
            case Refused(names) => Refused(names)
            case Wild => Wild
  {
    var front := [Ident(name), Assign];
    var ts := front + Postfix(e);
    assert ts[..2] == front && ts[2..] == Postfix(e) && [] + front == front;
    assert Eval(env, [], ts, w) == Eval(env, front, Postfix(e), w);
    Run(env, front, e, [], w);
    assert Postfix(e) + [] == Postfix(e);
    var m := Meaning(env, e, w);
    if m.Got? {
      assert front + [m.value.0] == [Ident(name), Assign, m.value.0];
    }
  }

  /** A line name = expression, whatever its expression: the name is bound to what the routines left on top of
      the object stack, and only when they left nothing to the meaning of the expression. */
  lemma LineOfAssignment(rd: Reader, spell: Spelling, env: Env, name: string, e: Expr, w: World)
    requires Name(name) && Spellable(rd, spell, e) && Right(e)
    ensures Effect(rd, env, Print(spell, [Ident(name), Assign] + Write(e)), w)
         == match Meaning(env, e, w)
            case Refused(names) => Unevaluated(names)
            case Wild => Undefined
            case Got((t, w')) => Bound(name, t, w')
  {
    hide Eval, Meaning, Postfix, AssignFrom, ReadLine;
    WrittenAssignment(rd, spell, name, e);
    EvalAssignment(env, name, e, w);
    MeaningIsResult(env, e, w);
    var m := Meaning(env, e, w);
    if m.Got? {
      AssignOne(name, m.value.0, m.value.1);
    }
  }

  /** So the line binds the name to the value of its expression exactly when the name is new and the routines
      left no other object on top of the stack. */
  lemma AssignsValueExactly(rd: Reader, spell: Spelling, env: Env, name: string, e: Expr, w: World)
    requires Name(name) && Spellable(rd, spell, e) && Right(e)
    requires Meaning(env, e, w).Got? && ToObject(Meaning(env, e, w).value.0).Some?
    ensures var (t, w') := Meaning(env, e, w).value;
            var value := ToObject(t).value;
            Effect(rd, env, Print(spell, [Ident(name), Assign] + Write(e)), w) == Stored(w'.named[name := value])
            <==> name !in w'.named && (w'.stack == [] || w'.stack[|w'.stack|-1] == value)
  {
    hide Effect, Meaning, Print, ToObject;
    LineOfAssignment(rd, spell, env, name, e, w);
    var (t, w') := Meaning(env, e, w).value;
    assert w'.named[name := ToObject(t).value][name] == ToObject(t).value;
    if w'.stack != [] && w'.stack[|w'.stack|-1] != ToObject(t).value {
      assert w'.named[name := w'.stack[|w'.stack|-1]][name] != ToObject(t).value;
    }
  }

  /** And a later line with that name alone has that value. */
  lemma AssignedReadsBack(rd: Reader, env: Env, name: string, t: Token, named: map<string, Object>)
    requires Name(name) && ToObject(t).Some? && name in named && named[name] == ToObject(t).value
    ensures Outcome(rd, env, name + " ", [], World([], named)) == Value([t], World([], named))
  {
    hide Outcome;
    var e := Single(Variable(name));
    var spell := Spelling(n => "", s => "");
    assert Print(spell, Write(e)) == name + " ";
    LineOfTree(rd, spell, env, e, [], World([], named));
  }
}
