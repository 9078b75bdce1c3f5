/**
  What single lines and trees of the JDA shell come to, in numbers: the operators, exact arithmetic, calls of
  routines, names. Nothing here goes through the functions that the evaluator is specified with.
 */
module JdaLines {
  import opened Wrappers
  import opened JdaTokens
  import opened JdaRpn
  import opened JdaTree
  import opened JdaEval
  import opened JdaLexer
  import opened JdaAssign
  import opened JdaContext
  import opened JdaPipeline
  import opened JdaSession
  import opened JdaCharacters

  // ----- Operators

  function Just(v: Number): Expr {
    Single(Literal(v))
  }

  function Of(a: Number, op: Op, b: Number): Expr {
    Binary(Literal(a), op, Just(b))
  }

  lemma JustMeans(env: Env, a: Number, w: World)
    ensures MeaningOfOperand(env, Literal(a), w) == Got((Num(a), w)) && Meaning(env, Just(a), w) == Got((Num(a), w))
  {
    var o := Literal(a);
    assert MeaningOfOperand(env, o, w) == Got((Num(a), w));
  }

  /** A real number as the operators leave it. */
  function RealToken(x: real): Token {
    Num(Number(x, 0.0, 1.0))
  }

  lemma OperatorLine(rd: Reader, spell: Spelling, env: Env, a: Number, op: Op, b: Number, w: World, mid: string)
    requires Printable(rd, spell, Num(a)) && Printable(rd, spell, Num(b))
    requires mid == " " + Text(spell, Operator(op)) + " "
    ensures Outcome(rd, env, spell.number(a) + mid + (spell.number(b) + " "), [], w)
         == Value([Num(Apply(env.arith, op, a, b))], w)
  {
    hide Outcome, Printable;
    var e := Of(a, op, b);
    PrintedOperator(spell, a, op, b, mid);
    assert SpellableOperand(rd, spell, Literal(a)) && SpellableOperand(rd, spell, Literal(b));
    assert Spellable(rd, spell, Just(b));
    NumbersAreRight(a, op, b);
    LineOfTree(rd, spell, env, e, [], w);
    JustMeans(env, b, w);
    JustMeans(env, a, w);
  }

  lemma NumbersAreRight(a: Number, op: Op, b: Number)
    ensures Right(Of(a, op, b))
  {
    var l, r := Literal(a), Just(b);
    assert RightOperand(l) && Right(r);
  }

  lemma PrintedOperator(spell: Spelling, a: Number, op: Op, b: Number, mid: string)
    requires mid == " " + Text(spell, Operator(op)) + " "
    ensures Print(spell, Write(Of(a, op, b))) == spell.number(a) + mid + (spell.number(b) + " ")
  {
    var ts := [Num(a)] + [Operator(op)] + [Num(b)];
    assert Write(Just(b)) == [Num(b)] && Write(Of(a, op, b)) == ts;
    assert ts[1..] == [Operator(op), Num(b)] && ts[1..][1..] == [Num(b)] && [Num(b)][1..] == [];
    assert Print(spell, [Num(b)]) == spell.number(b) + " ";
    assert Print(spell, ts[1..]) == Text(spell, Operator(op)) + " " + (spell.number(b) + " ");
  }

  /** Every operator character stands for its own operation, with the operand in front of it on the left; division and
      remainder give zero when either side is zero. */
  lemma OperatorLines(rd: Reader, spell: Spelling, env: Env, a: Number, b: Number, w: World)
    requires Printable(rd, spell, Num(a)) && Printable(rd, spell, Num(b))
    ensures var (l, r) := (spell.number(a), spell.number(b) + " ");
            var zero := a.re == 0.0 || b.re == 0.0;
            && Outcome(rd, env, l + " + " + r, [], w) == Value([RealToken(env.arith.add(a.re, b.re))], w)
            && Outcome(rd, env, l + " - " + r, [], w) == Value([RealToken(env.arith.sub(a.re, b.re))], w)
            && Outcome(rd, env, l + " * " + r, [], w) == Value([RealToken(env.arith.mul(a.re, b.re))], w)
            && Outcome(rd, env, l + " / " + r, [], w)
               == Value([RealToken(if zero then 0.0 else env.arith.div(a.re, b.re))], w)
            && Outcome(rd, env, l + " % " + r, [], w)
               == Value([RealToken(if zero then 0.0 else env.arith.rem(a.re, b.re))], w)
            && Outcome(rd, env, l + " ^ " + r, [], w) == Value([RealToken(env.arith.pow(a.re, b.re))], w)
  {
    hide Outcome, Printable;
    OperatorLine(rd, spell, env, a, Sum, b, w, " + ");
    OperatorLine(rd, spell, env, a, Sub, b, w, " - ");
    OperatorLine(rd, spell, env, a, Mul, b, w, " * ");
    OperatorLine(rd, spell, env, a, Div, b, w, " / ");
    OperatorLine(rd, spell, env, a, Rem, b, w, " % ");
    OperatorLine(rd, spell, env, a, Exponent, b, w, " ^ ");
  }

  /** The arithmetic of the real numbers. */
  ghost predicate Exact(ar: Arith) {
    forall x: real, y: real ::
      && ar.add(x, y) == x + y && ar.sub(x, y) == x - y && ar.mul(x, y) == x * y
      && (y != 0.0 ==> ar.div(x, y) == x / y)
  }

  /** ( a op b ) op' c. */
  function Grouped(a: Number, op: Op, b: Number, op': Op, c: Number): Expr {
    Binary(Group(Of(a, op, b)), op', Just(c))
  }

  /** In exact arithmetic subtraction takes back what was added, addition what was subtracted, and multiplication
      what was divided by. */
  lemma OperationsTakenBack(env: Env, a: Number, b: Number, w: World)
    requires Exact(env.arith)
    ensures Meaning(env, Grouped(a, Sum, b, Sub, b), w) == Got((RealToken(a.re), w))
    ensures Meaning(env, Grouped(a, Sub, b, Sum, b), w) == Got((RealToken(a.re), w))
    ensures a.re != 0.0 && b.re != 0.0 ==> Meaning(env, Grouped(a, Div, b, Mul, b), w) == Got((RealToken(a.re), w))
  {
    GroupedMeaning(env, a, Sum, b, Sub, b, w);
    GroupedMeaning(env, a, Sub, b, Sum, b, w);
    GroupedMeaning(env, a, Div, b, Mul, b, w);
    if a.re != 0.0 && b.re != 0.0 {
      DivisionTakenBack(env.arith, a, b);
    }
  }

  lemma DivisionTakenBack(ar: Arith, a: Number, b: Number)
    requires Exact(ar) && a.re != 0.0 && b.re != 0.0
    ensures Apply(ar, Mul, Apply(ar, Div, a, b), b) == Number(a.re, 0.0, 1.0)
  {
    var q := a.re / b.re;
    assert ar.div(a.re, b.re) == q;
    assert ar.mul(q, b.re) == q * b.re;
    QuotientTimes(a.re, b.re);
  }

  lemma QuotientTimes(x: real, y: real)
    requires y != 0.0
    ensures x / y * y == x
  {
  }

  lemma GroupedMeaning(env: Env, a: Number, op: Op, b: Number, op': Op, c: Number, w: World)
    ensures Meaning(env, Grouped(a, op, b, op', c), w)
         == Got((Num(Apply(env.arith, op', Apply(env.arith, op, a, b), c)), w))
  {
    hide Apply;
    JustMeans(env, a, w);
    JustMeans(env, b, w);
    JustMeans(env, c, w);
    assert MeaningOfOperand(env, Group(Of(a, op, b)), w) == Meaning(env, Of(a, op, b), w);
  }

  /** Without parentheses operators group to the right. */
  lemma OperatorsGroupRight(env: Env, a: Number, b: Number, c: Number, w: World)
    requires Exact(env.arith)
    ensures Meaning(env, Binary(Literal(a), Sub, Of(b, Sub, c)), w) == Got((RealToken(a.re - (b.re - c.re)), w))
    ensures Meaning(env, Binary(Literal(a), Sub, Of(b, Sum, c)), w) == Got((RealToken(a.re - (b.re + c.re)), w))
  {
    JustMeans(env, a, w);
    JustMeans(env, b, w);
    JustMeans(env, c, w);
  }

  // ----- Calls

  function Arguments(vs: seq<Number>): (es: seq<Expr>)
    ensures |es| == |vs| && forall k :: 0 <= k < |vs| ==> es[k] == Just(vs[k])
  {
    seq(|vs|, k requires 0 <= k < |vs| => Just(vs[k]))
  }

  function NumberObjects(vs: seq<Number>): (os: seq<Object>)
    ensures |os| == |vs| && forall k :: 0 <= k < |vs| ==> os[k] == NumberObject(vs[k])
  {
    seq(|vs|, k requires 0 <= k < |vs| => NumberObject(vs[k]))
  }

  lemma {:induction false} ArgumentTokens(env: Env, vs: seq<Number>, w: World)
    ensures var m := MeaningOfArgs(env, Arguments(vs), w);
            m.Got? && m.value.1 == w && ToObjects(m.value.0) == Some(NumberObjects(vs))
    decreases |vs|
  {
    if vs != [] {
      var es := Arguments(vs);
      assert es[1..] == Arguments(vs[1..]);
      assert es[0] == Just(vs[0]);
      JustMeans(env, vs[0], w);
      ArgumentTokens(env, vs[1..], w);
      var ts := MeaningOfArgs(env, es[1..], w).value.0;
      assert MeaningOfArgs(env, es, w) == Got(([Num(vs[0])] + ts, w));
      assert ([Num(vs[0])] + ts)[1..] == ts;
      assert [NumberObject(vs[0])] + NumberObjects(vs[1..]) == NumberObjects(vs);
    }
  }

  /** A routine finds its arguments on the object stack, in their order and above what lay there. What it leaves on
      top is the value of the call and is taken off. More than one result, or fewer than none, is an error. */
  lemma CallOfNumbers(env: Env, f: string, id: string, vs: seq<Number>, w: World)
    requires f in w.named && w.named[f] == RoutineObject(id)
    ensures var (left, n) := env.routines(id)(World(w.stack + NumberObjects(vs), w.named));
            var m := Meaning(env, Single(Call(f, Arguments(vs))), w);
            var k := |left.stack|;
            if n != 0 && n != 1 then m == Refused(left.named)
            else if k == 0 then m == Got((Function(f, |vs|), left))
            else
              var top, rest := left.stack[k - 1], World(left.stack[..k - 1], left.named);
              && (top.NumberObject? ==> m == Got((Num(top.value), rest)))
              && (top.StringObject? ==> m == Got((Str(top.text), rest)))
              && (top.RoutineObject? ==> m == Wild)
              && (top.OtherObject? ==> m == Refused(left.named))
  {
    ArgumentTokens(env, vs, w);
    var o := Call(f, Arguments(vs));
    assert MeaningOfOperand(env, o, w)
        == Invoke(env, Function(f, |vs|), MeaningOfArgs(env, Arguments(vs), w).value.0, w);
  }

  /** A call of an unknown name is an error, of a known one that is no routine a null pointer, whatever the
      arguments. */
  lemma CallOfNoRoutine(env: Env, f: string, vs: seq<Number>, w: World)
    ensures f !in w.named ==> Meaning(env, Single(Call(f, Arguments(vs))), w) == Refused(w.named)
    ensures f in w.named && !w.named[f].RoutineObject? ==> Meaning(env, Single(Call(f, Arguments(vs))), w) == Wild
  {
    ArgumentTokens(env, vs, w);
    var o := Call(f, Arguments(vs));
    assert MeaningOfOperand(env, o, w)
        == Invoke(env, Function(f, |vs|), MeaningOfArgs(env, Arguments(vs), w).value.0, w);
  }

  /** A function in front of fewer values than it takes is an error. */
  lemma TooFewValues(env: Env, stack: seq<Token>, f: string, n: nat, w: World)
    requires n > |stack|
    ensures Eval(env, stack, [Function(f, n)], w) == Refused(w.named)
  {
  }

  /** A string is no operand. */
  lemma TextIsNoOperand(env: Env, a: Number, op: Op, s: string, w: World)
    ensures Meaning(env, Binary(Literal(a), op, Single(Quoted(s))), w) == Refused(w.named)
    ensures Meaning(env, Binary(Quoted(s), op, Just(a)), w) == Refused(w.named)
  {
    JustMeans(env, a, w);
    var o := Quoted(s);
    assert MeaningOfOperand(env, o, w) == Got((Str(s), w)) == Meaning(env, Single(o), w);
  }

  // ----- Names

  /** A plain name has the value of its number or string; a group or pointer, or an unknown name, is an error; a
      routine is run and its result thrown away, and has a value only when it gave its own name one. */
  lemma PlainName(env: Env, x: string, w: World)
    ensures var m := Meaning(env, Single(Variable(x)), w);
            if x !in w.named then m == Refused(w.named)
            else
              var o := w.named[x];
              && (o.NumberObject? ==> m == Got((Num(o.value), w)))
              && (o.StringObject? ==> m == Got((Str(o.text), w)))
              && (o.OtherObject? ==> m == Refused(w.named))
              && (o.RoutineObject? ==>
                    var left := env.routines(o.id)(w).0;
                    if x !in left.named || left.named[x].RoutineObject? then m == Wild
                    else
                      var now := left.named[x];
                      && (now.NumberObject? ==> m == Got((Num(now.value), left)))
                      && (now.StringObject? ==> m == Got((Str(now.text), left)))
                      && (now.OtherObject? ==> m == Refused(left.named)))
  {
    assert Meaning(env, Single(Variable(x)), w) == MeaningOfOperand(env, Variable(x), w) == Lookup(env, x, w);
  }

  /** A name and an assignment with nothing behind it: the name is not looked up. The object on top of the stack
      is what it gets, and with an empty stack the line is an error. */
  lemma AssignmentOfNothing(rd: Reader, env: Env, name: string, w: World)
    requires Name(name)
    ensures Effect(rd, env, name + " = ", w)
         == if w.stack == [] then Unassignable(w.named)
            else if name in w.named then Undefined
            else Stored(w.named[name := w.stack[|w.stack|-1]])
  {
    hide Lex;
    var spell, ts := Spelling(n => "", s => ""), [Ident(name), Assign];
    NamePrintable(rd, spell, name);
    WellFormedOne(rd, spell, Ident(name));
    WellFormedOne(rd, spell, Assign);
    WellFormedConcat(rd, spell, [Ident(name)], [Assign]);
    assert [Ident(name)] + [Assign] == ts;
    FirstCharacter(rd, spell, ts);
    LexOfPrint(rd, spell, ts);
    assert Print(spell, ts) == name + " = ";
    ConvertsAsItIs(name);
    assert Eval(env, [], ts, w) == Got((ts, w)) by {
      assert ts[2..] == [] && [] + ts[..2] == ts;
      assert Eval(env, ts, [], w) == Got((ts, w));
    }
    assert AssignFrom(ts, 0, w) == AssignFrom(ts, 1, w);
    if w.stack != [] && name !in w.named {
      NothingToAssign(ts, World(w.stack[..|w.stack|-1], w.named[name := w.stack[|w.stack|-1]]));
    }
  }

  lemma ConvertsAsItIs(name: string)
    ensures Convert([Ident(name), Assign]) == Ok([Ident(name), Assign])
  {
    var st := Rpn([Ident(name)], [], []);
    FeedOne(START, Ident(name));
    FeedMore(START, [Ident(name)], [Assign], st);
    FeedOne(st, Assign);
    assert [Ident(name)] + [Assign] == [Ident(name), Assign];
  }

  // ----- Whole lines

  /** A line that starts with an asterisk changes nothing. */
  lemma AsteriskLine(rd: Reader, env: Env, text: string, s: Session)
    ensures After(rd, env, "*" + text, s) == s
  {
    assert ("*" + text)[0] == '*';
  }

  /** A blank, a tab or a line end in front of a line that is no comment does not matter. */
  lemma IndentedLine(rd: Reader, env: Env, c: char, line: string, s: Session)
    requires c as int in [32, 9, 13, 10]
    requires line != "" ==> line[0] != '*' && line[0] as int != 11 && line[0] as int != 12
    ensures After(rd, env, [c] + line, s) == After(rd, env, line, s)
  {
    hide Lex, Spaces;
    var p := [c] + line;
    assert At(p, 0) == c;
    SpacesBehind(c, line);
    if s.Running? {
      BlankBefore(rd, c, line, s.left);
    }
  }

  lemma SpacesBehind(c: char, line: string)
    requires c as int in [32, 9, 13, 10]
    ensures Spaces([c] + line, 0) <==> Spaces(line, 0)
  {
    SpacesMoved([c] + line, line, 0);
    assert ([c] + line)[0] == c;
  }

  lemma {:induction false} SpacesMoved(p: string, s: string, i: nat)
    requires Moved(p, s) && i <= |s|
    ensures Spaces(p, i + 1) <==> Spaces(s, i)
    decreases |s| - i
  {
    MovedAt(p, s, i);
    if i < |s| {
      assert p[i + 1] == s[i];
      SpacesMoved(p, s, i + 1);
    }
  }
}
