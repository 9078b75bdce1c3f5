/**
  Expression trees of the JDA shell, the token lists they are written as, and what jda_lexer_to_rpn
  makes of those lists. Operators have no precedence and group to the right, so a list of operands
  and operators is read as an operand, an operator and the rest.
 */
module JdaTree {
  import opened JdaTokens
  import opened Sequences
  import opened JdaRpn

  datatype Operand =
    | Literal(value: Number)
    | Quoted(text: string)
    | Variable(name: string)
    | Group(inner: Expr)
    | Call(func: string, args: seq<Expr>)

  datatype Expr =
    | Single(operand: Operand)
    | Binary(lhs: Operand, op: Op, rhs: Expr)

  // ----- Written form

  function WriteOperand(o: Operand): (ts: seq<Token>)
    ensures ts != []
    decreases o, 1
  {
    match o
    case Literal(v) => [Num(v)]
    case Quoted(s) => [Str(s)]
    case Variable(n) => [Ident(n)]
    case Group(e) => [LParen] + Write(e) + [RParen]
    case Call(f, args) => [Function(f, 0), LParen] + WriteArgs(args) + [RParen]
  }

  function Write(e: Expr): (ts: seq<Token>)
    ensures ts != []
    decreases e, 1
  {
    match e
    case Single(o) => WriteOperand(o)
    case Binary(l, op, r) => WriteOperand(l) + [Operator(op)] + Write(r)
  }

  /** Arguments separated by commas. */
  function WriteArgs(args: seq<Expr>): seq<Token>
    decreases args, 0
  {
    if args == [] then []
    else if |args| == 1 then Write(args[0])
    else Write(args[0]) + [Comma] + WriteArgs(args[1..])
  }

  // ----- Intended postfix form

  function PostfixOperand(o: Operand): (ts: seq<Token>)
    ensures ts != []
    decreases o, 1
  {
    match o
    case Literal(v) => [Num(v)]
    case Quoted(s) => [Str(s)]
    case Variable(n) => [Ident(n)]
    case Group(e) => Postfix(e)
    case Call(f, args) => PostfixArgs(args) + [Function(f, |args|)]
  }

  function Postfix(e: Expr): (ts: seq<Token>)
    ensures ts != []
    decreases e, 1
  {
    match e
    case Single(o) => PostfixOperand(o)
    case Binary(l, op, r) => PostfixOperand(l) + Postfix(r) + [Operator(op)]
  }

  function PostfixArgs(args: seq<Expr>): seq<Token>
    decreases args, 0
  {
    if args == [] then [] else Postfix(args[0]) + PostfixArgs(args[1..])
  }

  // ----- The argument counts of the code
  //
  // Every left parenthesis pushes a count, only the right parenthesis of a call pops one. So the
  // counts of grouping parentheses stay, on top of the count of an enclosing call.

  function CountOperand(o: Operand, c: seq<nat>): (r: seq<nat>)
    ensures |c| <= |r|
    decreases o, 1
  {
    match o
    case Literal(_) => Touch(c)
    case Quoted(_) => Touch(c)
    case Variable(_) => Touch(c)
    case Group(e) => Count(e, c + [0])
    case Call(_, args) => DropLast(CountArgs(args, Touch(c) + [0]))
  }

  function Count(e: Expr, c: seq<nat>): (r: seq<nat>)
    ensures |c| <= |r|
    decreases e, 1
  {
    match e
    case Single(o) => CountOperand(o, c)
    case Binary(l, _, r) => Count(r, CountOperand(l, c))
  }

  function CountArgs(args: seq<Expr>, c: seq<nat>): (r: seq<nat>)
    requires c != []
    ensures |c| <= |r|
    decreases args, 0
  {
    if args == [] then c
    else if |args| == 1 then Count(args[0], c)
    else CountArgs(args[1..], Bump(Count(args[0], c)))
  }

  // ----- The postfix form of the code, with those counts

  function OutOperand(o: Operand, c: seq<nat>): (ts: seq<Token>)
    ensures ts != []
    decreases o, 1
  {
    match o
    case Literal(v) => [Num(v)]
    case Quoted(s) => [Str(s)]
    case Variable(n) => [Ident(n)]
    case Group(e) => Out(e, c + [0])
    case Call(f, args) => OutArgs(args, Touch(c) + [0]) + [Function(f, Last(CountArgs(args, Touch(c) + [0])))]
  }

  function Out(e: Expr, c: seq<nat>): (ts: seq<Token>)
    ensures ts != []
    decreases e, 1
  {
    match e
    case Single(o) => OutOperand(o, c)
    case Binary(l, op, r) => OutOperand(l, c) + Out(r, CountOperand(l, c)) + [Operator(op)]
  }

  function OutArgs(args: seq<Expr>, c: seq<nat>): seq<Token>
    requires c != []
    decreases args, 0
  {
    if args == [] then []
    else if |args| == 1 then Out(args[0], c)
    else Out(args[0], c) + OutArgs(args[1..], Bump(Count(args[0], c)))
  }

  /** The part of Out that is on the output, and the operators still waiting, when all of e was read. */
  function Front(e: Expr, c: seq<nat>): seq<Token>
    decreases e
  {
    match e
    case Single(o) => OutOperand(o, c)
    case Binary(l, op, r) => OutOperand(l, c) + Front(r, CountOperand(l, c))
  }

  function Pending(e: Expr): (ops: seq<Token>)
    ensures forall k :: 0 <= k < |ops| ==> ops[k].Operator?
    decreases e
  {
    match e
    case Single(_) => []
    case Binary(_, op, r) => [Operator(op)] + Pending(r)
  }

  lemma {:induction false} FrontAndPending(e: Expr, c: seq<nat>)
    ensures Front(e, c) + Reverse(Pending(e)) == Out(e, c)
    decreases e
  {
    match e
    case Single(o) =>
    case Binary(l, op, r) =>
      FrontAndPending(r, CountOperand(l, c));
      var f, p := Front(r, CountOperand(l, c)), Reverse(Pending(r));
      assert Pending(e)[1..] == Pending(r);
      assert OutOperand(l, c) + f + (p + [Operator(op)]) == OutOperand(l, c) + (f + p) + [Operator(op)];
  }

  // ----- Reading a written tree

  lemma ParenTopOf(ops: seq<Token>, pending: seq<Token>)
    requires ops != [] ==> Last(ops) == LParen
    requires forall k :: 0 <= k < |pending| ==> pending[k].Operator?
    ensures ParenTop(ops + pending) == |ops|
    decreases |pending|
  {
    if pending == [] {
      assert ops + pending == ops;
    } else {
      assert DropLast(ops + pending) == ops + DropLast(pending);
      ParenTopOf(ops, DropLast(pending));
    }
  }

  /** The next token does not stand right behind the name of a function. */
  ghost predicate Open(st: Rpn) {
    st.operators == [] || !Last(st.operators).Function?
  }

  lemma FeedNothing(st: Rpn)
    ensures Feed(st, []) == Next(st)
  {}

  lemma FeedOne(st: Rpn, t: Token)
    ensures Feed(st, [t]) == Step(st, t)
  {
    if Step(st, t).Next? {
      assert [t][1..] == [];
    }
  }

  lemma FeedMore(st: Rpn, a: seq<Token>, b: seq<Token>, st': Rpn)
    requires Feed(st, a) == Next(st')
    ensures Feed(st, a + b) == Feed(st', b)
  {
    FeedConcat(st, a, b);
  }

  lemma {:induction false} ReadOperand(o: Operand, st: Rpn)
    requires Open(st)
    ensures Feed(st, WriteOperand(o))
         == Next(Rpn(st.outputs + OutOperand(o, st.argCounts), st.operators, CountOperand(o, st.argCounts)))
    decreases o, 1
  {
    match o
    case Literal(v) => FeedOne(st, Num(v));
    case Quoted(s) => FeedOne(st, Str(s));
    case Variable(n) => FeedOne(st, Ident(n));
    case Group(e) => ReadGroup(e, st);
    case Call(f, args) => ReadCall(f, args, st);
  }

  lemma {:induction false} Read(e: Expr, st: Rpn)
    requires Open(st)
    ensures Feed(st, Write(e))
         == Next(Rpn(st.outputs + Front(e, st.argCounts), st.operators + Pending(e), Count(e, st.argCounts)))
    decreases e, 1
  {
    hide Feed, ParenTop, Reverse, Out, CountOperand, OutOperand, WriteOperand;
    match e
    case Single(o) =>
      ReadOperand(o, st);
      assert st.operators + [] == st.operators;
    case Binary(l, op, r) =>
      ReadOperand(l, st);
      var st1 := Feed(st, WriteOperand(l)).st;
      FeedMore(st, WriteOperand(l), [Operator(op)], st1);
      FeedOne(st1, Operator(op));
      var st2 := Step(st1, Operator(op)).st;
      FeedMore(st, WriteOperand(l) + [Operator(op)], Write(r), st2);
      Read(r, st2);
      assert st.outputs + OutOperand(l, st.argCounts) + Front(r, st2.argCounts) == st.outputs + Front(e, st.argCounts);
      assert st.operators + [Operator(op)] + Pending(r) == st.operators + Pending(e);
  }

  /** A right parenthesis behind a read expression or argument list. */
  lemma CloseRead(st: Rpn, ops: seq<Token>, pending: seq<Token>)
    requires st.operators == ops + [LParen] + pending
    requires forall k :: 0 <= k < |pending| ==> pending[k].Operator?
    ensures Feed(st, [RParen]) == Close(st.outputs + Reverse(pending), ops, st.argCounts)
  {
    FeedOne(st, RParen);
    ParenTopOf(ops + [LParen], pending);
    assert st.operators[|ops| + 1..] == pending;
    assert st.operators[..|ops|] == ops;
  }

  lemma {:induction false} ReadGroup(e: Expr, st: Rpn)
    requires Open(st)
    ensures Feed(st, [LParen] + Write(e) + [RParen])
         == Next(Rpn(st.outputs + Out(e, st.argCounts + [0]), st.operators, Count(e, st.argCounts + [0])))
    decreases e, 2
  {
    hide Feed, ParenTop, Reverse, Out, Write, Count, Pending, Front;
    var st1 := Rpn(st.outputs, st.operators + [LParen], st.argCounts + [0]);
    FeedOne(st, LParen);
    FeedMore(st, [LParen], Write(e), st1);
    Read(e, st1);
    var st2 := Feed(st1, Write(e)).st;
    FeedMore(st, [LParen] + Write(e), [RParen], st2);
    CloseRead(st2, st.operators, Pending(e));
    FrontAndPending(e, st1.argCounts);
    assert st.outputs + Front(e, st1.argCounts) + Reverse(Pending(e)) == st.outputs + Out(e, st1.argCounts);
  }

  function FrontArgs(args: seq<Expr>, c: seq<nat>): seq<Token>
    requires c != []
    decreases |args|
  {
    if args == [] then []
    else if |args| == 1 then Front(args[0], c)
    else Out(args[0], c) + FrontArgs(args[1..], Bump(Count(args[0], c)))
  }

  function PendingArgs(args: seq<Expr>): (ops: seq<Token>)
    ensures forall k :: 0 <= k < |ops| ==> ops[k].Operator?
  {
    if args == [] then [] else Pending(Last(args))
  }

  lemma {:induction false} FrontAndPendingArgs(args: seq<Expr>, c: seq<nat>)
    requires c != []
    ensures FrontArgs(args, c) + Reverse(PendingArgs(args)) == OutArgs(args, c)
    decreases |args|
  {
    if |args| == 1 {
      FrontAndPending(args[0], c);
    } else if |args| > 1 {
      var c' := Bump(Count(args[0], c));
      FrontAndPendingArgs(args[1..], c');
      assert PendingArgs(args[1..]) == PendingArgs(args);
      assert Out(args[0], c) + FrontArgs(args[1..], c') + Reverse(PendingArgs(args))
          == Out(args[0], c) + (FrontArgs(args[1..], c') + Reverse(PendingArgs(args)));
    }
  }

  /** A comma behind a read argument. */
  lemma CommaRead(st: Rpn, ops: seq<Token>, pending: seq<Token>)
    requires st.operators == ops + [LParen] + pending && st.argCounts != []
    requires forall k :: 0 <= k < |pending| ==> pending[k].Operator?
    ensures Feed(st, [Comma]) == Next(Rpn(st.outputs + Reverse(pending), ops + [LParen], Bump(st.argCounts)))
  {
    FeedOne(st, Comma);
    ParenTopOf(ops + [LParen], pending);
    assert st.operators[|ops| + 1..] == pending;
    assert st.operators[..|ops| + 1] == ops + [LParen];
  }

  lemma {:induction false} ReadArgs(args: seq<Expr>, st: Rpn, ops: seq<Token>)
    requires st.operators == ops + [LParen] && st.argCounts != []
    ensures Feed(st, WriteArgs(args))
         == Next(Rpn(st.outputs + FrontArgs(args, st.argCounts), st.operators + PendingArgs(args),
                     CountArgs(args, st.argCounts)))
    decreases args, 0
  {
    hide Feed, Step, ParenTop, Reverse, Out, Write, Count, Pending, Front;
    if args == [] {
      FeedNothing(st);
      assert st.outputs + [] == st.outputs && st.operators + [] == st.operators;
    } else if |args| == 1 {
      Read(args[0], st);
    } else {
      var e := args[0];
      Read(e, st);
      var st1 := Feed(st, Write(e)).st;
      FeedMore(st, Write(e), [Comma], st1);
      CommaRead(st1, ops, Pending(e));
      var st2 := Feed(st1, [Comma]).st;
      FeedMore(st, Write(e) + [Comma], WriteArgs(args[1..]), st2);
      ReadArgs(args[1..], st2, ops);
      FrontAndPending(e, st.argCounts);
      assert PendingArgs(args[1..]) == PendingArgs(args);
      assert st.outputs + Front(e, st.argCounts) + Reverse(Pending(e)) + FrontArgs(args[1..], st2.argCounts)
          == st.outputs + FrontArgs(args, st.argCounts);
    }
  }

  lemma {:induction false} ReadCall(f: string, args: seq<Expr>, st: Rpn)
    requires Open(st)
    ensures var c := Touch(st.argCounts) + [0];
            Feed(st, [Function(f, 0), LParen] + WriteArgs(args) + [RParen])
            == Next(Rpn(st.outputs + (OutArgs(args, c) + [Function(f, Last(CountArgs(args, c)))]),
                        st.operators, DropLast(CountArgs(args, c))))
    decreases args, 2
  {
    hide Feed, Step, ParenTop, Reverse, OutArgs, WriteArgs, CountArgs, PendingArgs, FrontArgs;
    var c := Touch(st.argCounts) + [0];
    var ops := st.operators + [Function(f, 0)];
    var st2 := Rpn(st.outputs, ops + [LParen], c);
    ReadOpening(f, st);
    FeedMore(st, [Function(f, 0), LParen], WriteArgs(args), st2);
    ReadArgs(args, st2, ops);
    var st3 := Feed(st2, WriteArgs(args)).st;
    FeedMore(st, [Function(f, 0), LParen] + WriteArgs(args), [RParen], st3);
    CloseRead(st3, ops, PendingArgs(args));
    FrontAndPendingArgs(args, c);
    Regroup(st.outputs, FrontArgs(args, c), Reverse(PendingArgs(args)));
    Regroup(st.outputs, OutArgs(args, c), [Function(f, Last(CountArgs(args, c)))]);
    CloseCall(st.outputs + OutArgs(args, c), st.operators, f, CountArgs(args, c));
  }

  lemma ReadOpening(f: string, st: Rpn)
    ensures Feed(st, [Function(f, 0), LParen])
         == Next(Rpn(st.outputs, st.operators + [Function(f, 0)] + [LParen], Touch(st.argCounts) + [0]))
  {
    var st1 := Rpn(st.outputs, st.operators + [Function(f, 0)], Touch(st.argCounts));
    FeedOne(st, Function(f, 0));
    assert [Function(f, 0)] + [LParen] == [Function(f, 0), LParen];
    FeedMore(st, [Function(f, 0)], [LParen], st1);
    FeedOne(st1, LParen);
  }

  lemma Regroup<T>(a: seq<T>, b: seq<T>, c: seq<T>)
    ensures a + b + c == a + (b + c)
  {}

  lemma CloseCall(out: seq<Token>, ops: seq<Token>, f: string, counts: seq<nat>)
    requires counts != []
    ensures Close(out, ops + [Function(f, 0)], counts)
         == Next(Rpn(out + [Function(f, Last(counts))], ops, DropLast(counts)))
  {
    assert DropLast(ops + [Function(f, 0)]) == ops;
  }

  /** The conversion of any written expression tree: its right-grouping postfix form, with the
      argument counts the code arrives at. */
  lemma ConvertTree(e: Expr)
    ensures Convert(Write(e)) == Ok(Out(e, []))
  {
    hide Feed, Write, Front, Pending, Out, Reverse, ParenTop;
    Read(e, START);
    ParenTopOf([], Pending(e));
    assert [] + Pending(e) == Pending(e);
    assert Pending(e)[0..] == Pending(e);
    FrontAndPending(e, []);
  }

  /** The same behind a name and an assignment. */
  lemma ConvertAssignment(name: string, e: Expr)
    ensures Convert([Ident(name), Assign] + Write(e)) == Ok([Ident(name), Assign] + Out(e, []))
  {
    hide Feed, Write, Front, Pending, Out, Reverse, ParenTop;
    var front := [Ident(name), Assign];
    var st1, st := Rpn([Ident(name)], [], []), Rpn(front, [], []);
    FeedOne(START, Ident(name));
    FeedMore(START, [Ident(name)], [Assign], st1);
    FeedOne(st1, Assign);
    assert [Ident(name)] + [Assign] == front;
    FeedMore(START, front, Write(e), st);
    Read(e, st);
    ParenTopOf([], Pending(e));
    assert [] + Pending(e) == Pending(e) && Pending(e)[0..] == Pending(e);
    FrontAndPending(e, []);
    assert front + Front(e, []) + Reverse(Pending(e)) == front + Out(e, []);
  }

  // ----- When the argument counts are right

  /** No grouping parentheses. */
  predicate PlainOperand(o: Operand)
    decreases o, 1
  {
    match o
    case Literal(_) => true
    case Quoted(_) => true
    case Variable(_) => true
    case Group(_) => false
    case Call(_, args) => PlainArgs(args)
  }

  predicate Plain(e: Expr)
    decreases e, 1
  {
    match e
    case Single(o) => PlainOperand(o)
    case Binary(l, _, r) => PlainOperand(l) && Plain(r)
  }

  predicate PlainArgs(args: seq<Expr>)
    decreases args, 0
  {
    args == [] || (Plain(args[0]) && PlainArgs(args[1..]))
  }

  /** Grouping parentheses occur outside of argument lists only. */
  predicate GroupsOutsideOperand(o: Operand)
    decreases o, 1
  {
    match o
    case Literal(_) => true
    case Quoted(_) => true
    case Variable(_) => true
    case Group(e) => GroupsOutside(e)
    case Call(_, args) => PlainArgs(args)
  }

  predicate GroupsOutside(e: Expr)
    decreases e, 1
  {
    match e
    case Single(o) => GroupsOutsideOperand(o)
    case Binary(l, _, r) => GroupsOutsideOperand(l) && GroupsOutside(r)
  }

  lemma TouchTwice(c: seq<nat>)
    ensures Touch(Touch(c)) == Touch(c)
  {}

  lemma {:induction false} PlainCountOperand(o: Operand, c: seq<nat>)
    requires PlainOperand(o)
    ensures CountOperand(o, c) == Touch(c)
    decreases o, 1
  {
    if o.Call? {
      var c1 := Touch(c) + [0];
      if o.args == [] {
        assert DropLast(c1) == Touch(c);
      } else {
        PlainCountArgs(o.args, c1);
        assert DropLast(CountArgs(o.args, c1)) == Touch(c);
      }
    }
  }

  lemma {:induction false} PlainCount(e: Expr, c: seq<nat>)
    requires Plain(e)
    ensures Count(e, c) == Touch(c)
    decreases e, 1
  {
    match e
    case Single(o) => PlainCountOperand(o, c);
    case Binary(l, _, r) =>
      PlainCountOperand(l, c);
      PlainCount(r, Touch(c));
      TouchTwice(c);
  }

  /** Without grouping parentheses the top count ends up as the number of arguments. */
  lemma {:induction false} PlainCountArgs(args: seq<Expr>, c: seq<nat>)
    requires c != [] && args != [] && PlainArgs(args)
    ensures CountArgs(args, c) == c[|c|-1 := (if Last(c) == 0 then 1 else Last(c)) + |args| - 1]
    decreases args, 0
  {
    PlainCount(args[0], c);
    if |args| > 1 {
      PlainCountArgs(args[1..], Bump(Touch(c)));
    }
  }

  // ----- The counts that groups leave behind, and when all argument counts are right

  /** Reading the expression touches the count on top first: it does not start with a group. */
  predicate Leads(e: Expr) {
    !(if e.Single? then e.operand else e.lhs).Group?
  }

  function LeadCount(e: Expr): seq<nat> {
    [if Leads(e) then 1 else 0]
  }

  function Touched(e: Expr, c: seq<nat>): (r: seq<nat>)
    ensures |r| == |c|
  {
    if Leads(e) then Touch(c) else c
  }

  /** The counts that stay on top of the others when the operand was read. A group leaves its own count
      and what is in it; a call takes the topmost of those of its first argument, when the other arguments
      have no groups. */
  function ExtrasOperand(o: Operand): seq<nat>
    decreases o, 1
  {
    match o
    case Literal(_) => []
    case Quoted(_) => []
    case Variable(_) => []
    case Group(e) => LeadCount(e) + Extras(e)
    case Call(_, args) => if args == [] then [] else DropLast(LeadCount(args[0]) + Extras(args[0]))
  }

  function Extras(e: Expr): seq<nat>
    decreases e, 1
  {
    match e
    case Single(o) => ExtrasOperand(o)
    case Binary(l, _, r) => Touched(r, ExtrasOperand(l)) + Extras(r)
  }

  /** Every call has groups in its first argument only, and if there are any, the last count they leave is
      1: the group they belong to does not start with another group. */
  predicate RightOperand(o: Operand)
    decreases o, 1
  {
    match o
    case Literal(_) => true
    case Quoted(_) => true
    case Variable(_) => true
    case Group(e) => Right(e)
    case Call(_, args) => RightArgs(args) && RightCall(args)
  }

  predicate Right(e: Expr)
    decreases e, 1
  {
    match e
    case Single(o) => RightOperand(o)
    case Binary(l, _, r) => RightOperand(l) && Right(r)
  }

  predicate RightArgs(args: seq<Expr>)
    decreases args, 0
  {
    args == [] || (Right(args[0]) && RightArgs(args[1..]))
  }

  predicate RightCall(args: seq<Expr>) {
    args == [] || (PlainArgs(args[1..]) && Last(LeadCount(args[0]) + Extras(args[0])) == 1)
  }

  predicate AtMostOne(c: seq<nat>) {
    forall i :: 0 <= i < |c| ==> c[i] <= 1
  }

  lemma {:induction false} ExtrasOfOperand(o: Operand)
    requires RightOperand(o)
    ensures AtMostOne(ExtrasOperand(o))
    ensures ExtrasOperand(o) == [] <==> PlainOperand(o)
    decreases o, 1
  {
    match o
    case Literal(_) =>
    case Quoted(_) =>
    case Variable(_) =>
    case Group(e) => ExtrasOf(e);
    case Call(_, args) =>
      if args != [] {
        ExtrasOf(args[0]);
      }
  }

  /** What is left behind is at most 1 each, and nothing exactly when there is no group. */
  lemma {:induction false} ExtrasOf(e: Expr)
    requires Right(e)
    ensures AtMostOne(Extras(e))
    ensures Extras(e) == [] <==> Plain(e)
    decreases e, 1
  {
    match e
    case Single(o) => ExtrasOfOperand(o);
    case Binary(l, _, r) =>
      ExtrasOfOperand(l);
      ExtrasOf(r);
  }

  lemma TouchedBehind(e: Expr, c: seq<nat>, x: seq<nat>)
    requires x == [] ==> Touch(c) == c
    ensures Touched(e, c + x) == c + Touched(e, x)
  {
    if x == [] {
      assert c + x == c;
    }
  }

  lemma {:induction false} CountOfOperand(o: Operand, c: seq<nat>)
    requires RightOperand(o)
    ensures CountOperand(o, c) == Touched(Single(o), c) + ExtrasOperand(o)
    decreases o, 1
  {
    match o
    case Literal(_) =>
    case Quoted(_) =>
    case Variable(_) =>
    case Group(e) => CountBehindParen(e, c);
    case Call(_, args) =>
      if args == [] {
        assert DropLast(Touch(c) + [0]) == Touch(c) + [];
      } else {
        CountOfArgs(args, Touch(c));
      }
  }

  /** An expression behind a new parenthesis: its own count and what it leaves come on top. */
  lemma {:induction false} CountBehindParen(e: Expr, c: seq<nat>)
    requires Right(e)
    ensures Count(e, c + [0]) == c + (LeadCount(e) + Extras(e))
    decreases e, 2
  {
    hide Count, Extras, Touched, LeadCount, Right;
    CountOf(e, c + [0]);
    LeadTouched(e, c);
    assert c + LeadCount(e) + Extras(e) == c + (LeadCount(e) + Extras(e));
  }

  lemma {:induction false} CountOfArgs(args: seq<Expr>, c: seq<nat>)
    requires args != [] && Right(args[0]) && PlainArgs(args[1..])
    ensures var x := LeadCount(args[0]) + Extras(args[0]);
            && CountArgs(args, c + [0]) == (c + x)[|c + x| - 1 := Last(x) + |args| - 1]
            && DropLast(CountArgs(args, c + [0])) == c + DropLast(x)
            && Last(CountArgs(args, c + [0])) == Last(x) + |args| - 1
    decreases args, 0
  {
    hide CountArgs, Count, Extras, Right, PlainArgs;
    CountBehindParen(args[0], c);
    PlainRestCount(args, c + [0]);
    var x := LeadCount(args[0]) + Extras(args[0]);
    assert Last(c + x) == Last(x);
    assert DropLast(c + x) == c + DropLast(x);
  }

  /** Behind a parenthesis the new count 0 becomes 1 when the expression touches it. */
  lemma LeadTouched(e: Expr, c: seq<nat>)
    ensures Touched(e, c + [0]) == c + LeadCount(e)
  {
  }

  /** Reading an expression whose calls are right touches the count on top and leaves its extras. */
  lemma {:induction false} CountOf(e: Expr, c: seq<nat>)
    requires Right(e)
    ensures Count(e, c) == Touched(e, c) + Extras(e)
    decreases e, 1
  {
    match e
    case Single(o) => CountOfOperand(o, c);
    case Binary(l, _, r) =>
      CountOfOperand(l, c);
      ExtrasOfOperand(l);
      var t, x := Touched(Single(l), c), ExtrasOperand(l);
      TouchTwice(c);
      TouchedBehind(r, t, x);
      assert t == Touched(e, c);
      hide Touch, Touched, CountOperand, ExtrasOperand;
      CountOf(r, t + x);
      assert t + Touched(r, x) + Extras(r) == t + (Touched(r, x) + Extras(r));
  }

  /** Without groups behind the first argument only the count on top changes. */
  lemma PlainRestCount(args: seq<Expr>, c: seq<nat>)
    requires args != [] && c != [] && PlainArgs(args[1..])
    ensures var m := Count(args[0], c);
            CountArgs(args, c) == m[|m|-1 := Last(m) + |args| - 1]
  {
    var m := Count(args[0], c);
    if |args| > 1 {
      PlainCountArgs(args[1..], Bump(m));
    }
  }

  /** The number of arguments in front of the last one that contains a group. */
  function BeforeLastGroup(args: seq<Expr>): (n: nat)
    ensures n == 0 || n < |args|
    ensures args != [] ==> (n == 0 <==> PlainArgs(args[1..]))
    decreases |args|
  {
    if args == [] || PlainArgs(args[1..]) then 0 else 1 + BeforeLastGroup(args[1..])
  }

  /** With groups behind the first argument, the commas in front of the last argument with a group are
      lost, and what that argument left on top stands for itself: the count is too small. */
  lemma {:induction false} CountWithGroups(args: seq<Expr>, c: seq<nat>)
    requires args != [] && c != [] && RightArgs(args) && !PlainArgs(args[1..])
    ensures var i := BeforeLastGroup(args);
            Extras(args[i]) != [] && Last(Extras(args[i])) <= 1
            && Last(CountArgs(args, c)) == Last(Extras(args[i])) + |args| - 1 - i
    decreases |args|
  {
    var c1 := Bump(Count(args[0], c));
    var rest := args[1..];
    if PlainArgs(rest[1..]) {
      PlainRestCount(rest, c1);
      CountOf(rest[0], c1);
      ExtrasOf(rest[0]);
    } else {
      CountWithGroups(rest, c1);
    }
  }

  /** A call whose arguments are right gets its number of arguments exactly when it is right itself. */
  lemma CallCountExactly(f: string, args: seq<Expr>, c: seq<nat>)
    requires RightArgs(args)
    ensures Last(OutOperand(Call(f, args), c)) == Function(f, |args|) <==> RightCall(args)
  {
    hide Extras, CountArgs, OutArgs;
    if args != [] {
      if PlainArgs(args[1..]) {
        CountOfArgs(args, Touch(c));
      } else {
        CountWithGroups(args, Touch(c) + [0]);
      }
    } else {
      NoArgsCount(Touch(c) + [0]);
    }
  }

  lemma NoArgsCount(c: seq<nat>)
    requires c != []
    ensures CountArgs([], c) == c
  {
  }

  lemma {:induction false} RightOutOperand(o: Operand, c: seq<nat>)
    ensures |OutOperand(o, c)| == |PostfixOperand(o)|
    ensures OutOperand(o, c) == PostfixOperand(o) <==> RightOperand(o)
    decreases o, 1
  {
    match o
    case Literal(_) =>
    case Quoted(_) =>
    case Variable(_) =>
    case Group(e) => RightOut(e, c + [0]);
    case Call(f, args) =>
      var c1 := Touch(c) + [0];
      RightOutArgs(args, c1);
      var out, intended := OutArgs(args, c1), PostfixArgs(args);
      var fn := Last(OutOperand(o, c));
      SameEnd(out, intended, fn, Function(f, |args|));
      if RightArgs(args) {
        CallCountExactly(f, args, c);
      }
  }

  lemma {:induction false} RightOut(e: Expr, c: seq<nat>)
    ensures |Out(e, c)| == |Postfix(e)|
    ensures Out(e, c) == Postfix(e) <==> Right(e)
    decreases e, 1
  {
    match e
    case Single(o) => RightOutOperand(o, c);
    case Binary(l, op, r) =>
      RightOutOperand(l, c);
      RightOut(r, CountOperand(l, c));
      SameParts(OutOperand(l, c), PostfixOperand(l), Out(r, CountOperand(l, c)), Postfix(r), Operator(op));
  }

  lemma {:induction false} RightOutArgs(args: seq<Expr>, c: seq<nat>)
    requires c != []
    ensures |OutArgs(args, c)| == |PostfixArgs(args)|
    ensures OutArgs(args, c) == PostfixArgs(args) <==> RightArgs(args)
    decreases args, 0
  {
    if args != [] {
      RightOut(args[0], c);
      var rest := args[1..];
      if rest == [] {
        assert Postfix(args[0]) + [] == Postfix(args[0]);
      } else {
        var c1 := Bump(Count(args[0], c));
        RightOutArgs(rest, c1);
        SameTwo(Out(args[0], c), Postfix(args[0]), OutArgs(rest, c1), PostfixArgs(rest));
      }
    }
  }

  lemma SameTwo<T>(a: seq<T>, a': seq<T>, b: seq<T>, b': seq<T>)
    requires |a| == |a'| && |b| == |b'|
    ensures a + b == a' + b' <==> a == a' && b == b'
  {
    if a + b == a' + b' {
      assert a == (a + b)[..|a|] == (a' + b')[..|a|] == a';
      assert b == (a + b)[|a|..] == (a' + b')[|a|..] == b';
    }
  }

  lemma SameEnd<T>(a: seq<T>, a': seq<T>, x: T, x': T)
    requires |a| == |a'|
    ensures a + [x] == a' + [x'] <==> a == a' && x == x'
  {
    SameTwo(a, a', [x], [x']);
  }

  lemma SameParts<T>(a: seq<T>, a': seq<T>, b: seq<T>, b': seq<T>, x: T)
    requires |a| == |a'| && |b| == |b'|
    ensures a + b + [x] == a' + b' + [x] <==> a == a' && b == b'
  {
    SameEnd(a + b, a' + b', x, x);
    SameTwo(a, a', b, b');
  }

  /** The conversion of any written tree yields its postfix form, every function with its number of
      arguments, exactly when in every call only the first argument holds groups and those leave a 1. */
  lemma ConvertToPostfixExactly(e: Expr)
    ensures Convert(Write(e)) == Ok(Postfix(e)) <==> Right(e)
  {
    ConvertTree(e);
    RightOut(e, []);
  }

  lemma ConvertBehindBlank(left: seq<Token>, e: Expr)
    requires Right(e) && Blank(left)
    ensures Convert(left + Write(e)) == Ok(Postfix(e))
  {
    hide Feed, Write, Front, Pending, Out, Reverse, ParenTop, Blank, Right;
    FeedBlank(left);
    var st := Feed(START, left).st;
    FeedMore(START, left, Write(e), st);
    Read(e, st);
    ParenTopOf([], Pending(e));
    assert [] + Pending(e) == Pending(e) && Pending(e)[0..] == Pending(e);
    FrontAndPending(e, st.argCounts);
    assert [] + Front(e, st.argCounts) == Front(e, st.argCounts);
    RightOut(e, st.argCounts);
  }

  lemma NothingAdded(a: multiset<Token>, b: multiset<Token>)
    requires a + b == b
    ensures a == multiset{}
  {
    assert forall t :: (a + b)[t] == a[t] + b[t];
  }

  lemma ConvertedBehindIsBlank(left: seq<Token>, e: Expr)
    requires Right(e) && Convert(left + Write(e)) == Ok(Postfix(e))
    ensures Blank(left)
  {
    hide Feed, Convert, Write, Right, Content, Parens, WellNested, Pending, Postfix;
    ConvertToPostfixExactly(e);
    ConvertPermutes(Write(e));
    ConvertPermutes(left + Write(e));
    ContentConcat(left, Write(e));
    NothingAdded(Content(left), Content(Write(e)));
    ConvertSucceedsExactly(left + Write(e));
    StartIsSound();
    FeedSucceedsExactly(START, left + Write(e));
    FeedConcat(START, left, Write(e));
    FeedSucceedsExactly(START, left);
    FeedSound(START, left);
    var st := Feed(START, left).st;
    NothingKept(st.operators);
    assert Open(st);
    Read(e, st);
    ParensConcat(st.operators, Pending(e));
  }

  /** Behind other tokens a written tree converts to its postfix form exactly when those are blank. */
  lemma ConvertBehindExactly(left: seq<Token>, e: Expr)
    requires Right(e)
    ensures Convert(left + Write(e)) == Ok(Postfix(e)) <==> Blank(left)
  {
    if Blank(left) {
      ConvertBehindBlank(left, e);
    }
    if Convert(left + Write(e)) == Ok(Postfix(e)) {
      ConvertedBehindIsBlank(left, e);
    }
  }

  lemma {:induction false} PlainIsRightOperand(o: Operand)
    requires PlainOperand(o)
    ensures RightOperand(o) && ExtrasOperand(o) == [] && !o.Group?
    decreases o, 1
  {
    if o.Call? {
      PlainAreRight(o.args);
      if o.args != [] {
        PlainIsRight(o.args[0]);
      }
    }
  }

  lemma {:induction false} PlainIsRight(e: Expr)
    requires Plain(e)
    ensures Right(e) && Extras(e) == [] && Leads(e)
    decreases e, 1
  {
    match e
    case Single(o) => PlainIsRightOperand(o);
    case Binary(l, _, r) =>
      PlainIsRightOperand(l);
      PlainIsRight(r);
  }

  lemma {:induction false} PlainAreRight(args: seq<Expr>)
    requires PlainArgs(args)
    ensures RightArgs(args)
    decreases args, 0
  {
    if args != [] {
      PlainIsRight(args[0]);
      PlainAreRight(args[1..]);
    }
  }

  lemma {:induction false} OutsideIsRightOperand(o: Operand)
    requires GroupsOutsideOperand(o)
    ensures RightOperand(o)
    decreases o, 1
  {
    match o
    case Literal(_) =>
    case Quoted(_) =>
    case Variable(_) =>
    case Group(e) => OutsideIsRight(e);
    case Call(_, _) => PlainIsRightOperand(o);
  }

  lemma {:induction false} OutsideIsRight(e: Expr)
    requires GroupsOutside(e)
    ensures Right(e)
    decreases e, 1
  {
    match e
    case Single(o) => OutsideIsRightOperand(o);
    case Binary(l, _, r) =>
      OutsideIsRightOperand(l);
      OutsideIsRight(r);
  }

  /** In particular trees with grouping parentheses outside of argument lists only convert to exactly
      their right-grouping postfix form. */
  lemma ConvertToPostfix(e: Expr)
    requires GroupsOutside(e)
    ensures Convert(Write(e)) == Ok(Postfix(e))
  {
    OutsideIsRight(e);
    ConvertToPostfixExactly(e);
  }

  /** F(1, (2)) is converted to a call of F with one argument. */
  lemma GroupedSecondArgumentIsLost(one: Number, two: Number)
    ensures var e := Single(Call("F", [Single(Literal(one)), Single(Group(Single(Literal(two))))]));
            Convert(Write(e)) == Ok([Num(one), Num(two), Function("F", 1)])
  {
    var a, g := Single(Literal(one)), Single(Literal(two));
    var b := Single(Group(g));
    var args := [a, b];
    ConvertTree(Single(Call("F", args)));
    assert args[1..] == [b];
    assert Touch([]) + [0] == [0];
    assert CountOperand(Literal(one), [0]) == [1] && CountOperand(Literal(two), [2, 0]) == [2, 1];
    assert [2] + [0] == [2, 0] && Count(g, [2, 0]) == [2, 1] && Out(g, [2, 0]) == [Num(two)];
    assert CountOperand(Group(g), [2]) == [2, 1] && OutOperand(Group(g), [2]) == [Num(two)];
    assert Count(b, [2]) == [2, 1] && Out(b, [2]) == [Num(two)];
    assert Bump(Count(a, [0])) == [2] && Out(a, [0]) == [Num(one)];
    assert CountArgs([b], [2]) == [2, 1] && OutArgs([b], [2]) == [Num(two)];
    assert CountArgs(args, [0]) == [2, 1];
    assert OutArgs(args, [0]) == [Num(one)] + [Num(two)];
  }
}
