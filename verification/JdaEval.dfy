/**
  Step 1 of jda_parse (sys/jda/jda.cxx) as a stack machine on token lists, the direct meaning of
  expression trees, and the proof that the machine computes that meaning from the postfix form. The
  method in JdaContext.dfy does the same in place and is proved against the machine.
 */
module JdaEval {
  import opened Wrappers
  import opened JdaTokens
  import opened JdaTree

  /** What lies on the object stack of a context and what names stand for. A routine is known by its name. */
  datatype Object = NumberObject(value: Number) | StringObject(text: string) | RoutineObject(id: string) | OtherObject

  /** The objects of a context: its stack and its named objects. */
  datatype World = World(stack: seq<Object>, named: map<string, Object>)

  /** A routine works on the objects and returns the number of results, negative on failure. */
  type Routine = World -> (World, int)

  /** The rounding arithmetic of long double. */
  datatype Arith = Arith(add: (real, real) -> real, sub: (real, real) -> real, mul: (real, real) -> real,
                         div: (real, real) -> real, rem: (real, real) -> real, pow: (real, real) -> real)

  /** What the routines do, and the arithmetic. */
  datatype Env = Env(routines: string -> Routine, arith: Arith)

  /** Refused: an error was reported, with the names by then. Wild: the code follows a null pointer. */
  datatype Attempt<+T> = Got(value: T) | Refused(named: map<string, Object>) | Wild

  function Apply(ar: Arith, op: Op, l: Number, r: Number): Number {
    var v := match op
      case Sum => ar.add(l.re, r.re)
      case Sub => ar.sub(l.re, r.re)
      case Mul => ar.mul(l.re, r.re)
      case Div => if l.re == 0.0 || r.re == 0.0 then 0.0 else ar.div(l.re, r.re)
      case Rem => if l.re == 0.0 || r.re == 0.0 then 0.0 else ar.rem(l.re, r.re)
      case Exponent => ar.pow(l.re, r.re);
    Number(v, 0.0, 1.0)
  }

  /** jda_object_to_token. For a routine it copies a text that no routine has. */
  function ToToken(o: Object, named: map<string, Object>): Attempt<Token> {
    match o
    case NumberObject(v) => Got(Num(v))
    case StringObject(t) => Got(Str(t))
    case RoutineObject(_) => Wild
    case OtherObject => Refused(named)
  }

  /** The objects after a routine was run for its plain name; what it returns is ignored. */
  function RunPlainly(env: Env, o: Object, w: World): World {
    if o.RoutineObject? then env.routines(o.id)(w).0 else w
  }

  /** What a name in front of no assignment is replaced by. A routine is run first, and then what its name
      stands for, which it may have changed, is copied. */
  function Lookup(env: Env, name: string, w: World): Attempt<(Token, World)> {
    if name !in w.named then Refused(w.named)
    else
      var left := RunPlainly(env, w.named[name], w);
      match ToToken(if name in left.named then left.named[name] else w.named[name], left.named)
      case Got(t) => Got((t, left))
      case Refused(names) => Refused(names)
      case Wild => Wild
  }

  /** The object of a token; only numbers and strings have one. */
  function ToObject(t: Token): Option<Object> {
    match t
    case Num(v) => Some(NumberObject(v))
    case Str(s) => Some(StringObject(s))
    case _ => None
  }

  /** Arguments become objects. */
  function ToObjects(ts: seq<Token>): Option<seq<Object>> {
    if ts == [] then Some([])
    else match (ToObject(ts[0]), ToObjects(ts[1..]))
      case (Some(x), Some(xs)) => Some([x] + xs)
      case _ => None
  }

  /** A call of fn, a function token, on argument tokens: the token that replaces them and the objects. What
      the name stands for is not checked to be a routine. A routine that leaves the object stack empty leaves
      the function token in place. */
  function Invoke(env: Env, fn: Token, args: seq<Token>, w: World): Attempt<(Token, World)>
    requires fn.Function?
  {
    if fn.name !in w.named then Refused(w.named)
    else match ToObjects(args)
      case None => Refused(w.named)
      case Some(os) =>
        if !w.named[fn.name].RoutineObject? then Wild
        else
          var (left, n) := env.routines(w.named[fn.name].id)(w.(stack := w.stack + os));
          if n < 0 || n > 1 then Refused(left.named) else Returned(fn, left)
  }

  /** The token that stands for the result on top of the object stack. */
  function Returned(fn: Token, w: World): Attempt<(Token, World)> {
    if w.stack == [] then Got((fn, w))
    else match ToToken(w.stack[|w.stack|-1], w.named)
      case Got(t) => Got((t, w.(stack := w.stack[..|w.stack|-1])))
      case Refused(names) => Refused(names)
      case Wild => Wild
  }

  /** The machine: values in front, tokens still to be looked at behind. */
  function Eval(env: Env, stack: seq<Token>, rest: seq<Token>, w: World): Attempt<(seq<Token>, World)>
    decreases |rest|
  {
    if rest == [] then Got((stack, w))
    else match rest[0]
      case Ident(name) =>
        if |rest| > 1 && rest[1] == Assign then Eval(env, stack + rest[..2], rest[2..], w)
        else (match Lookup(env, name, w)
          case Got((t, w')) => Eval(env, stack + [t], rest[1..], w')
          case Refused(names) => Refused(names)
          case Wild => Wild)
      case Function(_, n) =>
        if n > |stack| then Refused(w.named)
        else (match Invoke(env, rest[0], stack[|stack| - n..], w)
          case Got((t, w')) => Eval(env, stack[..|stack| - n] + [t], rest[1..], w')
          case Refused(names) => Refused(names)
          case Wild => Wild)
      case Operator(op) =>
        if |stack| < 2 || !stack[|stack|-2].Num? || !stack[|stack|-1].Num? then Refused(w.named)
        else
          var v := Apply(env.arith, op, stack[|stack|-2].value, stack[|stack|-1].value);
          Eval(env, stack[..|stack|-2] + [Num(v)], rest[1..], w)
      case _ => Eval(env, stack + [rest[0]], rest[1..], w)
  }

  // ----- The meaning of a tree

  function MeaningOfOperand(env: Env, o: Operand, w: World): Attempt<(Token, World)>
    decreases o, 1
  {
    match o
    case Literal(v) => Got((Num(v), w))
    case Quoted(s) => Got((Str(s), w))
    case Variable(name) => Lookup(env, name, w)
    case Group(e) => Meaning(env, e, w)
    case Call(f, args) =>
      match MeaningOfArgs(env, args, w)
      case Got((ts, w')) => Invoke(env, Function(f, |args|), ts, w')
      case Refused(names) => Refused(names)
      case Wild => Wild
  }

  /** An operator combines its left operand with the meaning of everything to its right. */
  function Meaning(env: Env, e: Expr, w: World): Attempt<(Token, World)>
    decreases e, 1
  {
    match e
    case Single(o) => MeaningOfOperand(env, o, w)
    case Binary(l, op, r) =>
      match MeaningOfOperand(env, l, w)
      case Refused(names) => Refused(names)
      case Wild => Wild
      case Got((a, w1)) =>
        match Meaning(env, r, w1)
        case Refused(names) => Refused(names)
        case Wild => Wild
        case Got((b, w2)) =>
          if a.Num? && b.Num? then Got((Num(Apply(env.arith, op, a.value, b.value)), w2))
          else Refused(w2.named)
  }

  function MeaningOfArgs(env: Env, args: seq<Expr>, w: World): Attempt<(seq<Token>, World)>
    decreases args, 0
  {
    if args == [] then Got(([], w))
    else match Meaning(env, args[0], w)
      case Refused(names) => Refused(names)
      case Wild => Wild
      case Got((t, w1)) =>
        match MeaningOfArgs(env, args[1..], w1)
        case Refused(names) => Refused(names)
        case Wild => Wild
        case Got((ts, w2)) => Got(([t] + ts, w2))
  }

  lemma {:induction false} ArgsCounted(env: Env, args: seq<Expr>, w: World)
    ensures MeaningOfArgs(env, args, w).Got? ==> |MeaningOfArgs(env, args, w).value.0| == |args|
    decreases |args|
  {
    if args != [] && Meaning(env, args[0], w).Got? {
      ArgsCounted(env, args[1..], Meaning(env, args[0], w).value.1);
    }
  }

  /** A value, or the function token of a routine that left nothing. */
  predicate IsResult(t: Token) {
    t.Num? || t.Str? || t.Function?
  }

  lemma {:induction false} MeaningOfOperandIsResult(env: Env, o: Operand, w: World)
    ensures MeaningOfOperand(env, o, w).Got? ==> IsResult(MeaningOfOperand(env, o, w).value.0)
    decreases o, 1
  {
    match o
    case Literal(_) =>
    case Quoted(_) =>
    case Variable(_) =>
    case Group(e) => MeaningIsResult(env, e, w);
    case Call(_, _) =>
  }

  lemma {:induction false} MeaningIsResult(env: Env, e: Expr, w: World)
    ensures Meaning(env, e, w).Got? ==> IsResult(Meaning(env, e, w).value.0)
    decreases e, 1
  {
    match e
    case Single(o) => MeaningOfOperandIsResult(env, o, w);
    case Binary(_, _, _) =>
  }

  // ----- The machine computes the meaning

  ghost predicate NoAssignNext(rest: seq<Token>) {
    rest == [] || rest[0] != Assign
  }

  function Continue(env: Env, stack: seq<Token>, m: Attempt<(Token, World)>, rest: seq<Token>)
    : Attempt<(seq<Token>, World)>
  {
    match m
    case Got((t, w)) => Eval(env, stack + [t], rest, w)
    case Refused(names) => Refused(names)
    case Wild => Wild
  }

  lemma PostfixStarts(e: Expr, rest: seq<Token>)
    ensures NoAssignNext(Postfix(e) + rest)
    decreases e, 1
  {
    match e
    case Single(o) => PostfixOperandStarts(o, rest);
    case Binary(l, op, r) =>
      PostfixOperandStarts(l, Postfix(r) + [Operator(op)] + rest);
      assert Postfix(e) + rest == PostfixOperand(l) + (Postfix(r) + [Operator(op)] + rest);
  }

  lemma PostfixOperandStarts(o: Operand, rest: seq<Token>)
    ensures NoAssignNext(PostfixOperand(o) + rest)
    decreases o, 1
  {
    match o
    case Literal(_) =>
    case Quoted(_) =>
    case Variable(_) =>
    case Group(e) => PostfixStarts(e, rest);
    case Call(f, args) =>
      if args != [] {
        var tail := PostfixArgs(args[1..]) + [Function(f, |args|)] + rest;
        PostfixStarts(args[0], tail);
        assert PostfixOperand(o) + rest == Postfix(args[0]) + tail;
      }
  }

  lemma {:induction false} RunOperand(env: Env, stack: seq<Token>, o: Operand, rest: seq<Token>, w: World)
    requires NoAssignNext(rest)
    ensures Eval(env, stack, PostfixOperand(o) + rest, w)
         == Continue(env, stack, MeaningOfOperand(env, o, w), rest)
    decreases o, 1
  {
    match o
    case Literal(v) =>
      assert ([Num(v)] + rest)[1..] == rest;
    case Quoted(s) =>
      assert ([Str(s)] + rest)[1..] == rest;
    case Variable(n) =>
      assert ([Ident(n)] + rest)[1..] == rest;
    case Group(e) => Run(env, stack, e, rest, w);
    case Call(f, args) =>
      var fn := Function(f, |args|);
      assert PostfixArgs(args) + [fn] + rest == PostfixArgs(args) + ([fn] + rest);
      RunArgs(env, stack, args, [fn] + rest, w);
      var m := MeaningOfArgs(env, args, w);
      if m.Got? {
        ArgsCounted(env, args, w);
        RunCall(env, stack, fn, m.value.0, rest, m.value.1);
      }
  }

  lemma RunCall(env: Env, stack: seq<Token>, fn: Token, ts: seq<Token>, rest: seq<Token>, w: World)
    requires fn.Function? && fn.argCount == |ts|
    ensures Eval(env, stack + ts, [fn] + rest, w) == Continue(env, stack, Invoke(env, fn, ts, w), rest)
  {
    var s := stack + ts;
    assert s[|s| - |ts|..] == ts && s[..|s| - |ts|] == stack;
    assert ([fn] + rest)[1..] == rest;
  }

  lemma RunOperator(env: Env, stack: seq<Token>, op: Op, a: Token, b: Token, rest: seq<Token>, w: World)
    ensures Eval(env, stack + [a] + [b], [Operator(op)] + rest, w)
         == if a.Num? && b.Num? then Eval(env, stack + [Num(Apply(env.arith, op, a.value, b.value))], rest, w)
            else Refused(w.named)
  {
    var s := stack + [a] + [b];
    assert s[..|s|-2] == stack;
    assert ([Operator(op)] + rest)[1..] == rest;
  }

  lemma {:induction false} Run(env: Env, stack: seq<Token>, e: Expr, rest: seq<Token>, w: World)
    requires NoAssignNext(rest)
    ensures Eval(env, stack, Postfix(e) + rest, w) == Continue(env, stack, Meaning(env, e, w), rest)
    decreases e, 1
  {
    match e
    case Single(o) => RunOperand(env, stack, o, rest, w);
    case Binary(l, op, r) =>
      var rest1 := [Operator(op)] + rest;
      PostfixStarts(r, rest1);
      assert Postfix(e) + rest == PostfixOperand(l) + (Postfix(r) + rest1);
      RunOperand(env, stack, l, Postfix(r) + rest1, w);
      var ml := MeaningOfOperand(env, l, w);
      if ml.Got? {
        var (a, w1) := ml.value;
        Run(env, stack + [a], r, rest1, w1);
        var mr := Meaning(env, r, w1);
        if mr.Got? {
          RunOperator(env, stack, op, a, mr.value.0, rest, mr.value.1);
        }
      }
  }

  lemma {:induction false} RunArgs(env: Env, stack: seq<Token>, args: seq<Expr>, rest: seq<Token>, w: World)
    requires NoAssignNext(rest)
    ensures Eval(env, stack, PostfixArgs(args) + rest, w)
         == match MeaningOfArgs(env, args, w)
            case Got(m) => Eval(env, stack + m.0, rest, m.1)
            case Refused(names) => Refused(names)
            case Wild => Wild
    decreases args, 0
  {
    hide Eval, Meaning, Postfix;
    if args == [] {
      assert PostfixArgs(args) + rest == rest && stack + [] == stack;
    } else {
      var tail := PostfixArgs(args[1..]) + rest;
      ArgsStart(args[1..], rest);
      assert PostfixArgs(args) + rest == Postfix(args[0]) + tail;
      Run(env, stack, args[0], tail, w);
      var m := Meaning(env, args[0], w);
      if m.Got? {
        var (t, w1) := m.value;
        RunArgs(env, stack + [t], args[1..], rest, w1);
        var ms := MeaningOfArgs(env, args[1..], w1);
        if ms.Got? {
          assert stack + [t] + ms.value.0 == stack + ([t] + ms.value.0);
        }
      }
    }
  }

  lemma ArgsStart(args: seq<Expr>, rest: seq<Token>)
    requires NoAssignNext(rest)
    ensures NoAssignNext(PostfixArgs(args) + rest)
  {
    if args != [] {
      PostfixStarts(args[0], PostfixArgs(args[1..]) + rest);
      assert PostfixArgs(args) + rest == Postfix(args[0]) + (PostfixArgs(args[1..]) + rest);
    } else {
      assert PostfixArgs(args) + rest == rest;
    }
  }

  /** Evaluating the postfix form of a tree leaves exactly one token, the meaning of the tree, or
      reports an error exactly when the tree has no meaning. */
  lemma EvalOfPostfix(env: Env, e: Expr, w: World)
    ensures Eval(env, [], Postfix(e), w)
         == match Meaning(env, e, w)
            case Got((t, w')) => Got(([t], w'))
            case Refused(names) => Refused(names)
            case Wild => Wild
  {
    Run(env, [], e, [], w);
    assert Postfix(e) + [] == Postfix(e);
    var m := Meaning(env, e, w);
    if m.Got? {
      assert [] + [m.value.0] == [m.value.0];
    }
  }

  // ----- Which trees run wild

  predicate NoRoutine(stack: seq<Object>) {
    forall k :: 0 <= k < |stack| ==> !stack[k].RoutineObject?
  }

  /** The same names, and the same of them stand for routines. */
  ghost predicate SameRoutines(a: map<string, Object>, b: map<string, Object>) {
    a.Keys == b.Keys && forall n :: n in a ==> (a[n].RoutineObject? <==> b[n].RoutineObject?)
  }

  /** Routines change neither which names there are nor which of them stand for routines, and leave no
      routine on a stack without one. */
  ghost predicate Tame(env: Env) {
    forall id, w: World :: NoRoutine(w.stack) ==>
      var left := env.routines(id)(w).0;
      SameRoutines(w.named, left.named) && NoRoutine(left.stack)
  }

  /** No plain name stands for a routine, and every called name that stands for something does. */
  predicate SafeOperand(named: map<string, Object>, o: Operand)
    decreases o, 1
  {
    match o
    case Literal(_) => true
    case Quoted(_) => true
    case Variable(n) => n in named ==> !named[n].RoutineObject?
    case Group(e) => Safe(named, e)
    case Call(f, args) => SafeArgs(named, args) && (f in named ==> named[f].RoutineObject?)
  }

  predicate Safe(named: map<string, Object>, e: Expr)
    decreases e, 1
  {
    match e
    case Single(o) => SafeOperand(named, o)
    case Binary(l, _, r) => SafeOperand(named, l) && Safe(named, r)
  }

  predicate SafeArgs(named: map<string, Object>, args: seq<Expr>)
    decreases args, 0
  {
    args == [] || (Safe(named, args[0]) && SafeArgs(named, args[1..]))
  }

  lemma {:induction false} SafeOperandSame(a: map<string, Object>, b: map<string, Object>, o: Operand)
    requires SameRoutines(a, b)
    ensures SafeOperand(a, o) <==> SafeOperand(b, o)
    decreases o, 1
  {
    match o
    case Literal(_) =>
    case Quoted(_) =>
    case Variable(_) =>
    case Group(e) => SafeSame(a, b, e);
    case Call(_, args) => SafeArgsSame(a, b, args);
  }

  /** Safety looks only at which names stand for routines. */
  lemma {:induction false} SafeSame(a: map<string, Object>, b: map<string, Object>, e: Expr)
    requires SameRoutines(a, b)
    ensures Safe(a, e) <==> Safe(b, e)
    decreases e, 1
  {
    match e
    case Single(o) => SafeOperandSame(a, b, o);
    case Binary(l, _, r) =>
      SafeOperandSame(a, b, l);
      SafeSame(a, b, r);
  }

  lemma {:induction false} SafeArgsSame(a: map<string, Object>, b: map<string, Object>, args: seq<Expr>)
    requires SameRoutines(a, b)
    ensures SafeArgs(a, args) <==> SafeArgs(b, args)
    decreases args, 0
  {
    if args != [] {
      SafeSame(a, b, args[0]);
      SafeArgsSame(a, b, args[1..]);
    }
  }

  /** The outcome of an evaluation from w on: a value only if it is safe, running wild only if it is not. Behind a
      value the same names stand for routines. */
  ghost predicate Settled<T>(m: Attempt<(T, World)>, w: World, safe: bool) {
    match m
    case Got((_, w')) => safe && SameRoutines(w.named, w'.named) && NoRoutine(w'.stack)
    case Refused(names) => SameRoutines(w.named, names)
    case Wild => !safe
  }

  lemma ArgumentsAreNoRoutines(ts: seq<Token>)
    ensures ToObjects(ts).Some? ==> NoRoutine(ToObjects(ts).value)
  {
  }

  lemma LookupSettled(env: Env, name: string, w: World)
    requires Tame(env) && NoRoutine(w.stack)
    ensures Settled(Lookup(env, name, w), w, name in w.named ==> !w.named[name].RoutineObject?)
  {
    if name in w.named && w.named[name].RoutineObject? {
      var left := RunPlainly(env, w.named[name], w);
      assert SameRoutines(w.named, left.named);
    }
  }

  lemma InvokeSettled(env: Env, fn: Token, args: seq<Token>, w: World)
    requires Tame(env) && NoRoutine(w.stack) && fn.Function?
    ensures Settled(Invoke(env, fn, args, w), w, fn.name in w.named ==> w.named[fn.name].RoutineObject?)
  {
    ArgumentsAreNoRoutines(args);
    if fn.name in w.named && ToObjects(args).Some? && w.named[fn.name].RoutineObject? {
      var called := w.(stack := w.stack + ToObjects(args).value);
      assert NoRoutine(called.stack);
      var left := env.routines(w.named[fn.name].id)(called).0;
      assert SameRoutines(called.named, left.named) && NoRoutine(left.stack);
    }
  }

  lemma {:induction false} OperandSettled(env: Env, o: Operand, w: World)
    requires Tame(env) && NoRoutine(w.stack)
    ensures Settled(MeaningOfOperand(env, o, w), w, SafeOperand(w.named, o))
    decreases o, 1
  {
    hide Lookup, Invoke, Tame;
    match o
    case Literal(_) =>
    case Quoted(_) =>
    case Variable(n) => LookupSettled(env, n, w);
    case Group(e) => ExprSettled(env, e, w);
    case Call(f, args) =>
      ArgsSettled(env, args, w);
      var m := MeaningOfArgs(env, args, w);
      if m.Got? {
        InvokeSettled(env, Function(f, |args|), m.value.0, m.value.1);
      }
  }

  lemma {:induction false} ExprSettled(env: Env, e: Expr, w: World)
    requires Tame(env) && NoRoutine(w.stack)
    ensures Settled(Meaning(env, e, w), w, Safe(w.named, e))
    decreases e, 1
  {
    hide Tame;
    match e
    case Single(o) => OperandSettled(env, o, w);
    case Binary(l, op, r) =>
      OperandSettled(env, l, w);
      var m := MeaningOfOperand(env, l, w);
      if m.Got? {
        ExprSettled(env, r, m.value.1);
        SafeSame(w.named, m.value.1.named, r);
      }
  }

  lemma {:induction false} ArgsSettled(env: Env, args: seq<Expr>, w: World)
    requires Tame(env) && NoRoutine(w.stack)
    ensures Settled(MeaningOfArgs(env, args, w), w, SafeArgs(w.named, args))
    decreases args, 0
  {
    hide Tame;
    if args != [] {
      ExprSettled(env, args[0], w);
      var m := Meaning(env, args[0], w);
      if m.Got? {
        ArgsSettled(env, args[1..], m.value.1);
        SafeArgsSame(w.named, m.value.1.named, args[1..]);
      }
    }
  }

  /** With tame routines a safe tree never runs wild and only a safe one has a value. So an evaluation that
      reports no error runs wild exactly when the tree is not safe. */
  lemma RunsWildExactly(env: Env, e: Expr, w: World)
    requires Tame(env) && NoRoutine(w.stack)
    ensures Meaning(env, e, w).Wild? ==> !Safe(w.named, e)
    ensures Meaning(env, e, w).Got? ==> Safe(w.named, e)
    ensures !Meaning(env, e, w).Refused? ==> (Meaning(env, e, w).Wild? <==> !Safe(w.named, e))
  {
    ExprSettled(env, e, w);
  }

  // ----- Numbers and operators only

  predicate Arithmetic(ts: seq<Token>) {
    forall k :: 0 <= k < |ts| ==> ts[k].Num? || ts[k].Operator?
  }

  /** A stack of that depth never runs short of the two operands of an operator. */
  predicate NeverUnderflows(ts: seq<Token>, depth: nat) {
    ts == [] ||
    if ts[0].Operator? then depth >= 2 && NeverUnderflows(ts[1..], depth - 1) else NeverUnderflows(ts[1..], depth + 1)
  }

  /** On numbers and operators the only error is a missing operand. */
  lemma {:induction false} ArithmeticFailsExactly(env: Env, stack: seq<Token>, ts: seq<Token>, w: World)
    requires Arithmetic(ts) && forall k :: 0 <= k < |stack| ==> stack[k].Num?
    ensures Eval(env, stack, ts, w).Got? <==> NeverUnderflows(ts, |stack|)
    ensures Eval(env, stack, ts, w).Got? ==>
              Eval(env, stack, ts, w).value.1 == w
              && forall k :: 0 <= k < |Eval(env, stack, ts, w).value.0| ==> Eval(env, stack, ts, w).value.0[k].Num?
    decreases |ts|
  {
    if ts != [] {
      if ts[0].Operator? {
        if |stack| >= 2 {
          var v := Apply(env.arith, ts[0].op, stack[|stack|-2].value, stack[|stack|-1].value);
          ArithmeticFailsExactly(env, stack[..|stack|-2] + [Num(v)], ts[1..], w);
        }
      } else {
        ArithmeticFailsExactly(env, stack + [ts[0]], ts[1..], w);
      }
    }
  }
}
