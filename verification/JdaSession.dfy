/**
  The shell's loop over the lines of a session (jda_term in sys/jda/jda.cxx), and what a session of
  expressions, assignments and comments comes to.
 */
module JdaSession {
  import opened Wrappers
  import opened JdaTokens
  import opened JdaRpn
  import opened JdaTree
  import opened JdaEval
  import opened JdaLexer
  import opened JdaAssign
  import opened JdaContext
  import opened JdaPipeline

  /** Between two lines: the tokens an unreadable line left, and the names. Lost: the code read in front of a
      stack, through a null pointer or at a released name. */
  datatype Session = Running(left: seq<Token>, named: map<string, Object>) | Lost

  /** Nothing but space up to the end of the line. */
  predicate Spaces(line: string, i: nat)
    decreases |line| - i
  {
    At(line, i) == '\0' || (IsSpace(line[i]) && Spaces(line, i + 1))
  }

  function Continued(p: Parsing): Session {
    if p.Undefined? then Lost else Running([], p.named)
  }

  /** The session behind a line. */
  function After(rd: Reader, env: Env, line: string, s: Session): Session {
    if s.Lost? || Spaces(line, 0) then s
    else match ReadLine(rd, line, s.left)
      case Comment => s
      case Unread(left) => Running(left, s.named)
      case Crashed => Lost
      case Postfixed(rpn) => Continued(Parse(env, rpn, World([], s.named)))
  }

  function AfterAll(rd: Reader, env: Env, lines: seq<string>, s: Session): Session
    decreases |lines|
  {
    if lines == [] then s else AfterAll(rd, env, lines[1..], After(rd, env, lines[0], s))
  }

  /** The test for an empty line. */
  method IsEmpty(line: string) returns (empty: bool)
    ensures empty <==> Spaces(line, 0)
  {
    var i := 0;
    while At(line, i) != '\0'
      invariant i <= |line| && (Spaces(line, i) <==> Spaces(line, 0))
      decreases |line| - i
    {
      if !IsSpace(line[i]) {
        return false;
      }
      i := i + 1;
    }
    return true;
  }

  /** jda_term: the lines one after the other; false when the session is lost. */
  method RunSession(ctx: Context, rd: Reader, env: Env, lines: seq<string>) returns (ok: bool)
    requires ctx.Valid() && ctx.stacks == []
    modifies ctx, ctx.tokens
    ensures ctx.Valid()
    ensures match AfterAll(rd, env, lines, Running(old(ctx.Tokens()), old(ctx.objects)))
            case Running(left, named) => ok && ctx.Tokens() == left && ctx.Objects() == World([], named)
            case Lost => !ok
  {
    hide ReadLine, Parse, Spaces;
    ghost var goal := AfterAll(rd, env, lines, Running(ctx.Tokens(), ctx.objects));
    var k := 0;
    assert lines[0..] == lines;
    while k < |lines|
      invariant k <= |lines| && ctx.Valid() && ctx.stacks == []
      invariant ctx.tokens == old(ctx.tokens) || fresh(ctx.tokens)
      invariant AfterAll(rd, env, lines[k..], Running(ctx.Tokens(), ctx.objects)) == goal
    {
      assert lines[k..][0] == lines[k] && lines[k..][1..] == lines[k + 1..];
      ghost var s := Running(ctx.Tokens(), ctx.objects);
      var empty := IsEmpty(lines[k]);
      if !empty {
        var r := ctx.RunLine(rd, env, lines[k]);
        if r.None? {
          LostStays(rd, env, lines[k + 1..]);
          return false;
        }
      }
      assert After(rd, env, lines[k], s) == Running(ctx.Tokens(), ctx.objects);
      k := k + 1;
    }
    return true;
  }

  lemma {:induction false} LostStays(rd: Reader, env: Env, lines: seq<string>)
    ensures AfterAll(rd, env, lines, Lost) == Lost
    decreases |lines|
  {
    if lines != [] {
      LostStays(rd, env, lines[1..]);
    }
  }

  // ----- What a session comes to

  /** A line that can be read: an expression alone, an assignment, a comment. */
  datatype Command = Show(expr: Expr) | Bind(name: string, expr: Expr) | Remark(text: string)

  function Typed(spell: Spelling, c: Command): string {
    match c
    case Show(e) => Print(spell, Write(e))
    case Bind(x, e) => Print(spell, [Ident(x), Assign] + Write(e))
    case Remark(text) => "*" + text
  }

  function AllTyped(spell: Spelling, cs: seq<Command>): seq<string> {
    if cs == [] then [] else [Typed(spell, cs[0])] + AllTyped(spell, cs[1..])
  }

  predicate Proper(rd: Reader, spell: Spelling, c: Command) {
    match c
    case Show(e) => Spellable(rd, spell, e) && Right(e)
    case Bind(x, e) => Name(x) && Spellable(rd, spell, e) && Right(e)
    case Remark(_) => true
  }

  ghost predicate AllProper(rd: Reader, spell: Spelling, cs: seq<Command>) {
    forall k :: 0 <= k < |cs| ==> Proper(rd, spell, cs[k])
  }

  /** What a command does to the names, from the meaning of its expression. */
  function Effected(env: Env, c: Command, named: map<string, Object>): Parsing {
    if c.Remark? then Stored(named)
    else match Meaning(env, c.expr, World([], named))
      case Refused(names) => Unevaluated(names)
      case Wild => Undefined
      case Got((t, w)) => if c.Bind? then Bound(c.name, t, w) else Stored(w.named)
  }

  function AllEffected(env: Env, cs: seq<Command>, named: map<string, Object>): Session
    decreases |cs|
  {
    if cs == [] then Running([], named)
    else match Effected(env, cs[0], named)
      case Undefined => Lost
      case p => AllEffected(env, cs[1..], p.named)
  }

  lemma TypedIsNotEmpty(rd: Reader, spell: Spelling, c: Command)
    requires Proper(rd, spell, c)
    ensures !Spaces(Typed(spell, c), 0)
  {
    hide Print, Text, Spellable, Printable;
    match c
    case Show(e) =>
      Written(rd, spell, e);
      PrintedIsNotEmpty(rd, spell, Write(e));
    case Bind(x, e) =>
      assert Printable(rd, spell, Ident(x)) by { NamePrintable(rd, spell, x); }
      PrintedIsNotEmpty(rd, spell, [Ident(x), Assign] + Write(e));
    case Remark(_) =>
  }

  lemma PrintedIsNotEmpty(rd: Reader, spell: Spelling, ts: seq<Token>)
    requires ts != [] && Printable(rd, spell, ts[0])
    ensures !Spaces(Print(spell, ts), 0)
  {
    FirstOfText(rd, spell, ts[0]);
    assert Print(spell, ts)[0] == Text(spell, ts[0])[0];
  }

  /** A line that is read to its postfix form does to the names what its expression means. */
  lemma ShownLine(rd: Reader, spell: Spelling, env: Env, e: Expr, left: seq<Token>, named: map<string, Object>)
    requires Spellable(rd, spell, e) && Right(e) && Blank(left)
    ensures After(rd, env, Print(spell, Write(e)), Running(left, named)) == Continued(Effected(env, Show(e), named))
  {
    hide Eval, ReadLine, Meaning, Print, Write, Blank, Spaces, Spellable, Postfix, AssignFrom;
    ReadBehindExactly(rd, spell, e, left);
    TypedIsNotEmpty(rd, spell, Show(e));
    var w := World([], named);
    EvalOfPostfix(env, e, w);
    var m := Meaning(env, e, w);
    if m.Got? {
      MeaningIsResult(env, e, w);
      NoAssignment([m.value.0], 0, m.value.1);
    }
  }

  lemma BoundLine(rd: Reader, spell: Spelling, env: Env, name: string, e: Expr, named: map<string, Object>)
    requires Name(name) && Spellable(rd, spell, e) && Right(e)
    ensures After(rd, env, Typed(spell, Bind(name, e)), Running([], named))
         == Continued(Effected(env, Bind(name, e), named))
  {
    hide Parse, ReadLine, Meaning, Print, Write, Spaces, Spellable, Postfix, Bound;
    TypedIsNotEmpty(rd, spell, Bind(name, e));
    WrittenAssignment(rd, spell, name, e);
    LineOfAssignment(rd, spell, env, name, e, World([], named));
  }

  /** A session of such lines does to the names, line by line, what the expressions mean. */
  lemma {:induction false} SessionOfCommands(rd: Reader, spell: Spelling, env: Env, cs: seq<Command>,
                                             named: map<string, Object>)
    requires AllProper(rd, spell, cs)
    ensures AfterAll(rd, env, AllTyped(spell, cs), Running([], named)) == AllEffected(env, cs, named)
    decreases |cs|
  {
    if cs != [] {
      hide After, Effected, Proper;
      var lines := AllTyped(spell, cs);
      assert lines[0] == Typed(spell, cs[0]) && lines[1..] == AllTyped(spell, cs[1..]);
      assert AllProper(rd, spell, cs[1..]) by { RestProper(rd, spell, cs); }
      CommandLine(rd, spell, env, cs[0], named);
      var p := Effected(env, cs[0], named);
      if p.Undefined? {
        LostStays(rd, env, lines[1..]);
      } else {
        SessionOfCommands(rd, spell, env, cs[1..], p.named);
      }
    }
  }

  lemma RestProper(rd: Reader, spell: Spelling, cs: seq<Command>)
    requires AllProper(rd, spell, cs) && cs != []
    ensures AllProper(rd, spell, cs[1..]) && Proper(rd, spell, cs[0])
  {
  }

  lemma CommandLine(rd: Reader, spell: Spelling, env: Env, c: Command, named: map<string, Object>)
    requires Proper(rd, spell, c)
    ensures After(rd, env, Typed(spell, c), Running([], named)) == Continued(Effected(env, c, named))
  {
    match c
    case Show(e) => ShownLine(rd, spell, env, e, [], named);
    case Bind(x, e) => BoundLine(rd, spell, env, x, e, named);
    case Remark(_) => TypedIsNotEmpty(rd, spell, c);
  }

  // ----- Which sessions are lost

  predicate Safely(named: map<string, Object>, c: Command) {
    match c
    case Show(e) => Safe(named, e)
    case Bind(x, e) => Safe(named, e) && x !in named
    case Remark(_) => true
  }

  /** The names behind a command, as far as routines are concerned. */
  function Adding(named: map<string, Object>, c: Command): map<string, Object> {
    if c.Bind? then named[c.name := OtherObject] else named
  }

  /** Every expression is safe for the names that there are and those that were assigned before, and no known
      name is assigned to. */
  predicate SafeSession(named: map<string, Object>, cs: seq<Command>)
    decreases |cs|
  {
    cs == [] || (Safely(named, cs[0]) && SafeSession(Adding(named, cs[0]), cs[1..]))
  }

  /** No line reports an error. */
  predicate Faultless(env: Env, cs: seq<Command>, named: map<string, Object>)
    decreases |cs|
  {
    cs == [] || match Effected(env, cs[0], named)
      case Stored(names) => Faultless(env, cs[1..], names)
      case Undefined => true
      case _ => false
  }

  /** A command is lost only if it is not safe, and stores something only if it is. */
  lemma CommandSettled(env: Env, c: Command, named: map<string, Object>)
    requires Tame(env)
    ensures match Effected(env, c, named)
            case Stored(names) => Safely(named, c) && SameRoutines(Adding(named, c), names)
            case Undefined => !Safely(named, c)
            case p => SameRoutines(named, p.named)
  {
    if !c.Remark? {
      hide Tame, Meaning, Safe;
      ExprSettled(env, c.expr, World([], named));
    }
  }

  /** Fewer names, and the same of them stand for routines. */
  ghost predicate Covers(a: map<string, Object>, b: map<string, Object>) {
    forall n :: n in a ==> n in b && (a[n].RoutineObject? <==> b[n].RoutineObject?)
  }

  lemma {:induction false} SafeOperandCovered(a: map<string, Object>, b: map<string, Object>, o: Operand)
    requires Covers(a, b) && SafeOperand(b, o)
    ensures SafeOperand(a, o)
    decreases o, 1
  {
    match o
    case Literal(_) =>
    case Quoted(_) =>
    case Variable(_) =>
    case Group(e) => SafeCovered(a, b, e);
    case Call(_, args) => SafeArgsCovered(a, b, args);
  }

  lemma {:induction false} SafeCovered(a: map<string, Object>, b: map<string, Object>, e: Expr)
    requires Covers(a, b) && Safe(b, e)
    ensures Safe(a, e)
    decreases e, 1
  {
    match e
    case Single(o) => SafeOperandCovered(a, b, o);
    case Binary(l, _, r) =>
      SafeOperandCovered(a, b, l);
      SafeCovered(a, b, r);
  }

  lemma {:induction false} SafeArgsCovered(a: map<string, Object>, b: map<string, Object>, args: seq<Expr>)
    requires Covers(a, b) && SafeArgs(b, args)
    ensures SafeArgs(a, args)
    decreases args, 0
  {
    if args != [] {
      SafeCovered(a, b, args[0]);
      SafeArgsCovered(a, b, args[1..]);
    }
  }

  /** With tame routines a safe session is never lost, whatever errors its lines report. */
  lemma {:induction false} SafeSessionRuns(env: Env, cs: seq<Command>, named: map<string, Object>,
                                           known: map<string, Object>)
    requires Tame(env) && Covers(named, known) && SafeSession(known, cs)
    ensures AllEffected(env, cs, named).Running?
    decreases |cs|
  {
    if cs != [] {
      hide Tame, Safe, Effected;
      var c := cs[0];
      CommandSettled(env, c, named);
      if !c.Remark? {
        SafeCovered(named, known, c.expr);
      }
      SafeSessionRuns(env, cs[1..], Effected(env, c, named).named, Adding(known, c));
    }
  }

  /** Without errors a session that is not safe is lost. */
  lemma {:induction false} UnsafeSessionIsLost(env: Env, cs: seq<Command>, named: map<string, Object>,
                                               known: map<string, Object>)
    requires Tame(env) && SameRoutines(known, named) && Faultless(env, cs, named) && !SafeSession(known, cs)
    ensures AllEffected(env, cs, named).Lost?
    decreases |cs|
  {
    hide Tame, Safe, Effected;
    var c := cs[0];
    CommandSettled(env, c, named);
    if !c.Remark? {
      SafeSame(known, named, c.expr);
    }
    if Effected(env, c, named).Stored? {
      UnsafeSessionIsLost(env, cs[1..], Effected(env, c, named).named, Adding(known, c));
    }
  }

  /** So a typed session in which no line reports an error is lost exactly when it is not safe. */
  lemma SessionLostExactly(rd: Reader, spell: Spelling, env: Env, cs: seq<Command>, named: map<string, Object>)
    requires AllProper(rd, spell, cs) && Tame(env)
    ensures var s := AfterAll(rd, env, AllTyped(spell, cs), Running([], named));
            && (SafeSession(named, cs) ==> s.Running?)
            && (Faultless(env, cs, named) ==> (s.Lost? <==> !SafeSession(named, cs)))
  {
    hide AfterAll, AllEffected, SafeSession, Faultless, Tame;
    SessionOfCommands(rd, spell, env, cs, named);
    if SafeSession(named, cs) {
      SafeSessionRuns(env, cs, named, named);
    } else if Faultless(env, cs, named) {
      UnsafeSessionIsLost(env, cs, named, named);
    }
  }
}
