/**
  Step 2 of jda_parse (sys/jda/jda.cxx): assignments are carried out on what evaluation left of the tokens.
  The method in JdaContext.dfy is proved against it.
 */
module JdaAssign {
  import opened Wrappers
  import opened JdaTokens
  import opened JdaEval

  /** The names behind both steps. Unassignable: step 2 reported an error by then. Unevaluated: step 1 did.
      Undefined: the code follows a null pointer; or a known name was assigned to, and its old object points at
      a name that was released and that every later search looks at. */
  datatype Parsing = Stored(named: map<string, Object>) | Unassignable(named: map<string, Object>)
                   | Unevaluated(named: map<string, Object>) | Undefined

  /** The value of the assignment at i, and the tokens and the object stack without it: the object on top of
      the stack if there is one, otherwise the next token. */
  function Taken(ts: seq<Token>, i: nat, stack: seq<Object>): (r: Option<(Object, seq<Token>, seq<Object>)>)
    requires i < |ts|
    ensures r.Some? ==> i < |r.value.1| <= |ts|
  {
    if stack != [] then Some((stack[|stack|-1], ts, stack[..|stack|-1]))
    else if i + 1 >= |ts| then None
    else match ToObject(ts[i+1])
      case None => None
      case Some(o) => Some((o, ts[..i+1] + ts[i+2..], []))
  }

  /** The pass from token i on. */
  function AssignFrom(ts: seq<Token>, i: nat, w: World): (r: Parsing)
    ensures !r.Unevaluated?
    requires i <= |ts|
    decreases |ts| - i
  {
    if i == |ts| then Stored(w.named)
    else if ts[i] != Assign then AssignFrom(ts, i + 1, w)
    else if i == 0 || !ts[i-1].Ident? then Unassignable(w.named)
    else match Taken(ts, i, w.stack)
      case None => Unassignable(w.named)
      case Some((o, ts', stack)) =>
        if ts[i-1].name in w.named then Undefined
        else AssignFrom(ts', i + 1, World(stack, w.named[ts[i-1].name := o]))
  }

  /** jda_parse: both steps. */
  function Parse(env: Env, ts: seq<Token>, w: World): Parsing {
    if ts == [] then Unevaluated(w.named)
    else match Eval(env, [], ts, w)
      case Got((values, w')) => AssignFrom(values, 0, w')
      case Refused(names) => Unevaluated(names)
      case Wild => Undefined
  }

  /** What a name is bound to behind the evaluation of an expression: the object on top of the stack, and only
      when the routines left nothing there the value. */
  function Bound(name: string, t: Token, w: World): Parsing {
    if w.stack == [] && ToObject(t).None? then Unassignable(w.named)
    else if name in w.named then Undefined
    else Stored(w.named[name := if w.stack == [] then ToObject(t).value else w.stack[|w.stack|-1]])
  }

  /** The pass on what is left of a line name = expression after its evaluation. */
  lemma AssignOne(name: string, t: Token, w: World)
    requires t != Assign
    ensures AssignFrom([Ident(name), Assign, t], 0, w)
         == if w.stack == [] && ToObject(t).None? then Unassignable(w.named)
            else if name in w.named then Undefined
            else Stored(w.named[name := if w.stack == [] then ToObject(t).value else w.stack[|w.stack|-1]])
  {
    var ts := [Ident(name), Assign, t];
    assert AssignFrom(ts, 0, w) == AssignFrom(ts, 1, w);
    assert ts[..2] + ts[3..] == [Ident(name), Assign];
    var r := Taken(ts, 1, w.stack);
    if r.Some? && name !in w.named {
      NothingToAssign(r.value.1, World(r.value.2, w.named[name := r.value.0]));
    }
  }

  lemma NothingToAssign(ts: seq<Token>, w: World)
    requires |ts| == 2 || (|ts| == 3 && ts[2] != Assign)
    ensures AssignFrom(ts, 2, w) == Stored(w.named)
  {
  }

  /** Without an assignment among the tokens the pass changes no name. */
  lemma {:induction false} NoAssignment(ts: seq<Token>, i: nat, w: World)
    requires i <= |ts| && Assign !in ts[i..]
    ensures AssignFrom(ts, i, w) == Stored(w.named)
    decreases |ts| - i
  {
    if i < |ts| {
      assert ts[i..][0] == ts[i] && ts[i..][1..] == ts[i+1..];
      NoAssignment(ts, i + 1, w);
    }
  }
}
