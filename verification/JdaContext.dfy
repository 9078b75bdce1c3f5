/**
  The context of the JDA shell (sys/jda/context.hxx) and the passes over its tokens (sys/jda/jda.cxx):
  lexing a line, converting to postfix form, evaluating in place and assigning.
 */
module JdaContext {
  import opened Wrappers
  import opened JdaTokens
  import opened Sequences
  import opened JdaRpn
  import opened JdaEval
  import opened JdaAssign
  import opened JdaLexer

  function OperatorsIn(ts: seq<Token>): nat {
    if ts == [] then 0 else (if ts[0].Operator? then 1 else 0) + OperatorsIn(ts[1..])
  }

  /** Going: more tokens. Reported: an error was reported. OutOfStack: a read outside of the stack. */
  datatype Status = Going | Reported | OutOfStack

  lemma PutAt(ts: seq<Token>, j: nat, i: nat, t: Token)
    requires j <= i < |ts|
    ensures (ts[..j] + ts[i..])[j := t] == ts[..j] + [t] + ts[i+1..]
  {}

  lemma ReverseNothing(s: seq<Token>)
    requires s == []
    ensures Reverse(s) == []
  {}

  lemma PopOne(ops: seq<Token>, n: nat)
    requires 0 < n <= |ops|
    ensures Reverse(ops[n-1..]) == Reverse(ops[n..]) + [ops[n-1]]
  {
    assert ops[n-1..][1..] == ops[n..];
  }

  lemma ParenTopAt(ops: seq<Token>, n: nat)
    requires 0 < n <= |ops| && ops[n-1] == LParen && ParenTop(ops) <= n
    ensures ParenTop(ops) == n
  {}

  lemma ValueTurn(env: Env, ts: seq<Token>, i: nat, w: World)
    requires i < |ts| && !ts[i].Ident? && !ts[i].Function? && !ts[i].Operator?
    ensures Eval(env, ts[..i], ts[i..], w) == Eval(env, ts[..i+1], ts[i+1..], w)
    ensures OperatorsIn(ts[i+1..]) == OperatorsIn(ts[i..])
  {
    assert ts[i..][1..] == ts[i+1..];
    assert ts[..i+1] == ts[..i] + [ts[i]];
  }

  lemma IdentTurn(env: Env, ts: seq<Token>, i: nat, w: World)
    requires i < |ts| && ts[i].Ident?
    ensures if i + 1 < |ts| && ts[i+1] == Assign then
              && Eval(env, ts[..i], ts[i..], w) == Eval(env, ts[..i+2], ts[i+2..], w)
              && OperatorsIn(ts[i+2..]) == OperatorsIn(ts[i..])
            else match Lookup(env, ts[i].name, w)
              case Got((t, w')) =>
                var u := ts[i := t];
                && Eval(env, ts[..i], ts[i..], w) == Eval(env, u[..i+1], u[i+1..], w')
                && OperatorsIn(u[i+1..]) == OperatorsIn(ts[i..])
              case Refused(names) => Eval(env, ts[..i], ts[i..], w) == Refused(names)
              case Wild => Eval(env, ts[..i], ts[i..], w) == Wild
  {
    assert ts[i..][1..] == ts[i+1..];
    if i + 1 < |ts| {
      assert ts[i+1..][1..] == ts[i+2..];
      assert ts[i..][..2] == [ts[i], ts[i+1]];
      assert ts[i..][2..] == ts[i+2..];
      assert ts[..i+2] == ts[..i] + [ts[i], ts[i+1]];
    }
    if Lookup(env, ts[i].name, w).Got? {
      var t := Lookup(env, ts[i].name, w).value.0;
      assert ts[i := t][..i+1] == ts[..i] + [t] && ts[i := t][i+1..] == ts[i+1..];
    }
  }

  lemma FunctionTurn(env: Env, ts: seq<Token>, i: nat, w: World)
    requires i < |ts| && ts[i].Function?
    ensures var n := ts[i].argCount;
            if n > i then Eval(env, ts[..i], ts[i..], w) == Refused(w.named)
            else match Invoke(env, ts[i], ts[i-n..i], w)
              case Got((t, w')) =>
                var u := ts[..i-n] + [t] + ts[i+1..];
                && Eval(env, ts[..i], ts[i..], w) == Eval(env, u[..i-n+1], u[i-n+1..], w')
                && OperatorsIn(u[i-n+1..]) == OperatorsIn(ts[i..])
              case Refused(names) => Eval(env, ts[..i], ts[i..], w) == Refused(names)
              case Wild => Eval(env, ts[..i], ts[i..], w) == Wild
  {
    var n := ts[i].argCount;
    assert ts[i..][1..] == ts[i+1..];
    if n <= i {
      assert ts[..i][|ts[..i]| - n..] == ts[i-n..i];
      assert ts[..i][..|ts[..i]| - n] == ts[..i-n];
      if Invoke(env, ts[i], ts[i-n..i], w).Got? {
        var t := Invoke(env, ts[i], ts[i-n..i], w).value.0;
        var u := ts[..i-n] + [t] + ts[i+1..];
        assert u[..i-n+1] == ts[..i-n] + [t] && u[i-n+1..] == ts[i+1..];
      }
    }
  }

  lemma OperatorTurn(env: Env, ts: seq<Token>, i: nat, w: World)
    requires i < |ts| && ts[i].Operator?
    ensures if 2 <= i && ts[i-2].Num? && ts[i-1].Num? then
              var u := ts[..i-2] + [Num(Apply(env.arith, ts[i].op, ts[i-2].value, ts[i-1].value))] + ts[i+1..];
              && Eval(env, ts[..i], ts[i..], w) == Eval(env, u[..i-2], u[i-2..], w)
              && OperatorsIn(u[i-2..]) < OperatorsIn(ts[i..])
            else Eval(env, ts[..i], ts[i..], w) == Refused(w.named)
  {
    assert ts[i..][1..] == ts[i+1..];
    if 2 <= i {
      assert ts[..i][..i-2] == ts[..i-2];
      if ts[i-2].Num? && ts[i-1].Num? {
        var v := Num(Apply(env.arith, ts[i].op, ts[i-2].value, ts[i-1].value));
        var u := ts[..i-2] + [v] + ts[i+1..];
        assert u[..i-2] == ts[..i-2] && u[i-2..] == [v] + ts[i+1..];
        assert ([v] + ts[i+1..])[1..] == ts[i+1..];
      }
    }
  }

  function ObjectsBehind(done: seq<Object>, r: Option<seq<Object>>): Option<seq<Object>> {
    match r case None => None case Some(os) => Some(done + os)
  }

  lemma ObjectsBehindNothing(r: Option<seq<Object>>)
    ensures ObjectsBehind([], r) == r
  {
    if r.Some? {
      assert [] + r.value == r.value;
    }
  }

  lemma ObjectsTurn(done: seq<Object>, rest: seq<Token>)
    requires rest != []
    ensures ObjectsBehind(done, ToObjects(rest))
         == match ToObject(rest[0])
            case None => None
            case Some(o) => ObjectsBehind(done + [o], ToObjects(rest[1..]))
  {
    hide ToObject;
    var o, r := ToObject(rest[0]), ToObjects(rest[1..]);
    if o.Some? && r.Some? {
      assert done + ([o.value] + r.value) == done + [o.value] + r.value;
    }
  }

  /** Unread: an error was reported, and these tokens stay. Crashed: a read in front of the operator stack. */
  datatype Reading = Comment | Postfixed(tokens: seq<Token>) | Unread(left: seq<Token>) | Crashed

  /** Lexing and conversion of a line behind tokens that are there already. */
  function ReadLine(rd: Reader, line: string, ts: seq<Token>): Reading {
    if At(line, 0) == '*' then Comment
    else match Lex(rd, line, 0, ts)
      case LexError(left) => Unread(left)
      case Tokens(read) =>
        match Convert(read)
        case Ok(rpn) => Postfixed(rpn)
        case Error(left) => Unread(left)
        case Crash => Crashed
  }

  class Context {
    var tokens: array<Token>
    var nTokens: nat
    var stacks: seq<Object>
    var objects: map<string, Object>
    var failCount: nat

    constructor ()
      ensures Valid() && fresh(tokens) && Tokens() == [] && Objects() == World([], map[]) && failCount == 0
    {
      tokens := new Token[0];
      nTokens, stacks, objects, failCount := 0, [], map[], 0;
    }

    function Objects(): World
      reads this
    {
      World(stacks, objects)
    }

    ghost predicate Valid()
      reads this
    {
      nTokens <= tokens.Length
    }

    ghost function Tokens(): seq<Token>
      reads this, tokens
      requires Valid()
    {
      tokens[..nTokens]
    }

    /** jda_push_token: the array grows by one. */
    method PushToken(t: Token)
      requires Valid()
      modifies this`tokens, this`nTokens
      ensures Valid() && fresh(tokens) && Tokens() == old(Tokens()) + [t]
    {
      var grown := new Token[nTokens + 1](_ => t);
      forall k | 0 <= k < nTokens {
        grown[k] := tokens[k];
      }
      tokens, nTokens := grown, nTokens + 1;
    }

    /** Pushing a scanned token; an identifier in front of a left parenthesis becomes a function. */
    method PushLexed(t: Token)
      requires Valid()
      modifies this`tokens, this`nTokens, tokens
      ensures Valid() && fresh(tokens) && Tokens() == Push(old(Tokens()), t)
    {
      if t.LParen? && nTokens > 0 && tokens[nTokens - 1].Ident? {
        tokens[nTokens - 1] := Function(tokens[nTokens - 1].name, 0);
      }
      PushToken(t);
    }

    /** jda_lex_line: 1 for a comment, 0 for a line that was read, -1 after an error. */
    method LexLine(rd: Reader, line: string) returns (r: int)
      requires Valid()
      modifies this, tokens
      ensures Valid() && (tokens == old(tokens) || fresh(tokens)) && Objects() == old(Objects())
      ensures At(line, 0) == '*' ==> r == 1 && Tokens() == old(Tokens()) && failCount == old(failCount)
      ensures At(line, 0) != '*' ==>
                match Lex(rd, line, 0, old(Tokens()))
                case Tokens(ts) => r == 0 && Tokens() == ts && failCount == old(failCount)
                case LexError(ts) => r == -1 && Tokens() == ts && failCount == old(failCount) + 1
    {
      if At(line, 0) == '*' {
        return 1;
      }
      var i := 0;
      while At(line, i) != '\0'
        invariant i <= |line| && Valid() && (tokens == old(tokens) || fresh(tokens))
        invariant Objects() == old(Objects()) && failCount == old(failCount)
        invariant Lex(rd, line, 0, old(Tokens())) == Lex(rd, line, i, Tokens())
        decreases |line| - i
      {
        if IsBlank(line[i]) {
          i := SkipSpaces(line, i);
        } else {
          var scanned := Scan(rd, line, i);
          if scanned.None? {
            failCount := failCount + 1;
            return -1;
          }
          var (t, j) := scanned.value;
          PushLexed(t);
          i := j;
        }
      }
      return 0;
    }

    /** Popping the operator stack down to a left parenthesis, which stays; false when none is found. */
    method PopToParen(outputs: seq<Token>, operators: seq<Token>)
      returns (out: seq<Token>, ops: seq<Token>, found: bool)
      requires operators != []
      ensures found <==> ParenTop(operators) > 0
      ensures ops == operators[..ParenTop(operators)]
      ensures out == outputs + Reverse(operators[ParenTop(operators)..])
    {
      hide Reverse, ParenTop;
      ghost var n, k := |operators|, ParenTop(operators);
      out, ops := outputs, operators;
      ReverseNothing(operators[n..]);
      while ops[|ops|-1] != LParen
        invariant 0 < n <= |operators| && k <= n && ops == operators[..n]
        invariant out == outputs + Reverse(operators[n..])
        decreases n
      {
        PopOne(operators, n);
        assert ops[|ops|-1] == operators[n-1] && k != n;
        out := out + [ops[|ops|-1]];
        ops := ops[..|ops|-1];
        n := n - 1;
        if ops == [] {
          return out, ops, false;
        }
      }
      assert operators[n-1] == LParen;
      ParenTopAt(operators, n);
      found := true;
    }

    /** A right parenthesis: the operators behind its left one are output, and the function in front. */
    method ShuntRParen(outputs0: seq<Token>, operators0: seq<Token>, argCounts0: seq<nat>)
      returns (status: Status, outputs: seq<Token>, operators: seq<Token>, argCounts: seq<nat>)
      ensures match Step(Rpn(outputs0, operators0, argCounts0), RParen)
              case Next(st) => status == Going && st == Rpn(outputs, operators, argCounts)
              case Failed(out) => status == Reported && outputs == out
              case Fault => status == OutOfStack
    {
      status, outputs, operators, argCounts := Going, outputs0, operators0, argCounts0;
      if operators == [] {
        status := OutOfStack;
        return;
      }
      var found;
      outputs, operators, found := PopToParen(outputs, operators);
      if !found {
        status := Reported;
        return;
      }
      operators := operators[..|operators|-1];
      assert operators == operators0[..ParenTop(operators0) - 1];
      if operators != [] && operators[|operators|-1].Function? {
        if argCounts == [] {
          status := OutOfStack;
          return;
        }
        var fn := operators[|operators|-1].(argCount := argCounts[|argCounts|-1]);
        argCounts := argCounts[..|argCounts|-1];
        outputs := outputs + [fn];
        operators := operators[..|operators|-1];
      }
    }

    /** One token of the conversion loop. */
    method ShuntOne(tok: Token, outputs0: seq<Token>, operators0: seq<Token>, argCounts0: seq<nat>)
      returns (status: Status, outputs: seq<Token>, operators: seq<Token>, argCounts: seq<nat>)
      ensures match Step(Rpn(outputs0, operators0, argCounts0), tok)
              case Next(st) => status == Going && st == Rpn(outputs, operators, argCounts)
              case Failed(out) => status == Reported && outputs == out
              case Fault => status == OutOfStack
    {
      status, outputs, operators, argCounts := Going, outputs0, operators0, argCounts0;
      if tok.Num? || tok.Ident? || tok.Assign? || tok.Str? {
        if argCounts != [] && argCounts[|argCounts|-1] == 0 {
          argCounts := argCounts[|argCounts|-1 := 1];
        }
        outputs := outputs + [tok];
      } else if tok.Dot? || tok.Colon? {
        outputs := outputs + [tok];
      } else if tok.Function? {
        if argCounts != [] && argCounts[|argCounts|-1] == 0 {
          argCounts := argCounts[|argCounts|-1 := 1];
        }
        operators := operators + [tok];
      } else if tok.Comma? {
        if operators == [] || argCounts == [] {
          status := Reported;
          return;
        }
        argCounts := argCounts[|argCounts|-1 := argCounts[|argCounts|-1] + 1];
        var found;
        outputs, operators, found := PopToParen(outputs, operators);
        if !found {
          status := Reported;
        }
      } else if tok.LParen? {
        argCounts := argCounts + [0];
        operators := operators + [tok];
      } else if tok.RParen? {
        status, outputs, operators, argCounts := ShuntRParen(outputs, operators, argCounts);
      } else {
        operators := operators + [tok];
      }
    }

    /** The conversion loop over all tokens. */
    method Shunt() returns (status: Status, outputs: seq<Token>, operators: seq<Token>)
      requires Valid()
      ensures match Feed(START, Tokens())
              case Next(st) => status == Going && outputs == st.outputs && operators == st.operators
              case Failed(out) => status == Reported && outputs == out
              case Fault => status == OutOfStack
    {
      var argCounts: seq<nat>;
      status, outputs, operators, argCounts := Going, [], [], [];
      ghost var input := Tokens();
      assert input[0..] == input;
      var i := 0;
      while i < nTokens
        invariant i <= nTokens && status == Going
        invariant Feed(START, input) == Feed(Rpn(outputs, operators, argCounts), input[i..])
      {
        assert input[i..][0] == tokens[i] && input[i..][1..] == input[i+1..];
        status, outputs, operators, argCounts := ShuntOne(tokens[i], outputs, operators, argCounts);
        if status != Going {
          return;
        }
        i := i + 1;
      }
    }

    /** Emptying the operator stack at the end of the input. */
    method PopRest(outputs: seq<Token>, operators: seq<Token>) returns (out: seq<Token>, clean: bool)
      ensures clean <==> ParenTop(operators) == 0
      ensures out == outputs + Reverse(operators[ParenTop(operators)..])
    {
      out, clean := outputs, true;
      if operators != [] {
        var rest, found;
        out, rest, found := PopToParen(outputs, operators);
        clean := !found;
      } else {
        assert Reverse(operators[0..]) == [];
      }
    }

    /** The outputs become the tokens of the context; none at all is an error of its own. */
    method TakeOutputs(outputs: seq<Token>) returns (r: int)
      modifies this
      ensures Valid() && fresh(tokens) && Tokens() == outputs && Objects() == old(Objects())
      ensures r == if outputs == [] then -1 else 0
      ensures failCount == old(failCount) + if outputs == [] then 1 else 0
    {
      tokens := new Token[|outputs|](i requires 0 <= i < |outputs| => outputs[i]);
      nTokens := |outputs|;
      r := 0;
      if outputs == [] {
        failCount := failCount + 1;
        r := -1;
      }
    }

    /** jda_lexer_to_rpn: 0 when the tokens were replaced by their postfix form, -1 after an error, None
        when the code would read in front of an empty operator stack. */
    method LexerToRpn() returns (r: Option<int>)
      requires Valid()
      modifies this
      ensures Valid() && (tokens == old(tokens) || fresh(tokens)) && Objects() == old(Objects())
      ensures match Convert(old(Tokens()))
              case Ok(ts) => r == Some(0) && fresh(tokens) && Tokens() == ts && failCount == 0
              case Error(out) => r == Some(-1) && fresh(tokens) && Tokens() == out && failCount > 0
              case Crash => r == None
    {
      if nTokens == 0 {
        failCount := failCount + 2;
        var _ := TakeOutputs([]);
        return Some(-1);
      }
      var status, outputs, operators := Shunt();
      if status == OutOfStack {
        return None;
      }
      var clean := false;
      if status == Going {
        outputs, clean := PopRest(outputs, operators);
      }
      if !clean {
        failCount := failCount + 2;
        var _ := TakeOutputs(outputs);
        return Some(-1);
      }
      failCount := 0;
      var q := TakeOutputs(outputs);
      return Some(q);
    }

    /** memmove of the tokens from i on over the n tokens in front of them. */
    method CloseGap(i: nat, n: nat)
      requires Valid() && n <= i <= nTokens
      modifies this`nTokens, tokens
      ensures Valid() && Tokens() == old(Tokens())[..i - n] + old(Tokens())[i..]
    {
      forall k | i - n <= k < nTokens - n {
        tokens[k] := tokens[k + n];
      }
      nTokens := nTokens - n;
    }

    /** A binary operator at i: it and its operands become the result, which stands at the returned
        position and is looked at again. */
    method EvalOperator(env: Env, i: nat) returns (next: Option<nat>)
      requires Valid() && i < nTokens && tokens[i].Operator?
      modifies this`nTokens, this`failCount, tokens
      ensures Valid()
      ensures var ts := old(Tokens());
              next.Some? <==> 2 <= i && ts[i-2].Num? && ts[i-1].Num?
      ensures next.Some? ==>
                var ts := old(Tokens());
                && next.value == i - 2 && failCount == old(failCount)
                && Tokens() == ts[..i-2] + [Num(Apply(env.arith, ts[i].op, ts[i-2].value, ts[i-1].value))] + ts[i+1..]
      ensures next.None? ==> failCount > old(failCount)
    {
      if i < 2 || !tokens[i-2].Num? || !tokens[i-1].Num? {
        failCount := failCount + 2;
        return None;
      }
      var v := Apply(env.arith, tokens[i].op, tokens[i-2].value, tokens[i-1].value);
      CloseGap(i, 2);
      tokens[i-2] := Num(v);
      return Some(i - 2);
    }

    /** The arguments of a call as objects on the object stack. */
    method PushArguments(from: nat, to: nat) returns (ok: bool)
      requires Valid() && from <= to <= nTokens
      modifies this`stacks
      ensures ok <==> ToObjects(Tokens()[from..to]).Some?
      ensures ok ==> stacks == old(stacks) + ToObjects(Tokens()[from..to]).value
    {
      var j := from;
      ghost var args := Tokens()[from..to];
      ghost var done: seq<Object> := [];
      assert args[0..] == args;
      ObjectsBehindNothing(ToObjects(args));
      while j < to
        invariant from <= j <= to && stacks == old(stacks) + done
        invariant ToObjects(args) == ObjectsBehind(done, ToObjects(args[j - from..]))
      {
        ObjectsTurn(done, args[j - from..]);
        assert args[j - from..][0] == tokens[j] && args[j - from..][1..] == args[j + 1 - from..];
        var o := ToObject(tokens[j]);
        if o.None? {
          return false;
        }
        stacks := stacks + [o.value];
        done := done + [o.value];
        j := j + 1;
      }
      assert args[j - from..] == [];
      return true;
    }

    /** The result on top of the object stack as the token that takes the place of the call. */
    method TakeResult(fn: Token) returns (r: Attempt<Token>)
      requires fn.Function?
      modifies this`stacks
      ensures match Returned(fn, old(Objects()))
              case Got((t, w)) => r == Got(t) && Objects() == w
              case Refused(names) => r == Refused(names) && objects == names
              case Wild => r == Wild
    {
      if stacks == [] {
        return Got(fn);
      }
      r := ToToken(stacks[|stacks|-1], objects);
      stacks := stacks[..|stacks|-1];
    }

    /** Running what the name of the function stands for on the arguments. */
    method CallRoutine(env: Env, fn: Token, from: nat, to: nat) returns (r: Attempt<Token>)
      requires Valid() && fn.Function? && from <= to <= nTokens
      modifies this`stacks, this`objects
      ensures match Invoke(env, fn, Tokens()[from..to], old(Objects()))
              case Got((t, w)) => r == Got(t) && Objects() == w
              case Refused(names) => r == Refused(names) && objects == names
              case Wild => r == Wild
    {
      if fn.name !in objects {
        return Refused(objects);
      }
      var called := objects[fn.name];
      var ok := PushArguments(from, to);
      if !ok {
        return Refused(objects);
      }
      if !called.RoutineObject? {
        return Wild;
      }
      var (left, n) := env.routines(called.id)(Objects());
      stacks, objects := left.stack, left.named;
      if n < 0 || n > 1 {
        return Refused(objects);
      }
      r := TakeResult(fn);
    }

    /** A function at i: it and its arguments become what the routine left on top of the object stack. */
    method EvalFunction(env: Env, i: nat) returns (next: Attempt<nat>)
      requires Valid() && i < nTokens && tokens[i].Function?
      modifies this`nTokens, this`failCount, this`stacks, this`objects, tokens
      ensures Valid()
      ensures var ts := old(Tokens());
              var n := ts[i].argCount;
              match if n <= i then Invoke(env, ts[i], ts[i-n..i], old(Objects())) else Refused(old(objects))
              case Got((t, w)) =>
                && next == Got(i - n + 1) && failCount == old(failCount) && Objects() == w
                && Tokens() == ts[..i-n] + [t] + ts[i+1..]
              case Refused(names) => next == Refused(names) && objects == names && failCount > old(failCount)
              case Wild => next == Wild
    {
      hide Invoke;
      var fn := tokens[i];
      if fn.argCount > i {
        failCount := failCount + 2;
        return Refused(objects);
      }
      var j := i - fn.argCount;
      var t := CallRoutine(env, fn, j, i);
      if t.Refused? {
        failCount := failCount + 2;
        return Refused(objects);
      }
      if t.Wild? {
        return Wild;
      }
      ghost var ts := Tokens();
      CloseGap(i, fn.argCount);
      tokens[j] := t.value;
      PutAt(ts, j, i, t.value);
      return Got(j + 1);
    }

    /** A name at i: in front of an assignment it stays, otherwise its object takes its place. A routine is
        run before its text is copied, and the copy fails unless it changed what its name stands for. */
    method EvalIdent(env: Env, i: nat) returns (next: Attempt<nat>)
      requires Valid() && i < nTokens && tokens[i].Ident?
      modifies this`failCount, this`stacks, this`objects, tokens
      ensures Valid()
      ensures var (ts, w) := (old(Tokens()), old(Objects()));
              if i + 1 < |ts| && ts[i+1] == Assign then
                next == Got(i + 2) && Tokens() == ts && failCount == old(failCount) && Objects() == w
              else
                && Objects() == (if ts[i].name in w.named then RunPlainly(env, w.named[ts[i].name], w) else w)
                && match Lookup(env, ts[i].name, w)
                   case Got((t, w')) =>
                     next == Got(i + 1) && failCount == old(failCount) && Tokens() == ts[i := t] && Objects() == w'
                   case Refused(names) => next == Refused(names) && objects == names && failCount > old(failCount)
                   case Wild => next == Wild
    {
      if i + 1 < nTokens && tokens[i+1] == Assign {
        return Got(i + 2);
      }
      if tokens[i].name !in objects {
        failCount := failCount + 2;
        return Refused(objects);
      }
      var found := objects[tokens[i].name];
      if found.RoutineObject? {
        var (left, _) := env.routines(found.id)(Objects());
        stacks, objects := left.stack, left.named;
        if tokens[i].name in objects {
          found := objects[tokens[i].name];
        }
      }
      var t := ToToken(found, objects);
      match t {
        case Got(token) =>
          tokens[i] := token;
          return Got(i + 1);
        case Refused(_) =>
          failCount := failCount + 2;
          return Refused(objects);
        case Wild =>
          return Wild;
      }
    }

    /** Step 1 of jda_parse: the tokens are evaluated in place. The tokens in front of i are the stack
        of the machine, those from i on are its input. */
    method Evaluate(env: Env) returns (r: Attempt<()>)
      requires Valid()
      modifies this`nTokens, this`failCount, this`stacks, this`objects, tokens
      ensures Valid()
      ensures match Eval(env, [], old(Tokens()), old(Objects()))
              case Got((ts, w)) => r == Got(()) && Tokens() == ts && Objects() == w && failCount == old(failCount)
              case Refused(names) => r == Refused(names) && objects == names && failCount > old(failCount)
              case Wild => r == Wild
    {
      hide Eval;
      ghost var goal := Eval(env, [], Tokens(), Objects());
      var i: nat := 0;
      assert Tokens()[..0] == [] && Tokens()[0..] == Tokens();
      while i < nTokens
        invariant i <= nTokens && Valid() && failCount == old(failCount)
        invariant Eval(env, Tokens()[..i], Tokens()[i..], Objects()) == goal
        decreases nTokens - i + OperatorsIn(Tokens()[i..])
      {
        var next := EvalAt(env, i);
        match next {
          case Got(j) => i := j;
          case Refused(_) => return Refused(objects);
          case Wild => return Wild;
        }
      }
      assert Tokens()[..i] == Tokens() && Tokens()[i..] == [];
      EvalNothing(env, Tokens(), Objects());
      return Got(());
    }

    /** One turn of the evaluation loop. */
    method EvalAt(env: Env, i: nat) returns (next: Attempt<nat>)
      requires Valid() && i < nTokens
      modifies this`nTokens, this`failCount, this`stacks, this`objects, tokens
      ensures Valid()
      ensures var was := Eval(env, old(Tokens())[..i], old(Tokens())[i..], old(Objects()));
              match next
              case Got(j) =>
                && j <= nTokens && failCount == old(failCount)
                && Eval(env, Tokens()[..j], Tokens()[j..], Objects()) == was
                && nTokens - j + OperatorsIn(Tokens()[j..]) < old(nTokens) - i + OperatorsIn(old(Tokens())[i..])
              case Refused(names) => was == Refused(names) && objects == names && failCount > old(failCount)
              case Wild => was == Wild
    {
      hide Eval, Invoke, Lookup;
      ghost var ts, w := Tokens(), Objects();
      assert ts[i..][0] == ts[i] && ts[i..][1..] == ts[i+1..];
      if tokens[i].Ident? {
        IdentTurn(env, ts, i, w);
        next := EvalIdent(env, i);
      } else if tokens[i].Function? {
        FunctionTurn(env, ts, i, w);
        next := EvalFunction(env, i);
      } else if tokens[i].Operator? {
        OperatorTurn(env, ts, i, w);
        var j := EvalOperator(env, i);
        next := if j.None? then Refused(objects) else Got(j.value);
      } else {
        ValueTurn(env, ts, i, w);
        next := Got(i + 1);
      }
    }

    /** An assignment at i, in step 2 of jda_parse: the value, from the object stack or from the next token, which
        then goes, is added to the named objects. */
    method AssignAt(i: nat) returns (r: Attempt<()>)
      requires Valid() && i < nTokens && tokens[i] == Assign
      modifies this`nTokens, this`failCount, this`stacks, this`objects, tokens
      ensures Valid()
      ensures var was := AssignFrom(old(Tokens()), i, old(Objects()));
              match r
              case Got(_) =>
                && i < nTokens <= old(nTokens) && failCount == old(failCount)
                && AssignFrom(Tokens(), i + 1, Objects()) == was
              case Refused(_) => was == Unassignable(objects) && failCount > old(failCount)
              case Wild => was == Undefined
    {
      ghost var ts, w := Tokens(), Objects();
      if i == 0 || !tokens[i-1].Ident? {
        failCount := failCount + 2;
        return Refused(objects);
      }
      var name := tokens[i-1].name;
      var value;
      if stacks != [] {
        value := stacks[|stacks|-1];
        stacks := stacks[..|stacks|-1];
        assert Tokens() == ts;
      } else {
        if i + 1 >= nTokens || ToObject(tokens[i+1]).None? {
          failCount := failCount + 2;
          return Refused(objects);
        }
        value := ToObject(tokens[i+1]).value;
        CloseGap(i + 2, 1);
        assert stacks == [] && i + 2 - 1 == i + 1;
      }
      assert Taken(ts, i, w.stack) == Some((value, Tokens(), stacks));
      if name in objects {
        return Wild;
      }
      objects := objects[name := value];
      return Got(());
    }

    /** Step 2 of jda_parse: the assignments from the first token on. */
    method Assignments() returns (r: Attempt<()>)
      requires Valid()
      modifies this`nTokens, this`failCount, this`stacks, this`objects, tokens
      ensures Valid()
      ensures match AssignFrom(old(Tokens()), 0, old(Objects()))
              case Stored(named) => r == Got(()) && objects == named && failCount == old(failCount)
              case Unassignable(named) => r.Refused? && objects == named && failCount > old(failCount)
              case Undefined => r == Wild
    {
      hide AssignFrom;
      ghost var goal := AssignFrom(Tokens(), 0, Objects());
      var i: nat := 0;
      while i < nTokens
        invariant i <= nTokens && Valid() && failCount == old(failCount)
        invariant AssignFrom(Tokens(), i, Objects()) == goal
        decreases nTokens - i
      {
        AssignTurn(Tokens(), i, Objects());
        if tokens[i] == Assign {
          r := AssignAt(i);
          if !r.Got? {
            return;
          }
        }
        i := i + 1;
      }
      AssignTurn(Tokens(), i, Objects());
      return Got(());
    }

    /** jda_parse: evaluation and assignments; then the tokens and the object stack are thrown away. The result
        is 0 after an error, too; None when the code follows a null pointer or leaves a released name behind. */
    method ParseTokens(env: Env) returns (r: Option<int>)
      requires Valid()
      modifies this, tokens
      ensures Valid() && (tokens == old(tokens) || fresh(tokens))
      ensures var p := Parse(env, old(Tokens()), old(Objects()));
              && (r == if p.Undefined? then None else Some(0))
              && (p.Undefined? || (Tokens() == [] && Objects() == World([], p.named)))
              && if p.Stored? then failCount == 0 else p.Undefined? || failCount > old(failCount)
    {
      hide Eval, AssignFrom;
      var value;
      if nTokens == 0 {
        failCount := failCount + 2;
        value := Refused(objects);
      } else {
        value := Evaluate(env);
        if value.Got? {
          value := Assignments();
        }
      }
      if value.Wild? {
        return None;
      }
      if value.Got? {
        failCount := 0;
      }
      stacks := [];
      tokens, nTokens := new Token[0], 0;
      return Some(0);
    }

    /** A line of a script: 1 for a comment, -1 when it could not be read and some of its tokens stay in front of
        the next line, otherwise what jda_parse returns; None when the code would read in front of an empty
        operator stack, through a null pointer or later on at a released name. */
    method RunLine(rd: Reader, env: Env, line: string) returns (r: Option<int>)
      requires Valid()
      modifies this, tokens
      ensures Valid() && (tokens == old(tokens) || fresh(tokens))
      ensures match ReadLine(rd, line, old(Tokens()))
              case Comment => r == Some(1) && Tokens() == old(Tokens()) && Objects() == old(Objects())
              case Unread(left) =>
                r == Some(-1) && Tokens() == left && Objects() == old(Objects()) && failCount > 0
              case Crashed => r == None
              case Postfixed(rpn) =>
                match Parse(env, rpn, old(Objects()))
                case Stored(named) =>
                  r == Some(0) && Tokens() == [] && Objects() == World([], named) && failCount == 0
                case Unassignable(named) =>
                  r == Some(0) && Tokens() == [] && Objects() == World([], named) && failCount > 0
                case Unevaluated(named) =>
                  r == Some(0) && Tokens() == [] && Objects() == World([], named) && failCount > 0
                case Undefined => r == None
    {
      hide Parse, Convert, Lex;
      var lexed := LexLine(rd, line);
      if lexed != 0 {
        return Some(lexed);
      }
      var converted := LexerToRpn();
      if converted != Some(0) {
        return converted;
      }
      r := ParseTokens(env);
    }
  }

  lemma AssignTurn(ts: seq<Token>, i: nat, w: World)
    requires i <= |ts|
    ensures i == |ts| ==> AssignFrom(ts, i, w) == Stored(w.named)
    ensures i < |ts| && ts[i] != Assign ==> AssignFrom(ts, i, w) == AssignFrom(ts, i + 1, w)
  {
  }

  lemma EvalNothing(env: Env, stack: seq<Token>, w: World)
    ensures Eval(env, stack, [], w) == Got((stack, w))
  {
  }
}
