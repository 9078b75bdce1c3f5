/**
  jda_lexer_to_rpn (sys/jda/jda.cxx) as a function on token lists: a shunting-yard conversion in which
  operators wait on their stack until a right parenthesis, a comma or the end of the input. The
  method in JdaContext.dfy is proved against it.
 */
module JdaRpn {
  import opened JdaTokens
  import opened Sequences

  datatype Rpn = Rpn(outputs: seq<Token>, operators: seq<Token>, argCounts: seq<nat>)

  /** Failed: an error is reported, the outputs so far stay. Fault: the code reads in front of an
      empty operator stack. */
  datatype Progress = Next(st: Rpn) | Failed(outputs: seq<Token>) | Fault

  const START := Rpn([], [], [])

  /** Tokens that go straight to the output. */
  predicate IsOutput(t: Token) {
    t.Num? || t.Ident? || t.Assign? || t.Str? || t.Dot? || t.Colon?
  }

  /** Output tokens and functions that show that an argument list is not empty. */
  predicate IsArgument(t: Token) {
    t.Num? || t.Ident? || t.Assign? || t.Str? || t.Function?
  }

  function Touch(c: seq<nat>): (r: seq<nat>)
    ensures |r| == |c|
  {
    if c != [] && c[|c|-1] == 0 then c[|c|-1 := 1] else c
  }

  function Bump(c: seq<nat>): (r: seq<nat>)
    requires c != []
    ensures |r| == |c|
  {
    c[|c|-1 := c[|c|-1] + 1]
  }

  /** One past the topmost left parenthesis of the operator stack; 0 when there is none. */
  function ParenTop(ops: seq<Token>): (k: nat)
    ensures k <= |ops|
    ensures k > 0 ==> ops[k-1] == LParen
    ensures forall j :: k <= j < |ops| ==> ops[j] != LParen
  {
    if ops == [] then 0
    else if Last(ops) == LParen then |ops|
    else ParenTop(DropLast(ops))
  }

  function Step(st: Rpn, t: Token): Progress {
    if IsOutput(t) then
      Next(st.(outputs := st.outputs + [t], argCounts := if IsArgument(t) then Touch(st.argCounts) else st.argCounts))
    else if t.Function? then
      Next(st.(operators := st.operators + [t], argCounts := Touch(st.argCounts)))
    else if t.Comma? then
      if st.operators == [] || st.argCounts == [] then Failed(st.outputs)
      else
        var k := ParenTop(st.operators);
        var out := st.outputs + Reverse(st.operators[k..]);
        if k == 0 then Failed(out) else Next(Rpn(out, st.operators[..k], Bump(st.argCounts)))
    else if t.LParen? then
      Next(st.(operators := st.operators + [t], argCounts := st.argCounts + [0]))
    else if t.RParen? then
      if st.operators == [] then Fault
      else
        var k := ParenTop(st.operators);
        var out := st.outputs + Reverse(st.operators[k..]);
        if k == 0 then Failed(out) else Close(out, st.operators[..k-1], st.argCounts)
    else
      Next(st.(operators := st.operators + [t]))
  }

  /** Behind the left parenthesis: a function below it takes the top argument count along. */
  function Close(out: seq<Token>, ops: seq<Token>, counts: seq<nat>): Progress {
    if ops != [] && Last(ops).Function? then
      if counts == [] then Fault
      else Next(Rpn(out + [Last(ops).(argCount := Last(counts))], DropLast(ops), DropLast(counts)))
    else Next(Rpn(out, ops, counts))
  }

  function Feed(st: Rpn, ts: seq<Token>): Progress
    decreases |ts|
  {
    if ts == [] then Next(st)
    else match Step(st, ts[0])
      case Next(st') => Feed(st', ts[1..])
      case other => other
  }

  /** Ok: the tokens in postfix order. Error: reported, with whatever was output. */
  datatype Conversion = Ok(tokens: seq<Token>) | Error(partial: seq<Token>) | Crash

  /** At the end of the input the operator stack is emptied down to a lone left parenthesis. */
  function Finish(st: Rpn): Conversion {
    var k := ParenTop(st.operators);
    var out := st.outputs + Reverse(st.operators[k..]);
    if k > 0 || out == [] then Error(out) else Ok(out)
  }

  function Convert(ts: seq<Token>): Conversion {
    if ts == [] then Error([])
    else match Feed(START, ts)
      case Next(st) => Finish(st)
      case Failed(out) => Error(out)
      case Fault => Crash
  }

  lemma {:induction false} FeedConcat(st: Rpn, a: seq<Token>, b: seq<Token>)
    ensures Feed(st, a + b) == match Feed(st, a) case Next(st') => Feed(st', b) case other => other
    decreases |a|
  {
    if a == [] {
      assert a + b == b;
    } else {
      assert (a + b)[1..] == a[1..] + b;
      if Step(st, a[0]).Next? {
        FeedConcat(Step(st, a[0]).st, a[1..], b);
      }
    }
  }

  // ----- The output is a permutation of the input

  predicate Kept(t: Token) {
    !t.LParen? && !t.RParen? && !t.Comma?
  }

  function Erase(t: Token): Token {
    if t.Function? then t.(argCount := 0) else t
  }

  /** The tokens apart from parentheses and commas, argument counts aside. */
  function Content(ts: seq<Token>): multiset<Token> {
    if ts == [] then multiset{}
    else (if Kept(ts[0]) then multiset{Erase(ts[0])} else multiset{}) + Content(ts[1..])
  }

  lemma {:induction false} ContentConcat(a: seq<Token>, b: seq<Token>)
    ensures Content(a + b) == Content(a) + Content(b)
  {
    if a == [] {
      assert a + b == b;
    } else {
      assert (a + b)[1..] == a[1..] + b;
      ContentConcat(a[1..], b);
    }
  }

  lemma {:induction false} ContentReverse(s: seq<Token>)
    ensures Content(Reverse(s)) == Content(s)
  {
    if s != [] {
      ContentReverse(s[1..]);
      ContentConcat(Reverse(s[1..]), [s[0]]);
    }
  }

  ghost predicate AllKept(ts: seq<Token>) {
    forall k :: 0 <= k < |ts| ==> Kept(ts[k])
  }

  lemma {:induction false} ReverseKept(s: seq<Token>)
    requires AllKept(s)
    ensures AllKept(Reverse(s))
  {
    if s != [] {
      ReverseKept(s[1..]);
    }
  }

  /** Every token read apart from parentheses and commas is on one of the two stacks. */
  function Held(st: Rpn): multiset<Token> {
    Content(st.outputs) + Content(st.operators)
  }

  /** Only left parentheses wait among the operators besides kept tokens, none is in the output, and
      there is at least one argument count for each waiting left parenthesis. */
  ghost predicate Sound(st: Rpn) {
    && AllKept(st.outputs)
    && (forall k :: 0 <= k < |st.operators| ==> Kept(st.operators[k]) || st.operators[k] == LParen)
    && Parens(st.operators) <= |st.argCounts|
  }

  function Parens(ops: seq<Token>): nat {
    if ops == [] then 0 else (if ops[0] == LParen then 1 else 0) + Parens(ops[1..])
  }

  lemma {:induction false} ParensConcat(a: seq<Token>, b: seq<Token>)
    ensures Parens(a + b) == Parens(a) + Parens(b)
  {
    if a == [] {
      assert a + b == b;
    } else {
      assert (a + b)[1..] == a[1..] + b;
      ParensConcat(a[1..], b);
    }
  }

  lemma {:induction false} NoParens(s: seq<Token>)
    ensures Parens(s) == 0 <==> forall j :: 0 <= j < |s| ==> s[j] != LParen
  {
    if s != [] {
      NoParens(s[1..]);
      assert forall j :: 0 <= j < |s[1..]| ==> s[1..][j] == s[j+1];
      if s[0] != LParen && Parens(s) == 0 {
        forall j | 0 <= j < |s|
          ensures s[j] != LParen
        {
          if j > 0 { assert s[1..][j-1] == s[j]; }
        }
      }
    }
  }

  lemma Appended(s: seq<Token>, t: Token)
    ensures Content(s + [t]) == Content(s) + Content([t])
    ensures Parens(s + [t]) == Parens(s) + (if t == LParen then 1 else 0)
  {
    ContentConcat(s, [t]);
    ParensConcat(s, [t]);
  }

  lemma ContentOfOne(t: Token)
    ensures Content([t]) == if Kept(t) then multiset{Erase(t)} else multiset{}
  {}

  lemma PoppedParts(ops: seq<Token>)
    requires forall k :: 0 <= k < |ops| ==> Kept(ops[k]) || ops[k] == LParen
    ensures var k := ParenTop(ops);
            && Content(ops) == Content(ops[..k]) + Content(Reverse(ops[k..]))
            && Parens(ops) == Parens(ops[..k])
            && AllKept(Reverse(ops[k..]))
  {
    hide Content, Parens, Reverse, Kept, ParenTop;
    var k := ParenTop(ops);
    assert ops == ops[..k] + ops[k..];
    ContentConcat(ops[..k], ops[k..]);
    ContentReverse(ops[k..]);
    ParensConcat(ops[..k], ops[k..]);
    NoParens(ops[k..]);
    ReverseKept(ops[k..]);
  }

  lemma TopParen(ops: seq<Token>)
    ensures var k := ParenTop(ops);
            && (k > 0 ==> Content(ops[..k]) == Content(ops[..k-1]) && Parens(ops[..k]) == Parens(ops[..k-1]) + 1)
            && (k == 0 ==> Parens(ops[..k]) == 0)
  {
    var k := ParenTop(ops);
    if k > 0 {
      assert ops[..k] == ops[..k-1] + [LParen];
      Appended(ops[..k-1], LParen);
      ContentOfOne(LParen);
    }
  }

  lemma PopSound(st: Rpn)
    requires Sound(st)
    ensures var k := ParenTop(st.operators);
            var out := st.outputs + Reverse(st.operators[k..]);
            && AllKept(out)
            && Content(out) + Content(st.operators[..k]) == Held(st)
            && (k == 0 <==> Parens(st.operators) == 0)
            && Parens(st.operators[..k]) == Parens(st.operators)
            && (k > 0 ==> Content(st.operators[..k-1]) == Content(st.operators[..k])
                          && Parens(st.operators[..k-1]) == Parens(st.operators) - 1)
  {
    hide Content, Parens, ParenTop, Reverse;
    PoppedParts(st.operators);
    TopParen(st.operators);
    ContentConcat(st.outputs, Reverse(st.operators[ParenTop(st.operators)..]));
  }

  lemma CloseSound(out: seq<Token>, ops: seq<Token>, counts: seq<nat>)
    requires Sound(Rpn(out, ops, counts)) && Parens(ops) < |counts|
    ensures var r := Close(out, ops, counts);
            r.Next? && Sound(r.st) && Held(r.st) == Content(out) + Content(ops) && Parens(r.st.operators) == Parens(ops)
  {
    hide Content, Parens;
    if ops != [] && Last(ops).Function? {
      var f := Last(ops).(argCount := Last(counts));
      assert ops == DropLast(ops) + [Last(ops)];
      Appended(out, f);
      Appended(DropLast(ops), Last(ops));
      ContentOfOne(f);
      ContentOfOne(Last(ops));
    }
  }

  /** One step keeps the invariant and loses no token; it goes through unless a comma or a right
      parenthesis comes outside of all parentheses. */
  lemma StepSound(st: Rpn, t: Token)
    requires Sound(st)
    ensures Step(st, t).Next? <==> !((t.Comma? || t.RParen?) && Parens(st.operators) == 0)
    ensures Step(st, t).Next? ==>
              var n := Step(st, t).st;
              && Sound(n) && Held(n) == Held(st) + Content([t])
              && Parens(n.operators) == Parens(st.operators) + (if t.LParen? then 1 else if t.RParen? then -1 else 0)
  {
    if t.Comma? {
      CommaSound(st);
    } else if t.RParen? {
      RParenSound(st);
    } else {
      PushSound(st, t);
    }
  }

  lemma CommaSound(st: Rpn)
    requires Sound(st)
    ensures Step(st, Comma).Next? <==> Parens(st.operators) > 0
    ensures Step(st, Comma).Next? ==>
              var n := Step(st, Comma).st;
              Sound(n) && Held(n) == Held(st) + Content([Comma]) && Parens(n.operators) == Parens(st.operators)
  {
    hide Content, ParenTop, Reverse;
    PopSound(st);
    ContentOfOne(Comma);
  }

  lemma RParenSound(st: Rpn)
    requires Sound(st)
    ensures Step(st, RParen).Next? <==> Parens(st.operators) > 0
    ensures Step(st, RParen).Next? ==>
              var n := Step(st, RParen).st;
              Sound(n) && Held(n) == Held(st) + Content([RParen]) && Parens(n.operators) == Parens(st.operators) - 1
  {
    hide Content, ParenTop, Reverse, Close;
    PopSound(st);
    ContentOfOne(RParen);
    if Parens(st.operators) > 0 {
      var k := ParenTop(st.operators);
      CloseSound(st.outputs + Reverse(st.operators[k..]), st.operators[..k-1], st.argCounts);
    }
  }

  lemma PushSound(st: Rpn, t: Token)
    requires Sound(st) && !t.Comma? && !t.RParen?
    ensures Step(st, t).Next?
    ensures var n := Step(st, t).st;
            && Sound(n) && Held(n) == Held(st) + Content([t])
            && Parens(n.operators) == Parens(st.operators) + (if t.LParen? then 1 else 0)
  {
    hide Content, Parens, ParenTop;
    Appended(st.outputs, t);
    Appended(st.operators, t);
    ContentOfOne(t);
  }

  lemma {:induction false} FeedSound(st: Rpn, ts: seq<Token>)
    requires Sound(st)
    ensures Feed(st, ts).Next? ==> Sound(Feed(st, ts).st) && Held(Feed(st, ts).st) == Held(st) + Content(ts)
    decreases |ts|
  {
    if ts != [] {
      StepSound(st, ts[0]);
      ContentConcat([ts[0]], ts[1..]);
      assert ts == [ts[0]] + ts[1..];
      if Step(st, ts[0]).Next? {
        FeedSound(Step(st, ts[0]).st, ts[1..]);
      }
    }
  }

  /** Whenever the conversion succeeds, on any token list, its output is a permutation of the input
      without parentheses and commas, argument counts aside, and no parenthesis survives. */
  lemma ConvertPermutes(ts: seq<Token>)
    requires Convert(ts).Ok?
    ensures Content(Convert(ts).tokens) == Content(ts) && AllKept(Convert(ts).tokens)
  {
    FeedSound(START, ts);
    var st := Feed(START, ts).st;
    PopSound(st);
    var k := ParenTop(st.operators);
    assert k == 0 && st.operators[..k] == [];
    assert Content(Convert(ts).tokens) == Held(st);
    assert Held(START) == multiset{};
  }

  // ----- When the conversion succeeds

  /** Parentheses are balanced from depth d on and every comma stands inside parentheses. */
  predicate WellNested(ts: seq<Token>, d: nat)
    decreases |ts|
  {
    if ts == [] then d == 0
    else match ts[0]
      case LParen => WellNested(ts[1..], d + 1)
      case RParen => d > 0 && WellNested(ts[1..], d - 1)
      case Comma => d > 0 && WellNested(ts[1..], d)
      case _ => WellNested(ts[1..], d)
  }

  lemma {:induction false} FeedSucceedsExactly(st: Rpn, ts: seq<Token>)
    requires Sound(st)
    ensures Feed(st, ts).Next? && Parens(Feed(st, ts).st.operators) == 0 <==> WellNested(ts, Parens(st.operators))
    decreases |ts|
  {
    hide Step, Content, ParenTop, Sound;
    if ts != [] {
      StepSound(st, ts[0]);
      if Step(st, ts[0]).Next? {
        FeedSucceedsExactly(Step(st, ts[0]).st, ts[1..]);
      }
    }
  }

  lemma {:induction false} NothingKept(ts: seq<Token>)
    ensures Content(ts) == multiset{} <==> forall k :: 0 <= k < |ts| ==> !Kept(ts[k])
  {
    if ts != [] {
      NothingKept(ts[1..]);
      assert forall k :: 0 <= k < |ts[1..]| ==> ts[1..][k] == ts[k + 1];
      assert Kept(ts[0]) ==> Erase(ts[0]) in Content(ts);
      assert forall k :: 1 <= k < |ts| ==> ts[k] == ts[1..][k - 1];
    }
  }

  lemma ContentEmptyExactly(ts: seq<Token>)
    requires AllKept(ts)
    ensures Content(ts) == multiset{} <==> ts == []
  {
    if ts != [] {
      assert Erase(ts[0]) in Content(ts);
    }
  }

  /** The conversion of any token list succeeds exactly when its parentheses are balanced, every comma
      stands inside parentheses and something other than parentheses and commas is there. */
  lemma ConvertSucceedsExactly(ts: seq<Token>)
    ensures Convert(ts).Ok? <==> WellNested(ts, 0) && Content(ts) != multiset{}
  {
    FeedSucceedsExactly(START, ts);
    if ts != [] && Feed(START, ts).Next? {
      var st := Feed(START, ts).st;
      FeedSound(START, ts);
      PopSound(st);
      var k := ParenTop(st.operators);
      if k == 0 {
        ContentEmptyExactly(st.outputs + Reverse(st.operators[k..]));
      }
    }
  }

  /** Parentheses and commas only, well nested: they leave nothing but argument counts. */
  predicate Blank(ts: seq<Token>) {
    WellNested(ts, 0) && Content(ts) == multiset{}
  }

  lemma FeedBlank(ts: seq<Token>)
    requires Blank(ts)
    ensures Feed(START, ts).Next?
    ensures Feed(START, ts).st.outputs == [] && Feed(START, ts).st.operators == []
  {
    hide Feed, Content, Parens, WellNested;
    StartIsSound();
    FeedSucceedsExactly(START, ts);
    FeedSound(START, ts);
    var st := Feed(START, ts).st;
    NoParens(st.operators);
    ContentEmptyExactly(st.outputs);
    ContentEmptyExactly(st.operators);
  }

  lemma StartIsSound()
    ensures Sound(START) && Held(START) == multiset{} && Parens(START.operators) == 0
  {
  }

  // ----- Lists without parentheses, commas and functions

  predicate Direct(t: Token) {
    t.Num? || t.Ident? || t.Str? || t.Assign? || t.Dot? || t.Colon?
  }

  /** Numbers, names, strings, assignments, points and colons go to the output in order; all others wait. */
  function Straight(ts: seq<Token>): seq<Token> {
    if ts == [] then [] else (if Direct(ts[0]) then [ts[0]] else []) + Straight(ts[1..])
  }

  function Delayed(ts: seq<Token>): seq<Token> {
    if ts == [] then [] else (if Direct(ts[0]) then [] else [ts[0]]) + Delayed(ts[1..])
  }

  ghost predicate Loose(ts: seq<Token>) {
    forall k :: 0 <= k < |ts| ==> Kept(ts[k]) && !ts[k].Function?
  }

  lemma LooseRest(ts: seq<Token>)
    requires Loose(ts) && ts != []
    ensures Kept(ts[0]) && !ts[0].Function? && Loose(ts[1..])
  {
  }

  lemma LooseStep(st: Rpn, t: Token)
    requires Kept(t) && !t.Function? && st.argCounts == []
    ensures Step(st, t) == Next(if Direct(t) then st.(outputs := st.outputs + [t])
                                else st.(operators := st.operators + [t]))
  {
  }

  lemma {:induction false} FeedLoose(st: Rpn, ts: seq<Token>)
    requires Loose(ts) && st.argCounts == []
    ensures Feed(st, ts) == Next(Rpn(st.outputs + Straight(ts), st.operators + Delayed(ts), []))
    decreases |ts|
  {
    hide Step, Direct, Loose;
    if ts != [] {
      LooseRest(ts);
      LooseStep(st, ts[0]);
      FeedLoose(Step(st, ts[0]).st, ts[1..]);
      var out, op := if Direct(ts[0]) then [ts[0]] else [], if Direct(ts[0]) then [] else [ts[0]];
      Onto(st.outputs, out, Straight(ts[1..]));
      Onto(st.operators, op, Delayed(ts[1..]));
      assert st.outputs + [] == st.outputs && st.operators + [] == st.operators;
    }
  }

  lemma Onto(a: seq<Token>, x: seq<Token>, b: seq<Token>)
    ensures a + x + b == a + (x + b)
  {
  }

  /** What waits is output at the end, the last one first. */
  lemma LooseConverts(ts: seq<Token>)
    requires Loose(ts) && ts != []
    ensures Convert(ts) == Ok(Straight(ts) + Reverse(Delayed(ts)))
  {
    hide Feed, Finish, Reverse, Direct, Loose, Straight, Delayed;
    FeedLoose(START, ts);
    assert [] + Straight(ts) == Straight(ts) && [] + Delayed(ts) == Delayed(ts);
    WaitingLoose(ts);
    FinishLoose(Straight(ts), Delayed(ts));
  }

  lemma FinishLoose(out: seq<Token>, ops: seq<Token>)
    requires |out| + |ops| > 0 && forall k :: 0 <= k < |ops| ==> Kept(ops[k])
    ensures Finish(Rpn(out, ops, [])) == Ok(out + Reverse(ops))
  {
    hide Reverse;
    assert ParenTop(ops) == 0 && ops[0..] == ops;
    assert |Reverse(ops)| == |ops|;
  }

  lemma {:induction false} WaitingLoose(ts: seq<Token>)
    requires Loose(ts)
    ensures forall k :: 0 <= k < |Delayed(ts)| ==> Kept(Delayed(ts)[k])
    ensures |Straight(ts)| + |Delayed(ts)| == |ts|
  {
    hide Direct, Loose;
    if ts != [] {
      LooseRest(ts);
      WaitingLoose(ts[1..]);
    }
  }

  /** A point or a colon alone shows no argument list that is not empty; a name does. */
  lemma PointIsNoArgument(f: string, x: string)
    ensures Feed(START, [Function(f, 0), LParen, Dot, RParen]) == Next(Rpn([Dot, Function(f, 0)], [], []))
    ensures Feed(START, [Function(f, 0), LParen, Colon, RParen]) == Next(Rpn([Colon, Function(f, 0)], [], []))
    ensures Feed(START, [Function(f, 0), LParen, Ident(x), RParen]) == Next(Rpn([Ident(x), Function(f, 1)], [], []))
  {
    OneInCall(f, Dot, 0);
    OneInCall(f, Colon, 0);
    OneInCall(f, Ident(x), 1);
  }

  lemma OneInCall(f: string, t: Token, n: nat)
    requires t == Dot || t == Colon || t.Ident?
    requires n == if t.Ident? then 1 else 0
    ensures Feed(START, [Function(f, 0), LParen, t, RParen]) == Next(Rpn([t, Function(f, n)], [], []))
  {
    var ts := [Function(f, 0), LParen, t, RParen];
    assert ts[1..] == [LParen, t, RParen] && ts[1..][1..] == [t, RParen] && [t, RParen][1..] == [RParen];
    assert [RParen][1..] == [];
    var st1 := Rpn([], [Function(f, 0)], []);
    var st2 := Rpn([], [Function(f, 0), LParen], [0]);
    var st3 := Rpn([t], [Function(f, 0), LParen], [n]);
    StepsInCall(f, t, n);
    ClosedCall(f, t, n);
    hide Step, ParenTop, Reverse;
    assert Feed(st3, [RParen]) == Next(Rpn([t, Function(f, n)], [], []));
    assert Feed(st2, [t, RParen]) == Feed(st3, [RParen]);
    assert Feed(st1, [LParen, t, RParen]) == Feed(st2, [t, RParen]);
  }

  lemma StepsInCall(f: string, t: Token, n: nat)
    requires t == Dot || t == Colon || t.Ident?
    requires n == if t.Ident? then 1 else 0
    ensures Step(START, Function(f, 0)) == Next(Rpn([], [Function(f, 0)], []))
    ensures Step(Rpn([], [Function(f, 0)], []), LParen) == Next(Rpn([], [Function(f, 0), LParen], [0]))
    ensures Step(Rpn([], [Function(f, 0), LParen], [0]), t) == Next(Rpn([t], [Function(f, 0), LParen], [n]))
  {
    hide ParenTop, Reverse, Close;
  }

  lemma ClosedCall(f: string, t: Token, n: nat)
    ensures Step(Rpn([t], [Function(f, 0), LParen], [n]), RParen) == Next(Rpn([t, Function(f, n)], [], []))
  {
    var ops := [Function(f, 0), LParen];
    assert ParenTop(ops) == 2 && Reverse(ops[2..]) == [] && ops[..1] == [Function(f, 0)];
    assert [t] + [] == [t];
    ClosedFunction([t], f, n);
  }

  lemma ClosedFunction(out: seq<Token>, f: string, n: nat)
    ensures Close(out, [Function(f, 0)], [n]) == Next(Rpn(out + [Function(f, n)], [], []))
  {
  }

  // ----- When the code reads in front of its stack

  /** Reading ts with d open parentheses and, in front of the first of them, n functions and nothing else
      waiting: a right parenthesis comes while nothing waits at all. Outside of parentheses a comma ends
      the conversion, and an operator waits to the end. */
  predicate Crashes(ts: seq<Token>, d: nat, n: nat)
    decreases |ts|
  {
    if ts == [] then false
    else match ts[0]
      case LParen => Crashes(ts[1..], d + 1, n)
      case RParen => if d == 0 then n == 0 else Crashes(ts[1..], d - 1, if d == 1 && n > 0 then n - 1 else n)
      case Comma => d > 0 && Crashes(ts[1..], d, n)
      case Function(_, _) => Crashes(ts[1..], d, if d == 0 then n + 1 else n)
      case t => (d > 0 || IsOutput(t)) && Crashes(ts[1..], d, n)
  }

  /** d parentheses wait, and in front of the first of them n functions and nothing else. */
  ghost predicate FunctionsWait(ops: seq<Token>, d: nat, n: nat) {
    && Parens(ops) == d && n <= |ops|
    && (forall k :: 0 <= k < n ==> ops[k].Function?)
    && (if d == 0 then n == |ops| else n < |ops| && ops[n] == LParen)
  }

  /** Something that is neither a function nor a parenthesis waits in front of every parenthesis. */
  ghost predicate OperatorWaits(ops: seq<Token>) {
    exists k :: 0 <= k < |ops| && WaitsAt(ops, k)
  }

  ghost predicate WaitsAt(ops: seq<Token>, k: nat)
    requires k < |ops|
  {
    !ops[k].Function? && forall j :: 0 <= j <= k ==> ops[j] != LParen
  }

  lemma ParenTopFrom(ops: seq<Token>, n: nat)
    requires n < |ops| && ops[n] == LParen
    ensures n < ParenTop(ops)
  {
  }

  lemma OperatorKeepsWaiting(st: Rpn, t: Token)
    requires OperatorWaits(st.operators)
    ensures Step(st, t).Next? ==> OperatorWaits(Step(st, t).st.operators)
  {
    var k :| 0 <= k < |st.operators| && WaitsAt(st.operators, k);
    if Step(st, t).Next? {
      assert WaitsAt(Step(st, t).st.operators, k);
    }
  }

  lemma {:induction false} OperatorNeverCrashes(st: Rpn, ts: seq<Token>)
    requires Sound(st) && OperatorWaits(st.operators)
    ensures Feed(st, ts) != Fault
    decreases |ts|
  {
    hide Step, Content, Sound, OperatorWaits;
    if ts != [] {
      StepSound(st, ts[0]);
      StepFaults(st, ts[0]);
      OperatorIsThere(st.operators);
      OperatorKeepsWaiting(st, ts[0]);
      if Step(st, ts[0]).Next? {
        OperatorNeverCrashes(Step(st, ts[0]).st, ts[1..]);
      }
    }
  }

  lemma OperatorIsThere(ops: seq<Token>)
    requires OperatorWaits(ops)
    ensures ops != []
  {
  }

  /** The only step that faults is a right parenthesis while nothing waits. */
  lemma StepFaults(st: Rpn, t: Token)
    requires Sound(st)
    ensures Step(st, t) == Fault <==> t.RParen? && st.operators == []
  {
    StepSound(st, t);
    if t.RParen? && st.operators != [] {
      PopSound(st);
    }
  }

  /** The first open parenthesis is the topmost one exactly when it is the only one. */
  lemma FirstParen(ops: seq<Token>, d: nat, n: nat)
    requires FunctionsWait(ops, d, n) && d > 0
    ensures if d == 1 then ParenTop(ops) == n + 1 else ParenTop(ops) > n + 1
  {
    hide Parens, ParenTop, FunctionsWait;
    FunctionsHoldNoParen(ops, d, n);
    ParenTopFrom(ops, n);
    PoppedAtTop(ops);
    TopParen(ops);
    var k := ParenTop(ops);
    if k > n + 1 {
      assert ops[..k - 1] == ops[..n + 1] + ops[n + 1..k - 1];
      ParensConcat(ops[..n + 1], ops[n + 1..k - 1]);
    }
  }

  lemma FunctionsHoldNoParen(ops: seq<Token>, d: nat, n: nat)
    requires FunctionsWait(ops, d, n) && d > 0
    ensures Parens(ops) == d && n < |ops| && ops[n] == LParen && Parens(ops[..n + 1]) == 1
  {
    NoParens(ops[..n]);
    assert ops[..n + 1] == ops[..n] + [LParen];
    Appended(ops[..n], LParen);
  }

  lemma PoppedAtTop(ops: seq<Token>)
    ensures Parens(ops) == Parens(ops[..ParenTop(ops)])
  {
    var k := ParenTop(ops);
    assert ops == ops[..k] + ops[k..];
    ParensConcat(ops[..k], ops[k..]);
    NoParens(ops[k..]);
  }

  /** The depth and the number of waiting functions behind a step. */
  function Depth(t: Token, d: nat): nat {
    if t.LParen? then d + 1 else if t.RParen? && d > 0 then d - 1 else d
  }

  function Waiting(t: Token, d: nat, n: nat): nat {
    if t.RParen? && d == 1 && n > 0 then n - 1 else if t.Function? && d == 0 then n + 1 else n
  }

  lemma StepWaits(st: Rpn, t: Token, d: nat, n: nat)
    requires Sound(st) && FunctionsWait(st.operators, d, n) && Step(st, t).Next?
    ensures var ops := Step(st, t).st.operators;
            if d == 0 && !t.LParen? && !t.Function? && !IsOutput(t) then OperatorWaits(ops)
            else FunctionsWait(ops, Depth(t, d), Waiting(t, d, n))
  {
    hide Parens, ParenTop, Content, Sound, Reverse, FunctionsWait, OperatorWaits, Step;
    if t.RParen? {
      RParenWaits(st, d, n);
    } else if t.Comma? {
      CommaWaits(st, d, n);
    } else {
      PushOperators(st, t);
      if !IsOutput(t) {
        PushWaits(st.operators, t, d, n);
      }
    }
  }

  lemma PushOperators(st: Rpn, t: Token)
    requires !t.RParen? && !t.Comma?
    ensures Step(st, t).Next?
    ensures Step(st, t).st.operators == if IsOutput(t) then st.operators else st.operators + [t]
  {
  }

  lemma PushWaits(ops: seq<Token>, t: Token, d: nat, n: nat)
    requires FunctionsWait(ops, d, n) && !t.RParen?
    ensures if d == 0 && !t.LParen? && !t.Function? then OperatorWaits(ops + [t])
            else FunctionsWait(ops + [t], Depth(t, d), Waiting(t, d, n))
  {
    hide Parens, Content;
    Appended(ops, t);
    var more := ops + [t];
    assert more[|ops|] == t && forall k :: 0 <= k < |ops| ==> more[k] == ops[k];
    if d == 0 && !t.LParen? && !t.Function? {
      assert WaitsAt(more, n);
    }
  }

  lemma CommaWaits(st: Rpn, d: nat, n: nat)
    requires Sound(st) && FunctionsWait(st.operators, d, n) && Step(st, Comma).Next?
    ensures d > 0 && FunctionsWait(Step(st, Comma).st.operators, d, n)
  {
    hide Parens, ParenTop, Step, Sound, Content;
    StepSound(st, Comma);
    CommaOperators(st);
    FirstParen(st.operators, d, n);
  }

  lemma CommaOperators(st: Rpn)
    requires Step(st, Comma).Next?
    ensures Step(st, Comma).st.operators == st.operators[..ParenTop(st.operators)]
  {
    hide ParenTop, Reverse;
  }

  lemma RParenWaits(st: Rpn, d: nat, n: nat)
    requires Sound(st) && FunctionsWait(st.operators, d, n) && Step(st, RParen).Next?
    ensures d > 0 && FunctionsWait(Step(st, RParen).st.operators, d - 1, Waiting(RParen, d, n))
  {
    hide Parens, ParenTop, Step, Sound, Content;
    StepSound(st, RParen);
    RParenOperators(st);
    FirstParen(st.operators, d, n);
  }

  /** A right parenthesis that goes through takes the topmost left one and a function in front of it. */
  lemma RParenOperators(st: Rpn)
    requires Step(st, RParen).Next?
    ensures var k := ParenTop(st.operators);
            var ops := Step(st, RParen).st.operators;
            0 < k <= |st.operators|
            && ops == if k > 1 && st.operators[k - 2].Function? then st.operators[..k - 2] else st.operators[..k - 1]
  {
    hide ParenTop, Reverse;
    var k := ParenTop(st.operators);
    if k > 1 {
      assert DropLast(st.operators[..k - 1]) == st.operators[..k - 2];
    }
  }

  lemma {:induction false} FeedCrashesExactly(st: Rpn, ts: seq<Token>, d: nat, n: nat)
    requires Sound(st) && FunctionsWait(st.operators, d, n)
    ensures Feed(st, ts) == Fault <==> Crashes(ts, d, n)
    decreases |ts|
  {
    hide Step, Content, Sound, FunctionsWait, OperatorWaits, Parens;
    if ts != [] {
      var t := ts[0];
      StepSound(st, t);
      StepFaults(st, t);
      WaitingDepth(st.operators, d, n);
      if Step(st, t).Next? {
        var st' := Step(st, t).st;
        StepWaits(st, t, d, n);
        if d == 0 && !t.LParen? && !t.Function? && !IsOutput(t) {
          OperatorNeverCrashes(st', ts[1..]);
        } else {
          FeedCrashesExactly(st', ts[1..], Depth(t, d), Waiting(t, d, n));
        }
      }
    }
  }

  lemma WaitingDepth(ops: seq<Token>, d: nat, n: nat)
    requires FunctionsWait(ops, d, n)
    ensures Parens(ops) == d
    ensures ops == [] <==> d == 0 && n == 0
  {
  }

  /** The conversion of any token list reads in front of its operator stack exactly when some right
      parenthesis comes while nothing waits. */
  lemma ConvertCrashesExactly(ts: seq<Token>)
    ensures Convert(ts) == Crash <==> Crashes(ts, 0, 0)
  {
    FeedCrashesExactly(START, ts, 0, 0);
  }

  /** A right parenthesis in front of anything that waits makes the code read outside the stack. */
  lemma LoneRightParenCrashes(rest: seq<Token>)
    ensures Convert([RParen] + rest) == Crash
  {
    assert ([RParen] + rest)[0] == RParen;
  }
}
