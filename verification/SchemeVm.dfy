/** The query machine: programs run on an explicit stack of frames so that a row can be handed out
    in the middle of any form and evaluation resumed later. */
module SchemeVm {

  // ---- programs ----

  datatype Value = Void | Bool(b: bool) | Int(i: int) | Str(s: string) | Bytes(bs: seq<int>)
                 | Keyword(name: string) | List(items: seq<Value>) | Resource(id: int)

  predicate IsTruthy(v: Value)
  {
    !v.Void? && (v.Bool? ==> v.b)
  }

  /** A program form after its head keyword has been looked at.  A form the machine rejects (wrong
      arity, a head that is not a keyword) carries the error it raises. */
  datatype Expr =
    | Lit(v: Value)
    | Var(name: string)
    | Begin(es: Exprs)
    | When(cond: Expr, body: Exprs)
    | If(cond: Expr, thn: Expr, els: Exprs)
    | Set(name: string, e: Expr)
    | While(cond: Expr, body: Exprs)
    | Call(name: string, args: Exprs)
    | RangesCreate(bounds: Bounds)
    | Malformed(msg: string)

  datatype Exprs = Nil | Cons(head: Expr, tail: Exprs)

  /** The comparisons of a range form, in the order the form is walked; `branch` starts a new
      alternative. */
  datatype Bounds = NoBound | Bound(branch: bool, op: int, e: Expr, rest: Bounds)

  // ---- the outside world ----

  datatype HostCall = HostCall(name: string, args: seq<Value>)

  datatype Res = Done(v: Value) | Yield(v: Value) | Fail(msg: string) | OutOfFuel

  datatype Reply = Answer(v: Value) | Row(v: Value) | Refuse(msg: string)

  /** A deterministic host: its reply is a function of the calls made so far, the last one included.
      `ranges` turns the evaluated comparisons of a range form into its value. */
  datatype Host = Host(call: seq<HostCall> -> Reply, ranges: (Bounds, seq<Value>) -> Value)

  datatype World = World(env: map<string, Value>, calls: seq<HostCall>)

  // ---- frames ----

  datatype Frame =
    | EvalFrame(e: Expr)
    | WhenTest(body: Exprs)
    | IfTest(thn: Expr, els: Exprs)
    | SetFrame(name: string)
    | WhileFrame(cond: Expr, body: Exprs, ran: bool)

  datatype Stack = Bottom | Push(top: Frame, below: Stack)

  function Depth(st: Stack): (n: nat)
  {
    if st.Bottom? then 0 else 1 + Depth(st.below)
  }

  /** Pushes a body so that its first form is on top. */
  function Evals(es: Exprs, st: Stack): (r: Stack)
  {
    match es
    case Nil => st
    case Cons(e, rest) => Push(EvalFrame(e), Evals(rest, st))
  }

  datatype Resumed = Resumed(w: World, st: Stack)

  /** Hands a value to the frames above the next form to evaluate. */
  function ProcessValue(v: Value, w: World, st: Stack): (r: Resumed)
    decreases st
  {
    match st
    case Bottom => Resumed(w, st)
    case Push(EvalFrame(_), _) => Resumed(w, st)
    case Push(WhenTest(body), k) =>
      if !IsTruthy(v) then Resumed(w, Push(EvalFrame(Lit(Void)), k))
      else if body.Nil? then ProcessValue(v, w, k)
      else Resumed(w, Evals(body, k))
    case Push(IfTest(t, els), k) =>
      if IsTruthy(v) then Resumed(w, Push(EvalFrame(t), k))
      else if els.Nil? then Resumed(w, Push(EvalFrame(Lit(Void)), k))
      else Resumed(w, Evals(els, k))
    case Push(SetFrame(x), k) => ProcessValue(v, w.(env := w.env[x := v]), k)
    case Push(WhileFrame(c, body, ran), k) =>
      if ran then Resumed(w, Push(EvalFrame(c), Push(WhileFrame(c, body, false), k)))
      else if IsTruthy(v) then Resumed(w, Evals(body, Push(WhileFrame(c, body, true), k)))
      else Resumed(w, k)
  }

  // ---- one expression ----

  datatype Ev = Ev(res: Res, w: World, st: Stack)

  function CallHost(h: Host, name: string, args: seq<Value>, w: World, st: Stack): (r: Ev)
  {
    var calls := w.calls + [HostCall(name, args)];
    var w' := w.(calls := calls);
    match h.call(calls)
    case Answer(v) => Ev(Done(v), w', st)
    case Row(v) => Ev(Yield(v), w', st)
    case Refuse(msg) => Ev(Fail(msg), w', st)
  }

  /** Evaluates a form as far as its first value, pushing what is left to do.  `fuel` bounds the
      nested loop that arguments are evaluated with. */
  function EvalExpr(h: Host, e: Expr, w: World, st: Stack, fuel: nat): (r: Ev)
    decreases fuel, 1, e, 0
  {
    match e
    case Lit(v) => Ev(Done(v), w, st)
    case Var(x) => Ev(if x in w.env then Done(w.env[x]) else Fail("unbound: " + x), w, st)
    case Begin(es) =>
      if es.Nil? then Ev(Done(Void), w, st) else EvalExpr(h, es.head, w, Evals(es.tail, st), fuel)
    case When(c, body) => EvalExpr(h, c, w, Push(WhenTest(body), st), fuel)
    case If(c, t, els) => EvalExpr(h, c, w, Push(IfTest(t, els), st), fuel)
    case Set(x, e1) => EvalExpr(h, e1, w, Push(SetFrame(x), st), fuel)
    case While(c, body) => EvalExpr(h, c, w, Push(WhileFrame(c, body, false), st), fuel)
    case Call(name, args) => EvalCall(h, name, args, [], w, st, fuel)
    case RangesCreate(bs) => EvalBounds(h, bs, bs, [], w, st, fuel)
    case Malformed(msg) => Ev(Fail(msg), w, st)
  }

  /** Evaluates the arguments left to right, then makes the call.  A row handed out by an argument
      takes the place of the call. */
  function EvalCall(h: Host, name: string, args: Exprs, vals: seq<Value>, w: World, st: Stack, fuel: nat): (r: Ev)
    decreases fuel, 1, args, 0
  {
    match args
    case Nil => CallHost(h, name, vals, w, st)
    case Cons(a, rest) =>
      var r := EvalFully(h, a, w, st, fuel);
      if r.res.Done? then EvalCall(h, name, rest, vals + [r.res.v], r.w, r.st, fuel) else r
  }

  function EvalBounds(h: Host, whole: Bounds, bs: Bounds, vals: seq<Value>, w: World, st: Stack, fuel: nat): (r: Ev)
    decreases fuel, 1, bs, 0
  {
    match bs
    case NoBound => Ev(Done(h.ranges(whole, vals)), w, st)
    case Bound(_, _, e, rest) =>
      var r := EvalExpr(h, e, w, st, fuel);
      match r.res
      case Done(v) => EvalBounds(h, whole, rest, vals + [v], r.w, r.st, fuel)
      case Yield(_) => Ev(Fail("ranges-create: value expression yielded unexpectedly"), r.w, r.st)
      case _ => r
  }

  /** Evaluates an argument and runs whatever it pushed. */
  function EvalFully(h: Host, e: Expr, w: World, st: Stack, fuel: nat): (r: Ev)
    decreases fuel, 1, e, 1
  {
    var r := EvalExpr(h, e, w, st, fuel);
    if r.res.Done? then RunPushed(h, r.res.v, Depth(st), r.w, r.st, fuel) else r
  }

  function RunPushed(h: Host, v: Value, base: nat, w: World, st: Stack, fuel: nat): (r: Ev)
    decreases fuel, 0
  {
    if Depth(st) <= base then Ev(Done(v), w, st)
    else
      var p := ProcessValue(v, w, st);
      if Depth(p.st) <= base || !p.st.top.EvalFrame? then Ev(Done(v), p.w, p.st)
      else if fuel == 0 then Ev(OutOfFuel, p.w, p.st)
      else
        var r := EvalExpr(h, p.st.top.e, p.w, p.st.below, fuel - 1);
        if r.res.Done? then RunPushed(h, r.res.v, base, r.w, r.st, fuel - 1) else r
  }

  // ---- the machine ----

  /** Where a run is between two turns of the evaluation loop. */
  datatype Config = Running(w: World, st: Stack) | Halted(w: World) | Crashed(msg: string, w: World) | Stuck

  datatype Turn = Turn(c: Config, rows: seq<Value>)

  /** Handing a value down the stack; an empty stack ends the run. */
  function Return(v: Value, w: World, st: Stack): (c: Config)
  {
    var p := ProcessValue(v, w, st);
    if p.st.Bottom? then Halted(p.w) else Running(p.w, p.st)
  }

  /** One turn of the loop; a row handed out ends the turn. */
  function NextTurn(h: Host, c: Config, fuel: nat): (t: Turn)
  {
    if !c.Running? then Turn(c, [])
    else if c.st.Bottom? then Turn(Halted(c.w), [])
    else if !c.st.top.EvalFrame? then
      var p := ProcessValue(Void, c.w, c.st);
      Turn(Running(p.w, p.st), [])
    else
      var r := EvalExpr(h, c.st.top.e, c.w, c.st.below, fuel);
      match r.res
      case Done(v) => Turn(Return(v, r.w, r.st), [])
      case Yield(row) => Turn(Running(r.w, r.st), [row])
      case Fail(msg) => Turn(Crashed(msg, r.w), [])
      case OutOfFuel => Turn(Stuck, [])
  }

  function Run(h: Host, c: Config, n: nat, fuel: nat): (t: Turn)
    decreases n
  {
    if n == 0 then Turn(c, [])
    else
      var a := NextTurn(h, c, fuel);
      var b := Run(h, a.c, n - 1, fuel);
      Turn(b.c, a.rows + b.rows)
  }

  lemma {:induction false} RunAdd(h: Host, c: Config, m: nat, n: nat, fuel: nat)
    ensures
      var a := Run(h, c, m, fuel);
      var b := Run(h, a.c, n, fuel);
      Run(h, c, m + n, fuel) == Turn(b.c, a.rows + b.rows)
    decreases m
  {
    hide NextTurn;
    if m > 0 {
      RunAdd(h, NextTurn(h, c, fuel).c, m - 1, n, fuel);
    }
  }

  lemma {:induction false} StoppedStays(h: Host, c: Config, n: nat, fuel: nat)
    requires !c.Running?
    ensures Run(h, c, n, fuel) == Turn(c, [])
  {
    hide EvalExpr; hide Return;
    if n > 0 {
      StoppedStays(h, c, n - 1, fuel);
    }
  }

  // ---- forms without control flow ----

  /** Literals, variables, host calls and range forms nested in each other. */
  predicate Simple(e: Expr)
  {
    match e
    case Lit(_) => true
    case Var(_) => true
    case Call(_, args) => AllSimple(args)
    case RangesCreate(bs) => SimpleBounds(bs)
    case Malformed(_) => true
    case _ => false
  }

  predicate AllSimple(es: Exprs)
  {
    es.Cons? ==> Simple(es.head) && AllSimple(es.tail)
  }

  predicate SimpleBounds(bs: Bounds)
  {
    bs.Bound? ==> Simple(bs.e) && SimpleBounds(bs.rest)
  }

  /** The programs the query compiler emits: the arguments of calls and of range forms are simple. */
  predicate Compiled(e: Expr)
  {
    match e
    case Begin(es) => AllCompiled(es)
    case When(c, body) => Compiled(c) && AllCompiled(body)
    case If(c, t, els) => Compiled(c) && Compiled(t) && AllCompiled(els)
    case Set(_, e1) => Compiled(e1)
    case While(c, body) => Compiled(c) && AllCompiled(body)
    case _ => Simple(e)
  }

  predicate AllCompiled(es: Exprs)
  {
    es.Cons? ==> Compiled(es.head) && AllCompiled(es.tail)
  }

  // ---- what programs mean ----

  /** The value, row or error of a simple form, and the host calls it makes. */
  datatype Answered = Answered(res: Res, calls: seq<HostCall>)

  function Ask(h: Host, name: string, args: seq<Value>, calls: seq<HostCall>): (a: Answered)
  {
    var all := calls + [HostCall(name, args)];
    match h.call(all)
    case Answer(v) => Answered(Done(v), all)
    case Row(v) => Answered(Yield(v), all)
    case Refuse(msg) => Answered(Fail(msg), all)
  }

  function MeanSimple(h: Host, e: Expr, env: map<string, Value>, calls: seq<HostCall>): (a: Answered)
    requires Simple(e)
    decreases e, 1
  {
    match e
    case Lit(v) => Answered(Done(v), calls)
    case Var(x) => Answered(if x in env then Done(env[x]) else Fail("unbound: " + x), calls)
    case Call(name, args) =>
      var a := MeanArgs(h, args, env, calls);
      if a.Failed? then Answered(a.res, a.calls) else Ask(h, name, a.vals, a.calls)
    case RangesCreate(bs) =>
      var a := MeanBounds(h, bs, env, calls);
      if !a.Failed? then Answered(Done(h.ranges(bs, a.vals)), a.calls)
      else if a.res.Yield? then Answered(Fail("ranges-create: value expression yielded unexpectedly"), a.calls)
      else Answered(a.res, a.calls)
    case Malformed(msg) => Answered(Fail(msg), calls)
  }

  /** The values of a list of simple forms, or the first that is not a value. */
  datatype Answers = Values(vals: seq<Value>, calls: seq<HostCall>) | Failed(res: Res, calls: seq<HostCall>)

  function MeanArgs(h: Host, es: Exprs, env: map<string, Value>, calls: seq<HostCall>): (a: Answers)
    requires AllSimple(es)
    ensures a.Failed? ==> !a.res.Done?
    decreases es, 0
  {
    if es.Nil? then Values([], calls)
    else
      var a := MeanSimple(h, es.head, env, calls);
      if !a.res.Done? then Failed(a.res, a.calls)
      else
        var b := MeanArgs(h, es.tail, env, a.calls);
        if b.Failed? then b else Values([a.res.v] + b.vals, b.calls)
  }

  function MeanBounds(h: Host, bs: Bounds, env: map<string, Value>, calls: seq<HostCall>): (a: Answers)
    requires SimpleBounds(bs)
    ensures a.Failed? ==> !a.res.Done?
    decreases bs, 0
  {
    if bs.NoBound? then Values([], calls)
    else
      var a := MeanSimple(h, bs.e, env, calls);
      if !a.res.Done? then Failed(a.res, a.calls)
      else
        var b := MeanBounds(h, bs.rest, env, a.calls);
        if b.Failed? then b else Values([a.res.v] + b.vals, b.calls)
  }

  /** Simple forms never run out of fuel. */
  lemma {:induction false} SimpleEnds(h: Host, e: Expr, env: map<string, Value>, calls: seq<HostCall>)
    requires Simple(e)
    ensures !MeanSimple(h, e, env, calls).res.OutOfFuel?
    decreases e, 1
  {
    match e
    case Call(name, args) => ArgsEnd(h, args, env, calls);
    case RangesCreate(bs) => BoundsEnd(h, bs, env, calls);
    case _ =>
  }

  lemma {:induction false} ArgsEnd(h: Host, es: Exprs, env: map<string, Value>, calls: seq<HostCall>)
    requires AllSimple(es)
    ensures MeanArgs(h, es, env, calls).Failed? ==> !MeanArgs(h, es, env, calls).res.OutOfFuel?
    decreases es, 0
  {
    if es.Cons? {
      SimpleEnds(h, es.head, env, calls);
      ArgsEnd(h, es.tail, env, MeanSimple(h, es.head, env, calls).calls);
    }
  }

  lemma {:induction false} BoundsEnd(h: Host, bs: Bounds, env: map<string, Value>, calls: seq<HostCall>)
    requires SimpleBounds(bs)
    ensures MeanBounds(h, bs, env, calls).Failed? ==> !MeanBounds(h, bs, env, calls).res.OutOfFuel?
    decreases bs, 0
  {
    if bs.Bound? {
      SimpleEnds(h, bs.e, env, calls);
      BoundsEnd(h, bs.rest, env, MeanSimple(h, bs.e, env, calls).calls);
    }
  }

  lemma PlusNothing(a: Answers)
    ensures a.Values? ==> [] + a.vals == a.vals
  {
  }

  /** The machine evaluates a simple form to its meaning and leaves the stack alone. */
  lemma {:induction false} SimpleAgrees(h: Host, e: Expr, w: World, st: Stack, fuel: nat)
    requires Simple(e)
    ensures
      var a := MeanSimple(h, e, w.env, w.calls);
      EvalExpr(h, e, w, st, fuel) == Ev(a.res, w.(calls := a.calls), st)
    decreases e, 1
  {
    match e
    case Call(name, args) =>
      ArgsAgree(h, name, args, [], w, st, fuel);
      PlusNothing(MeanArgs(h, args, w.env, w.calls));
    case RangesCreate(bs) =>
      BoundsAgree(h, bs, bs, [], w, st, fuel);
      PlusNothing(MeanBounds(h, bs, w.env, w.calls));
    case _ =>
  }

  lemma {:induction false} ArgsAgree(h: Host, name: string, es: Exprs, vals: seq<Value>, w: World, st: Stack, fuel: nat)
    requires AllSimple(es)
    ensures
      var a := MeanArgs(h, es, w.env, w.calls);
      EvalCall(h, name, es, vals, w, st, fuel) ==
        if a.Failed? then Ev(a.res, w.(calls := a.calls), st)
        else CallHost(h, name, vals + a.vals, w.(calls := a.calls), st)
    decreases es, 0
  {
    if es.Nil? {
      assert vals + [] == vals;
    } else {
      SimpleAgrees(h, es.head, w, st, fuel);
      var a := MeanSimple(h, es.head, w.env, w.calls);
      if a.res.Done? {
        var w1 := w.(calls := a.calls);
        assert EvalFully(h, es.head, w, st, fuel) == Ev(a.res, w1, st);
        ArgsAgree(h, name, es.tail, vals + [a.res.v], w1, st, fuel);
        var b := MeanArgs(h, es.tail, w1.env, w1.calls);
        if !b.Failed? {
          assert vals + ([a.res.v] + b.vals) == vals + [a.res.v] + b.vals;
        }
      }
    }
  }

  lemma {:induction false} BoundsAgree(h: Host, whole: Bounds, bs: Bounds, vals: seq<Value>, w: World, st: Stack, fuel: nat)
    requires SimpleBounds(bs)
    ensures
      var a := MeanBounds(h, bs, w.env, w.calls);
      EvalBounds(h, whole, bs, vals, w, st, fuel) ==
        if !a.Failed? then Ev(Done(h.ranges(whole, vals + a.vals)), w.(calls := a.calls), st)
        else Ev(if a.res.Yield? then Fail("ranges-create: value expression yielded unexpectedly") else a.res,
                w.(calls := a.calls), st)
    decreases bs, 0
  {
    if bs.NoBound? {
      assert vals + [] == vals;
    } else {
      SimpleAgrees(h, bs.e, w, st, fuel);
      var a := MeanSimple(h, bs.e, w.env, w.calls);
      if a.res.Done? {
        var w1 := w.(calls := a.calls);
        BoundsAgree(h, whole, bs.rest, vals + [a.res.v], w1, st, fuel);
        var b := MeanBounds(h, bs.rest, w1.env, w1.calls);
        if !b.Failed? {
          assert vals + ([a.res.v] + b.vals) == vals + [a.res.v] + b.vals;
        }
      }
    }
  }

  /** How a form ends: with a value, an error, or not within the given number of loop rounds. */
  datatype Outcome = Ok(v: Value, w: World, rows: seq<Value>) | Err(msg: string, w: World, rows: seq<Value>) | Timeout

  function After(rows: seq<Value>, o: Outcome): (r: Outcome)
  {
    match o
    case Ok(v, w, more) => Ok(v, w, rows + more)
    case Err(msg, w, more) => Err(msg, w, rows + more)
    case Timeout => Timeout
  }

  /** The meaning of a program form; `rounds` bounds how often a loop may go round. */
  function Mean(h: Host, e: Expr, w: World, rounds: nat): (o: Outcome)
    requires Compiled(e)
    decreases rounds, e, 2
  {
    match e
    case Begin(es) => if es.Nil? then Ok(Void, w, []) else MeanSeq(h, es, w, rounds)
    case When(c, body) =>
      var a := Mean(h, c, w, rounds);
      if !a.Ok? then a
      else if !IsTruthy(a.v) then Ok(Void, a.w, a.rows)
      else if body.Nil? then a
      else After(a.rows, MeanSeq(h, body, a.w, rounds))
    case If(c, t, els) =>
      var a := Mean(h, c, w, rounds);
      if !a.Ok? then a
      else if IsTruthy(a.v) then After(a.rows, Mean(h, t, a.w, rounds))
      else if els.Nil? then Ok(Void, a.w, a.rows)
      else After(a.rows, MeanSeq(h, els, a.w, rounds))
    case Set(x, e1) =>
      var a := Mean(h, e1, w, rounds);
      if !a.Ok? then a else Ok(a.v, a.w.(env := a.w.env[x := a.v]), a.rows)
    case While(c, body) => MeanLoop(h, e, w, rounds)
    case _ =>
      var a := MeanSimple(h, e, w.env, w.calls);
      var w' := w.(calls := a.calls);
      match a.res
      case Done(v) => Ok(v, w', [])
      case Yield(row) => Ok(Void, w', [row])
      case Fail(msg) => Err(msg, w', [])
      case OutOfFuel => Timeout
  }

  /** Forms one after the other; the value is the last one's. */
  function MeanSeq(h: Host, es: Exprs, w: World, rounds: nat): (o: Outcome)
    requires es.Cons? && AllCompiled(es)
    decreases rounds, es, 0
  {
    var a := Mean(h, es.head, w, rounds);
    if !a.Ok? || es.tail.Nil? then a else After(a.rows, MeanSeq(h, es.tail, a.w, rounds))
  }

  function MeanLoop(h: Host, e: Expr, w: World, rounds: nat): (o: Outcome)
    requires e.While? && Compiled(e)
    decreases rounds, e, 1
  {
    if rounds == 0 then Timeout
    else
      var a := Mean(h, e.cond, w, rounds);
      if !a.Ok? then a
      else if !IsTruthy(a.v) then Ok(Void, a.w, a.rows)
      else After(a.rows, MeanRound(h, e, a.w, rounds))
  }

  /** The body once, then the loop again. */
  function MeanRound(h: Host, e: Expr, w: World, rounds: nat): (o: Outcome)
    requires e.While? && Compiled(e) && rounds > 0
    decreases rounds, e, 0
  {
    if e.body.Nil? then MeanLoop(h, e, w, rounds - 1)
    else
      var b := MeanSeq(h, e.body, w, rounds);
      if !b.Ok? then b else After(b.rows, MeanLoop(h, e, b.w, rounds - 1))
  }

  // ---- the machine runs programs to their meaning ----

  ghost predicate Simulates(h: Host, c: Config, o: Outcome, k: Stack, n: nat, rounds: nat, fuel: nat)
  {
    match o
    case Ok(v, w, rows) => n >= 1 && Run(h, c, n, fuel) == Turn(Return(v, w, k), rows)
    case Err(msg, w, rows) => n >= 1 && Run(h, c, n, fuel) == Turn(Crashed(msg, w), rows)
    case Timeout => n >= rounds && Run(h, c, n, fuel).c.Running?
  }

  /** Runs compose. */
  lemma Chain(h: Host, c: Config, n: nat, c1: Config, rows: seq<Value>, o: Outcome, k: Stack, n1: nat,
              rounds1: nat, rounds: nat, fuel: nat)
    requires Run(h, c, n, fuel) == Turn(c1, rows)
    requires Simulates(h, c1, o, k, n1, rounds1, fuel) && n + rounds1 >= rounds
    ensures Simulates(h, c, After(rows, o), k, n + n1, rounds, fuel)
  {
    hide NextTurn; hide Return; hide Run;
    RunAdd(h, c, n, n1, fuel);
  }

  /** Two places in front of the same first turn run alike. */
  lemma SameFirstTurn(h: Host, c: Config, c1: Config, o: Outcome, k: Stack, n: nat, rounds: nat, fuel: nat)
    requires c.Running? && NextTurn(h, c, fuel) == NextTurn(h, c1, fuel)
    requires Simulates(h, c1, o, k, n, rounds, fuel)
    ensures Simulates(h, c, o, k, n, rounds, fuel)
  {
    hide NextTurn; hide Return;
  }

  /** Between turns the machine is about to hand down the value of a form that gave none. */
  lemma ToReturn(h: Host, w: World, k: Stack, fuel: nat) returns (n: nat)
    ensures Run(h, Running(w, k), n, fuel) == Turn(Return(Void, w, k), [])
  {
    hide EvalExpr;
    n := 0;
    if k.Bottom? {
      n := 1;
      assert Run(h, Running(w, k), 1, fuel) == Turn(Halted(w), []);
    } else if !k.top.EvalFrame? {
      n := 2;
      var p := ProcessValue(Void, w, k);
      assert NextTurn(h, Running(w, k), fuel) == Turn(Running(p.w, p.st), []);
      if p.st.Bottom? {
        assert Run(h, Running(p.w, p.st), 1, fuel) == Turn(Halted(p.w), []);
      } else {
        n := 1;
        assert Run(h, Running(p.w, p.st), 0, fuel) == Turn(Running(p.w, p.st), []);
      }
    }
  }

  /** Evaluating a form on top of any stack ends by handing its value to that stack. */
  lemma {:induction false} FormRuns(h: Host, e: Expr, w: World, k: Stack, rounds: nat, fuel: nat) returns (n: nat)
    requires Compiled(e)
    ensures Simulates(h, Running(w, Push(EvalFrame(e), k)), Mean(h, e, w, rounds), k, n, rounds, fuel)
    decreases rounds, e, 2
  {
    hide Simulates; hide Run; hide NextTurn; hide EvalExpr; hide Return;
    match e
    case Begin(es) => n := BeginRuns(h, e, w, k, rounds, fuel);
    case When(c, body) => n := WhenRuns(h, e, w, k, rounds, fuel);
    case If(c, t, els) => n := IfRuns(h, e, w, k, rounds, fuel);
    case Set(x, e1) => n := SetRuns(h, e, w, k, rounds, fuel);
    case While(c, body) =>
      n := LoopRuns(h, e, w, k, rounds, fuel);
      OpenLoop(h, e, w, k, fuel);
      SameFirstTurn(h, Running(w, Push(EvalFrame(e), k)), LoopStart(e, w, k), Mean(h, e, w, rounds), k, n, rounds, fuel);
    case _ => n := SimpleRuns(h, e, w, k, rounds, fuel);
  }

  lemma SimpleRuns(h: Host, e: Expr, w: World, k: Stack, rounds: nat, fuel: nat) returns (n: nat)
    requires Simple(e)
    ensures Compiled(e)
    ensures Simulates(h, Running(w, Push(EvalFrame(e), k)), Mean(h, e, w, rounds), k, n, rounds, fuel)
  {
    hide EvalExpr; hide MeanSimple; hide Return;
    SimpleAgrees(h, e, w, k, fuel);
    SimpleEnds(h, e, w.env, w.calls);
    var c := Running(w, Push(EvalFrame(e), k));
    var a := MeanSimple(h, e, w.env, w.calls);
    var t := NextTurn(h, c, fuel);
    assert Run(h, t.c, 0, fuel) == Turn(t.c, []);
    assert Run(h, c, 1, fuel) == t;
    n := 1;
    if a.res.Yield? {
      var m := ToReturn(h, w.(calls := a.calls), k, fuel);
      RunAdd(h, c, 1, m, fuel);
      n := 1 + m;
    }
  }

  lemma {:induction false} SeqRuns(h: Host, es: Exprs, w: World, k: Stack, rounds: nat, fuel: nat) returns (n: nat)
    requires es.Cons? && AllCompiled(es)
    ensures Simulates(h, Running(w, Evals(es, k)), MeanSeq(h, es, w, rounds), k, n, rounds, fuel)
    decreases rounds, es, 0
  {
    hide Simulates; hide Run; hide NextTurn; hide EvalExpr;
    var c := Running(w, Evals(es, k));
    var below := Evals(es.tail, k);
    n := FormRuns(h, es.head, w, below, rounds, fuel);
    var a := Mean(h, es.head, w, rounds);
    Ends(h, c, a, below, k, n, rounds, fuel);
    if a.Ok? && es.tail.Cons? {
      assert Return(a.v, a.w, below) == Running(a.w, below);
      var m := SeqRuns(h, es.tail, a.w, k, rounds, fuel);
      Chain(h, c, n, Running(a.w, below), a.rows, MeanSeq(h, es.tail, a.w, rounds), k, m, rounds, rounds, fuel);
      n := n + m;
    }
  }

  /** What a simulation says, case by case; only the value of a form depends on the stack below. */
  lemma Ends(h: Host, c: Config, o: Outcome, k: Stack, k1: Stack, n: nat, rounds: nat, fuel: nat)
    requires Simulates(h, c, o, k, n, rounds, fuel)
    ensures o.Ok? ==> n >= 1 && Run(h, c, n, fuel) == Turn(Return(o.v, o.w, k), o.rows)
    ensures !o.Ok? || (o.Ok? && Return(o.v, o.w, k) == Return(o.v, o.w, k1)) ==> Simulates(h, c, o, k1, n, rounds, fuel)
  {
    hide Run; hide Return;
  }

  lemma BeginRuns(h: Host, e: Expr, w: World, k: Stack, rounds: nat, fuel: nat) returns (n: nat)
    requires e.Begin? && Compiled(e)
    ensures Simulates(h, Running(w, Push(EvalFrame(e), k)), Mean(h, e, w, rounds), k, n, rounds, fuel)
    decreases rounds, e, 0
  {
    hide Simulates; hide Run; hide Return;
    var c := Running(w, Push(EvalFrame(e), k));
    if e.es.Nil? {
      n := Immediately(h, c, Void, w, k, rounds, fuel);
    } else {
      n := SeqRuns(h, e.es, w, k, rounds, fuel);
      SameFirstTurn(h, c, Running(w, Evals(e.es, k)), MeanSeq(h, e.es, w, rounds), k, n, rounds, fuel);
    }
  }

  /** A turn that hands down a value at once. */
  lemma Immediately(h: Host, c: Config, v: Value, w: World, k: Stack, rounds: nat, fuel: nat) returns (n: nat)
    requires NextTurn(h, c, fuel) == Turn(Return(v, w, k), [])
    ensures Simulates(h, c, Ok(v, w, []), k, n, rounds, fuel)
  {
    hide NextTurn; hide Return;
    n := 1;
    assert Run(h, Return(v, w, k), 0, fuel) == Turn(Return(v, w, k), []);
  }

  lemma SetRuns(h: Host, e: Expr, w: World, k: Stack, rounds: nat, fuel: nat) returns (n: nat)
    requires e.Set? && Compiled(e)
    ensures Simulates(h, Running(w, Push(EvalFrame(e), k)), Mean(h, e, w, rounds), k, n, rounds, fuel)
    decreases rounds, e, 0
  {
    hide Run;
    var c := Running(w, Push(EvalFrame(e), k));
    var below := Push(SetFrame(e.name), k);
    n := FormRuns(h, e.e, w, below, rounds, fuel);
    var a := Mean(h, e.e, w, rounds);
    SameFirstTurn(h, c, Running(w, Push(EvalFrame(e.e), below)), a, below, n, rounds, fuel);
    hide NextTurn; hide EvalExpr;
    Ends(h, c, a, below, k, n, rounds, fuel);
    if a.Ok? {
      assert Return(a.v, a.w, below) == Return(a.v, a.w.(env := a.w.env[e.name := a.v]), k);
    }
  }

  /** The falsy branch of a test: one more turn gives Void. */
  lemma VoidRuns(h: Host, w: World, k: Stack, rounds: nat, fuel: nat) returns (n: nat)
    ensures Simulates(h, Running(w, Push(EvalFrame(Lit(Void)), k)), Ok(Void, w, []), k, n, rounds, fuel)
  {
    hide Run; hide Simulates; hide Return;
    n := Immediately(h, Running(w, Push(EvalFrame(Lit(Void)), k)), Void, w, k, rounds, fuel);
  }

  lemma WhenRuns(h: Host, e: Expr, w: World, k: Stack, rounds: nat, fuel: nat) returns (n: nat)
    requires e.When? && Compiled(e)
    ensures Simulates(h, Running(w, Push(EvalFrame(e), k)), Mean(h, e, w, rounds), k, n, rounds, fuel)
    decreases rounds, e, 0
  {
    hide Run; hide Simulates;
    var c := Running(w, Push(EvalFrame(e), k));
    var below := Push(WhenTest(e.body), k);
    n := FormRuns(h, e.cond, w, below, rounds, fuel);
    var a := Mean(h, e.cond, w, rounds);
    SameFirstTurn(h, c, Running(w, Push(EvalFrame(e.cond), below)), a, below, n, rounds, fuel);
    hide NextTurn; hide EvalExpr;
    Ends(h, c, a, below, k, n, rounds, fuel);
    if a.Ok? {
      var c1 := Return(a.v, a.w, below);
      if !IsTruthy(a.v) {
        var m := VoidRuns(h, a.w, k, rounds, fuel);
        Chain(h, c, n, c1, a.rows, Ok(Void, a.w, []), k, m, rounds, rounds, fuel);
        assert a.rows + [] == a.rows;
        n := n + m;
      } else if e.body.Cons? {
        var m := SeqRuns(h, e.body, a.w, k, rounds, fuel);
        assert c1 == Running(a.w, Evals(e.body, k));
        Chain(h, c, n, c1, a.rows, MeanSeq(h, e.body, a.w, rounds), k, m, rounds, rounds, fuel);
        n := n + m;
      }
    }
  }

  lemma IfRuns(h: Host, e: Expr, w: World, k: Stack, rounds: nat, fuel: nat) returns (n: nat)
    requires e.If? && Compiled(e)
    ensures Simulates(h, Running(w, Push(EvalFrame(e), k)), Mean(h, e, w, rounds), k, n, rounds, fuel)
    decreases rounds, e, 0
  {
    hide Run; hide Simulates;
    var c := Running(w, Push(EvalFrame(e), k));
    var below := Push(IfTest(e.thn, e.els), k);
    n := FormRuns(h, e.cond, w, below, rounds, fuel);
    var a := Mean(h, e.cond, w, rounds);
    SameFirstTurn(h, c, Running(w, Push(EvalFrame(e.cond), below)), a, below, n, rounds, fuel);
    hide NextTurn; hide EvalExpr;
    Ends(h, c, a, below, k, n, rounds, fuel);
    if a.Ok? {
      var c1 := Return(a.v, a.w, below);
      var m;
      if IsTruthy(a.v) {
        m := FormRuns(h, e.thn, a.w, k, rounds, fuel);
        Chain(h, c, n, c1, a.rows, Mean(h, e.thn, a.w, rounds), k, m, rounds, rounds, fuel);
      } else if e.els.Nil? {
        m := VoidRuns(h, a.w, k, rounds, fuel);
        Chain(h, c, n, c1, a.rows, Ok(Void, a.w, []), k, m, rounds, rounds, fuel);
        assert a.rows + [] == a.rows;
      } else {
        m := SeqRuns(h, e.els, a.w, k, rounds, fuel);
        assert c1 == Running(a.w, Evals(e.els, k));
        Chain(h, c, n, c1, a.rows, MeanSeq(h, e.els, a.w, rounds), k, m, rounds, rounds, fuel);
      }
      n := n + m;
    }
  }

  /** A loop about to test its condition. */
  function LoopStart(e: Expr, w: World, k: Stack): (c: Config)
    requires e.While?
  {
    Running(w, Push(EvalFrame(e.cond), Push(WhileFrame(e.cond, e.body, false), k)))
  }

  lemma OpenLoop(h: Host, e: Expr, w: World, k: Stack, fuel: nat)
    requires e.While?
    ensures NextTurn(h, Running(w, Push(EvalFrame(e), k)), fuel) == NextTurn(h, LoopStart(e, w, k), fuel)
  {
  }

  lemma LoopRuns(h: Host, e: Expr, w: World, k: Stack, rounds: nat, fuel: nat) returns (n: nat)
    requires e.While? && Compiled(e)
    ensures Simulates(h, LoopStart(e, w, k), MeanLoop(h, e, w, rounds), k, n, rounds, fuel)
    decreases rounds, e, 1
  {
    hide EvalExpr; hide NextTurn;
    var c := LoopStart(e, w, k);
    if rounds == 0 {
      n := 0;
    } else {
      hide Run; hide Simulates;
      var test := Push(WhileFrame(e.cond, e.body, false), k);
      n := FormRuns(h, e.cond, w, test, rounds, fuel);
      var a := Mean(h, e.cond, w, rounds);
      Ends(h, c, a, test, k, n, rounds, fuel);
      if a.Ok? {
        if IsTruthy(a.v) {
          var m := RoundRuns(h, e, a.w, k, rounds, fuel);
          TruthyStarts(e, a.v, a.w, k);
          Chain(h, c, n, RoundStart(e, a.w, k), a.rows, MeanRound(h, e, a.w, rounds), k, m, rounds - 1, rounds, fuel);
          n := n + m;
        } else {
          n := LoopExit(h, c, e, a, k, n, rounds, fuel);
        }
      }
    }
  }

  /** A loop about to run its body. */
  function RoundStart(e: Expr, w: World, k: Stack): (c: Config)
    requires e.While?
  {
    Running(w, Evals(e.body, Push(WhileFrame(e.cond, e.body, true), k)))
  }

  lemma TruthyStarts(e: Expr, v: Value, w: World, k: Stack)
    requires e.While? && IsTruthy(v)
    ensures Return(v, w, Push(WhileFrame(e.cond, e.body, false), k)) == RoundStart(e, w, k)
  {
    assert e.body.Cons? ==> Evals(e.body, Push(WhileFrame(e.cond, e.body, true), k)).Push?;
  }

  lemma RoundRuns(h: Host, e: Expr, w: World, k: Stack, rounds: nat, fuel: nat) returns (n: nat)
    requires e.While? && Compiled(e) && rounds > 0
    ensures Simulates(h, RoundStart(e, w, k), MeanRound(h, e, w, rounds), k, n, rounds - 1, fuel)
    decreases rounds, e, 0
  {
    hide EvalExpr; hide Run; hide Simulates;
    var c := RoundStart(e, w, k);
    var again := Push(WhileFrame(e.cond, e.body, true), k);
    if e.body.Nil? {
      n := LoopRuns(h, e, w, k, rounds - 1, fuel);
      OneTurn(h, c, LoopStart(e, w, k), fuel);
      Chain(h, c, 1, LoopStart(e, w, k), [], MeanLoop(h, e, w, rounds - 1), k, n, rounds - 1, rounds - 1, fuel);
      AfterNothing(MeanLoop(h, e, w, rounds - 1));
      n := n + 1;
    } else {
      hide NextTurn;
      n := SeqRuns(h, e.body, w, again, rounds, fuel);
      var b := MeanSeq(h, e.body, w, rounds);
      Ends(h, c, b, again, k, n, rounds, fuel);
      if b.Ok? {
        var m := LoopRuns(h, e, b.w, k, rounds - 1, fuel);
        assert Return(b.v, b.w, again) == LoopStart(e, b.w, k);
        Chain(h, c, n, LoopStart(e, b.w, k), b.rows, MeanLoop(h, e, b.w, rounds - 1), k, m, rounds - 1, rounds - 1, fuel);
        n := n + m;
      } else {
        FewerRounds(h, c, b, k, n, rounds, fuel);
      }
    }
  }

  lemma OneTurn(h: Host, c: Config, c1: Config, fuel: nat)
    requires NextTurn(h, c, fuel) == Turn(c1, [])
    ensures Run(h, c, 1, fuel) == Turn(c1, [])
  {
    hide NextTurn;
    assert Run(h, c1, 0, fuel) == Turn(c1, []);
  }

  lemma AfterNothing(o: Outcome)
    ensures After([], o) == o
  {
    if !o.Timeout? {
      assert [] + o.rows == o.rows;
    }
  }

  lemma FewerRounds(h: Host, c: Config, o: Outcome, k: Stack, n: nat, rounds: nat, fuel: nat)
    requires Simulates(h, c, o, k, n, rounds, fuel) && rounds > 0
    ensures Simulates(h, c, o, k, n, rounds - 1, fuel)
  {
    hide Run; hide Return;
  }

  /** A loop whose condition came out false hands Void down. */
  lemma LoopExit(h: Host, c: Config, e: Expr, a: Outcome, k: Stack, n0: nat, rounds: nat, fuel: nat) returns (n: nat)
    requires e.While? && a.Ok? && !IsTruthy(a.v) && n0 >= 1
    requires Run(h, c, n0, fuel) == Turn(Return(a.v, a.w, Push(WhileFrame(e.cond, e.body, false), k)), a.rows)
    ensures Simulates(h, c, Ok(Void, a.w, a.rows), k, n, rounds, fuel)
  {
    hide Run; hide NextTurn;
    n := n0;
    if k.Push? {
      var m := ToReturn(h, a.w, k, fuel);
      RunAdd(h, c, n0, m, fuel);
      assert a.rows + [] == a.rows;
      n := n0 + m;
    }
  }

  // ---- whole programs ----

  /** A run that has not started yet. */
  function Start(program: Expr, w: World): (c: Config)
  {
    Running(w, Push(EvalFrame(program), Bottom))
  }

  /** The machine state that a meaning describes. */
  function EndOf(o: Outcome): (t: Turn)
    requires !o.Timeout?
  {
    if o.Ok? then Turn(Halted(o.w), o.rows) else Turn(Crashed(o.msg, o.w), o.rows)
  }

  /** Every program that means something runs to exactly that: the same rows in the same order, the
      same host calls, the same bindings at the end, the same error.  A program that goes round its
      loops more often than allowed is still running after that many turns. */
  lemma MachineMeets(h: Host, program: Expr, w: World, rounds: nat, fuel: nat) returns (n: nat)
    requires Compiled(program)
    ensures
      var o := Mean(h, program, w, rounds);
      var t := Run(h, Start(program, w), n, fuel);
      if o.Timeout? then n >= rounds && t.c.Running? else t == EndOf(o)
  {
    n := FormRuns(h, program, w, Bottom, rounds, fuel);
  }

  /** What tests take for false, named outright: Void and false send an if to its else part, a when to Void
      and a loop to its end; every other value, zero, the empty string and the empty list included, sends them
      to their bodies. */
  lemma TestsDecide(h: Host, c: Expr, t: Expr, es: Exprs, w: World, rounds: nat, v: Value, w1: World, rows: seq<Value>)
    requires Compiled(c) && Compiled(t) && AllCompiled(es) && es.Cons?
    requires Mean(h, c, w, rounds) == Ok(v, w1, rows)
    ensures v == Void || v == Bool(false) ==>
      && Mean(h, If(c, t, es), w, rounds) == After(rows, MeanSeq(h, es, w1, rounds))
      && Mean(h, If(c, t, Nil), w, rounds) == Ok(Void, w1, rows)
      && Mean(h, When(c, es), w, rounds) == Ok(Void, w1, rows)
      && (rounds > 0 ==> Mean(h, While(c, es), w, rounds) == Ok(Void, w1, rows))
    ensures v != Void && v != Bool(false) ==>
      && Mean(h, If(c, t, es), w, rounds) == After(rows, Mean(h, t, w1, rounds))
      && Mean(h, When(c, es), w, rounds) == After(rows, MeanSeq(h, es, w1, rounds))
      && Mean(h, When(c, Nil), w, rounds) == Ok(v, w1, rows)
      && (rounds > 0 ==>
        var b := MeanSeq(h, es, w1, rounds);
        Mean(h, While(c, es), w, rounds)
          == After(rows, if b.Ok? then After(b.rows, Mean(h, While(c, es), b.w, rounds - 1)) else b))
  {
    hide MeanSimple;
    NoForms();
    var loop := While(c, es);
    if rounds > 0 {
      assert Mean(h, loop, w, rounds) == MeanLoop(h, loop, w, rounds);
      var b := MeanSeq(h, es, w1, rounds);
      if b.Ok? {
        assert Mean(h, loop, b.w, rounds - 1) == MeanLoop(h, loop, b.w, rounds - 1);
      }
      assert MeanRound(h, loop, w1, rounds) == if b.Ok? then After(b.rows, MeanLoop(h, loop, b.w, rounds - 1)) else b;
    }
  }

  lemma NoForms()
    ensures AllCompiled(Nil)
  {
  }

  lemma OneForm(h: Host, e: Expr, w: World, rounds: nat)
    requires Compiled(e)
    ensures AllCompiled(Cons(e, Nil)) && MeanSeq(h, Cons(e, Nil), w, rounds) == Mean(h, e, w, rounds)
  {
    hide Mean;
    NoForms();
  }

  /** The machine run on an if over a literal: which branch has set the variable when it halts. */
  lemma MachineBranches(h: Host, v: Value, x: string, a: Value, b: Value, w: World, fuel: nat) returns (n: nat)
    ensures
      var program := If(Lit(v), Set(x, Lit(a)), Cons(Set(x, Lit(b)), Nil));
      var taken := if v == Void || v == Bool(false) then b else a;
      Run(h, Start(program, w), n, fuel) == Turn(Halted(w.(env := w.env[x := taken])), [])
  {
    hide Run;
    var t, els := Set(x, Lit(a)), Cons(Set(x, Lit(b)), Nil);
    SetMeans(h, x, a, w, 1);
    SetMeans(h, x, b, w, 1);
    OneForm(h, Set(x, Lit(b)), w, 1);
    TestsDecide(h, Lit(v), t, els, w, 1, v, w, []);
    AfterNothing(Mean(h, t, w, 1));
    AfterNothing(MeanSeq(h, els, w, 1));
    n := MachineMeets(h, If(Lit(v), t, els), w, 1, fuel);
  }

  lemma SetMeans(h: Host, x: string, a: Value, w: World, rounds: nat)
    ensures Compiled(Set(x, Lit(a))) && Mean(h, Set(x, Lit(a)), w, rounds) == Ok(a, w.(env := w.env[x := a]), [])
    ensures forall v :: Mean(h, Lit(v), w, rounds) == Ok(v, w, [])
  {
  }

  /** A run stops in one way only. */
  lemma StopsOnce(h: Host, c: Config, m: nat, n: nat, fuel: nat)
    requires !Run(h, c, m, fuel).c.Running? && m <= n
    ensures Run(h, c, n, fuel) == Run(h, c, m, fuel)
  {
    hide Run;
    RunAdd(h, c, m, n - m, fuel);
    StoppedStays(h, Run(h, c, m, fuel).c, n - m, fuel);
    var rows := Run(h, c, m, fuel).rows;
    assert rows + [] == rows;
  }

  /** Every run that stops is the run of the program's meaning. */
  lemma MeaningMeets(h: Host, program: Expr, w: World, n: nat, fuel: nat)
    requires Compiled(program) && !Run(h, Start(program, w), n, fuel).c.Running?
    ensures
      var o := Mean(h, program, w, n + 1);
      !o.Timeout? && Run(h, Start(program, w), n, fuel) == EndOf(o)
  {
    hide Run; hide Mean;
    var c := Start(program, w);
    var m := MachineMeets(h, program, w, n + 1, fuel);
    if m <= n {
      StopsIfDone(h, c, m, n, fuel);
    } else {
      StopsOnce(h, c, n, m, fuel);
    }
  }

  lemma StopsIfDone(h: Host, c: Config, m: nat, n: nat, fuel: nat)
    requires m <= n
    ensures !Run(h, c, m, fuel).c.Running? ==> Run(h, c, n, fuel) == Run(h, c, m, fuel)
  {
    hide Run;
    if !Run(h, c, m, fuel).c.Running? {
      StopsOnce(h, c, m, n, fuel);
    }
  }

  // ---- arguments that push frames ----

  /** The frames a value passes through before it meets a form to evaluate. */
  ghost function Lead(st: Stack): nat
  {
    if st.Bottom? || st.top.EvalFrame? then 0 else 1 + Lead(st.below)
  }

  /** Frames that took a value are gone, or make way for a form or for another round of a loop. */
  lemma {:induction false} Consumed(v: Value, w: World, st: Stack)
    requires Lead(st) > 0
    ensures
      var r := ProcessValue(v, w, st).st;
      && r != st
      && (Depth(r) < Depth(st) || (r.Push? && (r.top.EvalFrame? || r.top.WhileFrame?)))
    decreases st
  {
    var k := st.below;
    match st.top
    case WhenTest(body) =>
      if IsTruthy(v) && body.Nil? && Lead(k) > 0 {
        Consumed(v, w, k);
      }
    case SetFrame(x) =>
      if Lead(k) > 0 {
        Consumed(v, w.(env := w.env[x := v]), k);
      }
    case _ =>
  }

  /** A value leaves the stack it is handed to as it is if and only if a form or nothing is on top. */
  lemma HandedDown(v: Value, w: World, st: Stack)
    ensures ProcessValue(v, w, st).st == st <==> Lead(st) == 0
  {
    if Lead(st) > 0 {
      Consumed(v, w, st);
    }
  }

  /** The value of a binding form in an argument position goes to its own frame and then to whatever
      stands below: the argument is evaluated apart from the stack if and only if the stack's lead is
      empty. */
  lemma ArgumentApart(h: Host, x: string, s: Expr, v: Value, w: World, st: Stack, fuel: nat)
    requires Simple(s) && MeanSimple(h, s, w.env, w.calls).res == Done(v)
    ensures
      var a := MeanSimple(h, s, w.env, w.calls);
      var bound := World(w.env[x := v], a.calls);
      && EvalExpr(h, Set(x, s), w, st, fuel) == Ev(Done(v), w.(calls := a.calls), Push(SetFrame(x), st))
      && (ProcessValue(v, w.(calls := a.calls), Push(SetFrame(x), st)) == Resumed(bound, st) <==> Lead(st) == 0)
      && (Lead(st) == 0 ==> EvalFully(h, Set(x, s), w, st, fuel) == Ev(Done(v), bound, st))
  {
    SimpleAgrees(h, s, w, Push(SetFrame(x), st), fuel);
    var a := MeanSimple(h, s, w.env, w.calls);
    HandedDown(v, World(w.env[x := v], a.calls), st);
  }

  /** A stack of enclosing bindings. */
  function Bindings(ys: seq<string>, k: Stack): (st: Stack)
    ensures Depth(st) == |ys| + Depth(k)
  {
    if ys == [] then k else Push(SetFrame(ys[0]), Bindings(ys[1..], k))
  }

  function BindAll(ys: seq<string>, v: Value, env: map<string, Value>): (r: map<string, Value>)
  {
    if ys == [] then env else BindAll(ys[1..], v, env[ys[0] := v])
  }

  lemma {:induction false} BoundAll(ys: seq<string>, v: Value, env: map<string, Value>)
    ensures forall y :: y in ys ==> y in BindAll(ys, v, env) && BindAll(ys, v, env)[y] == v
    ensures forall y :: y in env && env[y] == v ==> y in BindAll(ys, v, env) && BindAll(ys, v, env)[y] == v
  {
    if ys != [] {
      BoundAll(ys[1..], v, env[ys[0] := v]);
    }
  }

  lemma {:induction false} PassesBindings(ys: seq<string>, v: Value, w: World, k: Stack)
    requires Lead(k) == 0
    ensures ProcessValue(v, w, Bindings(ys, k)) == Resumed(w.(env := BindAll(ys, v, w.env)), k)
    ensures Lead(Bindings(ys, k)) == |ys|
  {
    if ys != [] {
      PassesBindings(ys[1..], v, w.(env := w.env[ys[0] := v]), k);
    }
  }

  /** Under enclosing bindings such an argument uses them all up: each of them receives the argument. */
  lemma BindingsReceive(h: Host, x: string, s: Expr, v: Value, w: World, ys: seq<string>, k: Stack, fuel: nat)
    requires Simple(s) && MeanSimple(h, s, w.env, w.calls).res == Done(v) && Lead(k) == 0
    ensures
      var a := MeanSimple(h, s, w.env, w.calls);
      EvalFully(h, Set(x, s), w, Bindings(ys, k), fuel) == Ev(Done(v), World(BindAll(ys, v, w.env[x := v]), a.calls), k)
  {
    var a := MeanSimple(h, s, w.env, w.calls);
    var st := Bindings(ys, k);
    ArgumentApart(h, x, s, v, w, st, fuel);
    PassesBindings(ys, v, World(w.env[x := v], a.calls), k);
  }

  /** Outside the compiled programs: whatever is bound and called, the enclosing binding receives the
      argument, and so it holds the answer of the call if and only if the two are equal. */
  lemma NestedBindingLeaks(h: Host, y: string, f: string, x: string, s: Expr, v: Value, answer: Value, w: World, fuel: nat)
    requires Simple(s) && MeanSimple(h, s, w.env, w.calls).res == Done(v)
    requires h.call(MeanSimple(h, s, w.env, w.calls).calls + [HostCall(f, [v])]) == Answer(answer)
    ensures
      var program := Set(y, Call(f, Cons(Set(x, s), Nil)));
      var t := Run(h, Start(program, w), 1, fuel);
      && !Compiled(program) && t.c.Halted?
      && y in t.c.w.env && t.c.w.env[y] == v
      && (t.c.w.env[y] == answer <==> v == answer)
  {
    var arg := Set(x, s);
    var program := Set(y, Call(f, Cons(arg, Nil)));
    var a := MeanSimple(h, s, w.env, w.calls);
    var st := Push(SetFrame(y), Bottom);
    assert Bindings([y], Bottom) == st by { assert [y][1..] == []; }
    BindingsReceive(h, x, s, v, w, [y], Bottom, fuel);
    BoundAll([y], v, w.env[x := v]);
    var w1 := World(BindAll([y], v, w.env[x := v]), a.calls);
    assert [] + [v] == [v];
    var w2 := w1.(calls := a.calls + [HostCall(f, [v])]);
    assert EvalCall(h, f, Nil, [v], w1, Bottom, fuel) == Ev(Done(answer), w2, Bottom);
    assert EvalCall(h, f, Cons(arg, Nil), [], w, st, fuel) == Ev(Done(answer), w2, Bottom);
    assert EvalExpr(h, program, w, Bottom, fuel) == Ev(Done(answer), w2, Bottom);
    OneTurn(h, Start(program, w), Halted(w2), fuel);
    assert y in [y];
    assert !Simple(arg);
    assert !AllSimple(Cons(arg, Nil));
    assert !Compiled(Call(f, Cons(arg, Nil)));
  }

  // ---- sessions ----

  datatype Option<T> = None | Some(value: T)

  /** The rows of a result: yielded values that are lists. */
  function ListRows(vs: seq<Value>): (rows: seq<seq<Value>>)
  {
    if vs == [] then [] else (if vs[0].List? then [vs[0].items] else []) + ListRows(vs[1..])
  }

  /** Exactly the lists among the values, in their order: how many come before a value is how many lists do. */
  lemma {:induction false} ListRowsAre(vs: seq<Value>, i: nat)
    requires i < |vs|
    ensures |ListRows(vs[..i])| <= |ListRows(vs)|
    ensures vs[i].List? ==> |ListRows(vs[..i])| < |ListRows(vs)| && ListRows(vs)[|ListRows(vs[..i])|] == vs[i].items
    ensures ListRows(vs[..i + 1]) == ListRows(vs[..i]) + if vs[i].List? then [vs[i].items] else []
  {
    ListRowsSplit(vs[..i], vs[i..]);
    ListRowsSplit(vs[..i], [vs[i]]);
    assert vs == vs[..i] + vs[i..] && vs[..i + 1] == vs[..i] + [vs[i]];
    assert vs[i..] == [vs[i]] + vs[i + 1..];
    ListRowsCons(vs[i], vs[i + 1..]);
    ListRowsCons(vs[i], []);
    assert [vs[i]] + [] == [vs[i]];
  }

  lemma {:induction false} ListRowsSplit(a: seq<Value>, b: seq<Value>)
    ensures ListRows(a + b) == ListRows(a) + ListRows(b)
  {
    if a == [] {
      assert a + b == b;
    } else {
      ListRowsSplit(a[1..], b);
      assert a == [a[0]] + a[1..] && a + b == [a[0]] + (a[1..] + b);
      ListRowsCons(a[0], a[1..]);
      ListRowsCons(a[0], a[1..] + b);
    }
  }

  lemma ListRowsCons(v: Value, vs: seq<Value>)
    ensures ListRows([v] + vs) == (if v.List? then [v.items] else []) + ListRows(vs)
  {
    assert ([v] + vs)[1..] == vs;
  }

  class VmSession {
    const program: Expr
    const host: Host
    const argFuel: nat
    var w: World
    var stack: Stack
    var started: bool
    var done: bool
    /** A number of turns within which the run stops. */
    ghost var left: nat

    ghost function Here(): Config
      reads this
    {
      if done then Halted(w) else if started then Running(w, stack) else Start(program, w)
    }

    /** What is still to come. */
    ghost function Rest(): Turn
      reads this
    {
      Run(host, Here(), left, argFuel)
    }

    ghost predicate Valid()
      reads this
    {
      && !Rest().c.Running? && !Rest().c.Stuck?
      && (!started ==> stack.Bottom?)
    }

    /** A session over a program that comes to an end. */
    constructor (p: Expr, h: Host, w0: World, fuel: nat, ghost rounds: nat)
      requires Compiled(p) && !Mean(h, p, w0, rounds).Timeout?
      ensures Valid() && !done
      ensures Rest() == EndOf(Mean(h, p, w0, rounds))
    {
      hide Run; hide Mean;
      program, host, argFuel, w := p, h, fuel, w0;
      stack, started, done := Bottom, false, false;
      ghost var n := MachineMeets(h, p, w0, rounds, fuel);
      left := n;
    }

    /** Hands a value down the stack. */
    method Feed(v: Value)
      modifies this`w, this`stack
      ensures Resumed(w, stack) == ProcessValue(v, old(w), old(stack))
    {
      var going := true;
      while stack.Push? && !stack.top.EvalFrame? && going
        invariant going ==> ProcessValue(v, w, stack) == ProcessValue(v, old(w), old(stack))
        invariant !going ==> Resumed(w, stack) == ProcessValue(v, old(w), old(stack))
        decreases going, Lead(stack)
      {
        var fr := stack.top;
        stack := stack.below;
        match fr
        case WhenTest(body) =>
          if IsTruthy(v) {
            stack := Evals(body, stack);
          } else {
            stack := Push(EvalFrame(Lit(Void)), stack);
          }
        case IfTest(t, els) =>
          if IsTruthy(v) {
            stack := Push(EvalFrame(t), stack);
          } else if els.Nil? {
            stack := Push(EvalFrame(Lit(Void)), stack);
          } else {
            stack := Evals(els, stack);
          }
        case SetFrame(x) =>
          w := w.(env := w.env[x := v]);
        case WhileFrame(c, body, ran) =>
          if ran {
            stack := Push(EvalFrame(c), Push(WhileFrame(c, body, false), stack));
          } else if IsTruthy(v) {
            stack := Evals(body, Push(WhileFrame(c, body, true), stack));
          }
          going := false;
        case EvalFrame(_) =>
      }
    }

    /** Runs to the next row or to the end. */
    method EvalWithYield() returns (res: Res)
      requires Valid() && !done
      modifies this`w, this`stack, this`started, this`left
      ensures started
      ensures match res
        case Yield(row) =>
          Valid() && left < old(left) && old(Rest()) == Turn(Rest().c, [row] + Rest().rows)
        case Done(_) => old(Rest()) == Turn(Halted(w), [])
        case Fail(msg) => old(Rest()) == Turn(Crashed(msg, w), [])
        case OutOfFuel => false
    {
      hide EvalExpr; hide ProcessValue;
      if !started {
        started := true;
        stack := Push(EvalFrame(program), Bottom);
      }
      while stack.Push?
        invariant started && Valid() && Rest() == old(Rest()) && left <= old(left)
        decreases left
      {
        Unfold(host, Here(), left, argFuel);
        left := left - 1;
        var fr := stack.top;
        stack := stack.below;
        if fr.EvalFrame? {
          var step := EvalExpr(host, fr.e, w, stack, argFuel);
          w, stack := step.w, step.st;
          if !step.res.Done? {
            if step.res.Fail? {
              StoppedStays(host, Crashed(step.res.msg, w), left, argFuel);
            } else if step.res.OutOfFuel? {
              StoppedStays(host, Stuck, left, argFuel);
            }
            return step.res;
          }
          Feed(step.res.v);
          if stack.Bottom? {
            StoppedStays(host, Halted(w), left, argFuel);
            return step.res;
          }
        } else {
          stack := Push(fr, stack);
          Feed(Void);
        }
      }
      Unfold(host, Here(), left, argFuel);
      StoppedStays(host, Halted(w), left - 1, argFuel);
      return Done(Void);
    }

    /** Up to `maxRows` rows and whether more may follow. */
    method NextBatch(maxRows: int) returns (rows: seq<seq<Value>>, more: bool, err: Option<string>)
      requires Valid()
      modifies this
      ensures err.None? ==> Valid() && Rest().c == old(Rest().c)
      ensures err.None? ==> ListRows(old(Rest()).rows) == rows + ListRows(Rest().rows)
      ensures err.None? && more && maxRows > 0 ==> |rows| == maxRows
      ensures err.None? && !more && maxRows > 0 ==> done && Rest() == Turn(Halted(w), [])
      ensures err.Some? ==> rows == [] && !more && old(Rest()).c == Crashed(err.value, w)
      ensures maxRows == 0 ==> !more
    {
      hide Run; hide ListRows; hide Valid;
      rows, more, err := [], false, None;
      NoRows();
      if done || maxRows == 0 {
        if done {
          AtEnd();
        }
        return;
      }
      more := true;
      while |rows| < maxRows && more
        invariant Valid() && (more <==> !done)
        invariant Rest().c == old(Rest().c)
        invariant ListRows(old(Rest()).rows) == rows + ListRows(Rest().rows)
        invariant |rows| <= maxRows || rows == []
        invariant done ==> Rest() == Turn(Halted(w), [])
        decreases more, left
      {
        ghost var before := Rest();
        var step := EvalWithYield();
        match step
        case Yield(row) =>
          ListRowsCons(row, Rest().rows);
          if row.List? {
            rows := rows + [row.items];
          }
        case Fail(msg) =>
          return [], false, Some(msg);
        case Done(_) =>
          done := true;
          StoppedStays(host, Halted(w), left, argFuel);
          Finished();
          more := false;
        case OutOfFuel =>
      }
    }

    lemma AtEnd()
      requires Valid() && done
      ensures Rest() == Turn(Halted(w), [])
    {
      StoppedStays(host, Halted(w), left, argFuel);
    }

    lemma Finished()
      requires done && Rest() == Turn(Halted(w), [])
      requires started
      ensures Valid()
    {
    }
  }

  function Total(sizes: seq<nat>): (n: nat)
  {
    if sizes == [] then 0 else Total(sizes[..|sizes| - 1]) + sizes[|sizes| - 1]
  }

  /** Whatever the batch sizes, the batches of a program that ends well concatenate to its rows: when
      a batch says there is no more the answer is complete and the bindings are final, otherwise
      every batch was full. */
  method Stream(p: Expr, h: Host, w0: World, fuel: nat, sizes: seq<nat>, ghost rounds: nat)
    returns (all: seq<seq<Value>>, finished: bool, w: World)
    requires Compiled(p) && Mean(h, p, w0, rounds).Ok?
    requires forall n :: n in sizes ==> n > 0
    ensures all <= ListRows(Mean(h, p, w0, rounds).rows)
    ensures finished ==> all == ListRows(Mean(h, p, w0, rounds).rows) && w == Mean(h, p, w0, rounds).w
    ensures !finished ==> |all| == Total(sizes)
  {
    hide Mean; hide Run; hide ListRows; hide VmSession.Valid; hide VmSession.Rest;
    ghost var o := Mean(h, p, w0, rounds);
    var s := new VmSession(p, h, w0, fuel, rounds);
    all, finished := [], false;
    NoRows();
    for i := 0 to |sizes|
      invariant s.Valid() && s.Rest().c == Halted(o.w)
      invariant all + ListRows(s.Rest().rows) == ListRows(o.rows)
      invariant !finished ==> |all| == Total(sizes[..i])
      invariant finished ==> s.Rest() == Turn(Halted(s.w), [])
    {
      assert sizes[..i + 1][..i] == sizes[..i] && sizes[i] in sizes;
      if !finished {
        var rows, more, err := s.NextBatch(sizes[i]);
        all := all + rows;
        finished := !more;
      }
    }
    assert sizes[..|sizes|] == sizes;
    w := s.w;
  }

  lemma NoRows()
    ensures ListRows([]) == []
  {
  }

  /** A running configuration that stops within n turns takes at least one. */
  lemma Unfold(h: Host, c: Config, n: nat, fuel: nat)
    requires c.Running? && !Run(h, c, n, fuel).c.Running?
    ensures n > 0
    ensures
      var a := NextTurn(h, c, fuel);
      Run(h, c, n, fuel) == Turn(Run(h, a.c, n - 1, fuel).c, a.rows + Run(h, a.c, n - 1, fuel).rows)
  {
    hide NextTurn;
  }
}
