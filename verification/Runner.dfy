/** The single-flight runner of flushes and collections: clients raise a flag or queue a request, one
    goroutine at a time works them off. */
module Runner {

  /** A queued collection; an automatic one has nobody waiting for it. */
  datatype Req = Req(id: nat, auto: bool)

  /** Where the runner's loop stands, between two of its locked sections. */
  datatype Pc =
    | AtGc                 // about to take a queued collection
    | InGc(req: Req)       // running it
    | AtFlag               // about to take the flush flag
    | AtCapture            // a flush: about to capture,
    | AtPrepare            // to write the merged pages,
    | AtPublish            // to publish them,
    | AtAuto               // and to queue the collection that follows
    | AtGcAfter            // about to take a collection again
    | InGcAfter(req: Req)
    | AtExit               // about to decide whether to go round again

  datatype State = State(
    flushWant: bool,
    flushing: bool,
    gcQueue: seq<Req>,
    starts: nat,               // clients that decided to start a runner and have not yet
    runners: seq<Pc>,          // the running loops
    nextId: nat,
    requested: set<nat>,       // manual collections ever queued,
    completed: multiset<nat>,  // and how often each was answered
    unserved: nat              // flush requests since the flag was last taken
  )

  const IDLE := State(false, false, [], 0, [], 0, {}, multiset{}, 0)

  // ---- what clients do ----

  function RequestFlush(s: State): (r: State)
  {
    s.(flushWant := true, flushing := true, starts := s.starts + (if s.flushing then 0 else 1), unserved := s.unserved + 1)
  }

  predicate HasAuto(q: seq<Req>)
  {
    exists r :: r in q && r.auto
  }

  /** Queues a collection; an automatic one is dropped when one is pending already. */
  function RequestGc(s: State, auto: bool): (r: State)
  {
    if auto && HasAuto(s.gcQueue) then s
    else
      s.(gcQueue := s.gcQueue + [Req(s.nextId, auto)],
         nextId := s.nextId + 1,
         requested := if auto then s.requested else s.requested + {s.nextId},
         flushing := true,
         starts := s.starts + if s.flushing then 0 else 1)
  }

  /** A client that found the runner idle starts its goroutine. */
  function Spawn(s: State): (r: State)
    requires s.starts > 0
  {
    s.(starts := s.starts - 1, runners := s.runners + [AtGc])
  }

  // ---- what the runner does ----

  function TakeGc(s: State, i: nat, after: bool): (r: State)
    requires i < |s.runners|
  {
    if s.gcQueue == [] then s.(runners := s.runners[i := if after then AtExit else AtFlag])
    else
      var req := s.gcQueue[0];
      s.(gcQueue := s.gcQueue[1..], runners := s.runners[i := if after then InGcAfter(req) else InGc(req)])
  }

  /** Whatever became of the pass, its requester is told once. */
  function FinishGc(s: State, i: nat, req: Req, next: Pc): (r: State)
    requires i < |s.runners|
  {
    s.(completed := if req.auto then s.completed else s.completed + multiset{req.id}, runners := s.runners[i := next])
  }

  /** One step of runner i.  `ok` is whether a capture or a prepare succeeds. */
  function RunnerStep(s: State, i: nat, ok: bool): (r: State)
    requires i < |s.runners|
  {
    match s.runners[i]
    case AtGc => TakeGc(s, i, false)
    case InGc(req) => FinishGc(s, i, req, AtFlag)
    case AtFlag =>
      s.(flushWant := false, unserved := 0, runners := s.runners[i := if s.flushWant then AtCapture else AtExit])
    case AtCapture => s.(runners := s.runners[i := if ok then AtPrepare else AtGcAfter])
    case AtPrepare => s.(runners := s.runners[i := if ok then AtPublish else AtGcAfter])
    case AtPublish => s.(runners := s.runners[i := AtAuto])
    case AtAuto => var t := RequestGc(s, true); t.(runners := s.runners[i := AtGcAfter])
    case AtGcAfter => TakeGc(s, i, true)
    case InGcAfter(req) => FinishGc(s, i, req, AtExit)
    case AtExit =>
      if !s.flushWant && s.gcQueue == [] then s.(flushing := false, runners := s.runners[..i] + s.runners[i + 1..])
      else s.(runners := s.runners[i := AtGc])
  }

  datatype Event = FlushRequested | GcRequested(auto: bool) | Started | Worked(i: nat, ok: bool)

  predicate Enabled(s: State, e: Event)
  {
    match e
    case Started => s.starts > 0
    case Worked(i, _) => i < |s.runners|
    case _ => true
  }

  function Next(s: State, e: Event): (r: State)
    requires Enabled(s, e)
  {
    match e
    case FlushRequested => RequestFlush(s)
    case GcRequested(auto) => RequestGc(s, auto)
    case Started => Spawn(s)
    case Worked(i, ok) => RunnerStep(s, i, ok)
  }

  // ---- what always holds ----

  function Underway(pc: Pc): (ids: set<nat>)
  {
    match pc
    case InGc(req) => if req.auto then {} else {req.id}
    case InGcAfter(req) => if req.auto then {} else {req.id}
    case _ => {}
  }

  function Waiting(q: seq<Req>): (ids: set<nat>)
  {
    set r | r in q && !r.auto :: r.id
  }

  ghost predicate DistinctIds(q: seq<Req>)
  {
    forall i, j :: 0 <= i < j < |q| ==> q[i].id != q[j].id
  }

  /** One runner at most, present or about to start, exactly while `flushing`; work pending means there
      is one; a flush request not yet taken keeps the flag up; every manual collection is waiting,
      underway or answered, and answered once. */
  ghost predicate Inv(s: State)
  {
    && s.starts + |s.runners| == (if s.flushing then 1 else 0)
    && (s.flushWant || s.gcQueue != [] ==> s.flushing)
    && (s.unserved > 0 ==> s.flushWant)
    && DistinctIds(s.gcQueue) && (forall r :: r in s.gcQueue ==> r.id < s.nextId)
    && (forall id :: id in s.requested ==> id < s.nextId)
    && Accounted(s)
  }

  ghost predicate Accounted(s: State)
  {
    var underway := if s.runners == [] then {} else Underway(s.runners[0]);
    && Waiting(s.gcQueue) !! underway
    && (forall id :: id in Waiting(s.gcQueue) + underway ==> id in s.requested && id !in s.completed)
    && (forall id :: id in s.requested <==> id in Waiting(s.gcQueue) + underway || id in s.completed)
    && (forall id :: s.completed[id] <= 1)
    && (s.runners != [] && s.runners[0].InGc? ==> s.runners[0].req !in s.gcQueue && s.runners[0].req.id < s.nextId)
    && (s.runners != [] && s.runners[0].InGcAfter? ==> s.runners[0].req !in s.gcQueue && s.runners[0].req.id < s.nextId)
  }

  lemma StartsIdle()
    ensures Inv(IDLE)
  {
  }

  lemma FlushKeeps(s: State)
    requires Inv(s)
    ensures Inv(RequestFlush(s))
  {
  }

  lemma WaitingAppend(q: seq<Req>, r: Req)
    ensures Waiting(q + [r]) == Waiting(q) + (if r.auto then {} else {r.id})
  {
    assert forall x :: x in q + [r] <==> x in q || x == r;
  }

  lemma GcKeeps(s: State, auto: bool)
    requires Inv(s)
    ensures Inv(RequestGc(s, auto))
  {
    var r := Req(s.nextId, auto);
    WaitingAppend(s.gcQueue, r);
    var q := s.gcQueue + [r];
    forall i, j | 0 <= i < j < |q|
      ensures q[i].id != q[j].id
    {
      if j == |s.gcQueue| {
        assert q[i] in s.gcQueue;
      }
    }
  }

  lemma SpawnKeeps(s: State)
    requires Inv(s) && s.starts > 0
    ensures Inv(Spawn(s))
  {
  }

  lemma WaitingHead(q: seq<Req>)
    requires q != [] && DistinctIds(q)
    ensures Waiting(q) == Waiting(q[1..]) + (if q[0].auto then {} else {q[0].id})
    ensures q[0].id !in Waiting(q[1..]) && q[0] !in q[1..] && DistinctIds(q[1..])
    ensures forall r :: r in q[1..] ==> r in q
  {
    var rest := q[1..];
    assert q == [q[0]] + rest;
    forall r | r in rest
      ensures r.id != q[0].id
    {
      var j :| 0 <= j < |rest| && rest[j] == r;
      assert q[j + 1] == r;
    }
  }

  lemma TakeKeeps(s: State, i: nat, after: bool)
    requires Inv(s) && i < |s.runners| && s.runners[i] == (if after then AtGcAfter else AtGc)
    ensures Inv(TakeGc(s, i, after))
  {
    hide DistinctIds; hide Waiting;
    OnlyRunner(s, i);
    if s.gcQueue != [] {
      WaitingHead(s.gcQueue);
      assert s.gcQueue[0] in s.gcQueue;
    }
  }

  lemma FinishKeeps(s: State, i: nat, req: Req, next: Pc)
    requires Inv(s) && i < |s.runners| && (s.runners[i] == InGc(req) || s.runners[i] == InGcAfter(req))
    requires Underway(next) == {} && !next.InGc? && !next.InGcAfter?
    ensures Inv(FinishGc(s, i, req, next))
  {
    assert i == 0 && |s.runners| == 1;
    assert !req.auto ==> req.id in Underway(s.runners[0]);
  }

  lemma AutoKeeps(s: State, i: nat)
    requires Inv(s) && i < |s.runners| && s.runners[i].AtAuto?
    ensures Inv(RequestGc(s, true).(runners := s.runners[i := AtGcAfter]))
  {
    assert i == 0 && |s.runners| == 1;
    GcKeeps(s, true);
  }

  /** Moving on inside the loop, with or without taking the flag. */
  lemma MoveKeeps(s: State, pc: Pc)
    requires Inv(s) && |s.runners| == 1 && Underway(s.runners[0]) == {} && Underway(pc) == {}
    requires !pc.InGc? && !pc.InGcAfter?
    ensures Inv(s.(runners := [pc]))
    ensures Inv(s.(runners := [pc], flushWant := false, unserved := 0))
  {
  }

  lemma ExitKeeps(s: State)
    requires Inv(s) && s.runners == [AtExit] && !s.flushWant && s.gcQueue == []
    ensures Inv(s.(flushing := false, runners := []))
  {
  }

  /** There is never more than one runner to step. */
  lemma OnlyRunner(s: State, i: nat)
    requires Inv(s) && i < |s.runners|
    ensures i == 0 && s.runners == [s.runners[0]]
    ensures forall pc :: s.runners[0 := pc] == [pc]
    ensures s.runners[..0] + s.runners[1..] == []
  {
  }

  lemma StepKeeps(s: State, i: nat, ok: bool)
    requires Inv(s) && i < |s.runners|
    ensures Inv(RunnerStep(s, i, ok))
  {
    hide Inv; hide TakeGc; hide FinishGc; hide RequestGc;
    OnlyRunner(s, i);
    match s.runners[0]
    case AtGc => TakeKeeps(s, i, false);
    case InGc(req) => FinishKeeps(s, i, req, AtFlag);
    case AtFlag => MoveKeeps(s, if s.flushWant then AtCapture else AtExit);
    case AtCapture => MoveKeeps(s, if ok then AtPrepare else AtGcAfter);
    case AtPrepare => MoveKeeps(s, if ok then AtPublish else AtGcAfter);
    case AtPublish => MoveKeeps(s, AtAuto);
    case AtAuto => AutoKeeps(s, i);
    case AtGcAfter => TakeKeeps(s, i, true);
    case InGcAfter(req) => FinishKeeps(s, i, req, AtExit);
    case AtExit =>
      if !s.flushWant && s.gcQueue == [] {
        ExitKeeps(s);
      } else {
        MoveKeeps(s, AtGc);
      }
  }

  /** Every step of every participant keeps the invariant. */
  lemma NextKeeps(s: State, e: Event)
    requires Inv(s) && Enabled(s, e)
    ensures Inv(Next(s, e))
  {
    hide Inv;
    match e
    case FlushRequested => FlushKeeps(s);
    case GcRequested(auto) => GcKeeps(s, auto);
    case Started => SpawnKeeps(s);
    case Worked(i, ok) => StepKeeps(s, i, ok);
  }

  /** Clients can ask at any time, and while there is work or a runner, someone can step. */
  lemma SomeoneCanStep(s: State, auto: bool, ok: bool)
    requires Inv(s)
    ensures Enabled(s, FlushRequested) && Enabled(s, GcRequested(auto))
    ensures s.flushing || s.flushWant || s.gcQueue != [] ==> Enabled(s, Started) || Enabled(s, Worked(0, ok))
    ensures s.runners != [] ==> Enabled(s, Worked(0, ok))
  {
  }

  // ---- whole runs ----

  ghost predicate IsRun(s: State, events: seq<Event>, t: State)
    decreases |events|
  {
    if events == [] then s == t
    else Enabled(s, events[0]) && IsRun(Next(s, events[0]), events[1..], t)
  }

  /** In every run from idle: at most one runner; pending work has one; when nobody runs every flush
      request was taken and every manual collection was answered exactly once. */
  lemma {:induction false} RunsAreSafe(s: State, events: seq<Event>, t: State)
    requires Inv(s) && IsRun(s, events, t)
    ensures Inv(t) && |t.runners| <= 1
    ensures t.flushWant || t.gcQueue != [] ==> t.starts + |t.runners| == 1
    ensures !t.flushing ==> t.unserved == 0 && forall id :: id in t.requested ==> t.completed[id] == 1
    decreases |events|
  {
    if events == [] {
      Settled(t);
    } else {
      NextKeeps(s, events[0]);
      RunsAreSafe(Next(s, events[0]), events[1..], t);
    }
  }

  lemma Settled(s: State)
    requires Inv(s)
    ensures !s.flushing ==> s.unserved == 0 && forall id :: id in s.requested ==> s.completed[id] == 1
  {
    if !s.flushing {
      assert s.runners == [] && s.gcQueue == [];
    }
  }

  // ---- what becomes of a request, whoever steps in between ----

  /** There is a runner and it stands there. */
  predicate Stands(s: State, pc: Pc)
  {
    |s.runners| == 1 && s.runners[0] == pc
  }

  /** Some step of the run brings the runner to such a position. */
  ghost predicate Enters(s: State, events: seq<Event>, at: Pc -> bool)
    decreases |events|
  {
    events != [] && Enabled(s, events[0]) &&
    var next := Next(s, events[0]);
    || (|next.runners| == 1 && at(next.runners[0]) && next.runners != s.runners)
    || Enters(next, events[1..], at)
  }

  /** What the runner's own steps of a run meet: whether each capture or prepare succeeds. */
  function Own(events: seq<Event>): (oks: seq<bool>)
  {
    if events == [] then []
    else (if events[0].Worked? then [events[0].ok] else []) + Own(events[1..])
  }

  predicate Capturing(pc: Pc)
  {
    pc == AtCapture
  }

  predicate Collecting(pc: Pc)
  {
    pc.InGc? || pc.InGcAfter?
  }

  predicate CollectingAuto(pc: Pc)
  {
    Collecting(pc) && pc.req.auto
  }

  /** A raised flag leads to a capture before the runner is gone. */
  lemma {:induction false} FlagIsServed(s: State, events: seq<Event>, t: State)
    requires Inv(s) && s.flushWant && IsRun(s, events, t) && !t.flushing
    ensures Enters(s, events, Capturing)
    decreases |events|
  {
    hide Accounted; hide DistinctIds; hide HasAuto;
    if events != [] {
      NextKeeps(s, events[0]);
      if Next(s, events[0]).flushWant {
        FlagIsServed(Next(s, events[0]), events[1..], t);
      } else {
        OnlyRunner(s, events[0].i);
      }
    }
  }

  /** So does every request, however late: each one is followed by a capture begun after it. */
  lemma {:induction false} EveryFlushIsServed(s: State, before: seq<Event>, after: seq<Event>, t: State)
    requires Inv(s) && IsRun(s, before + [FlushRequested] + after, t) && !t.flushing
    ensures exists m :: IsRun(s, before + [FlushRequested], m) && IsRun(m, after, t) && Enters(m, after, Capturing)
  {
    hide Inv; hide Enters; hide Next;
    var asked := before + [FlushRequested];
    var m := SplitRun(s, asked, after, t);
    RunsAreSafe(s, asked, m);
    AskedStays(s, before, m);
    FlagIsServed(m, after, t);
  }

  lemma {:induction false} AskedStays(s: State, before: seq<Event>, m: State)
    requires IsRun(s, before + [FlushRequested], m)
    ensures m.flushWant
    decreases |before|
  {
    hide Inv;
    var asked := before + [FlushRequested];
    if before == [] {
      assert asked[1..] == [];
    } else {
      assert asked[1..] == before[1..] + [FlushRequested];
      AskedStays(Next(s, before[0]), before[1..], m);
    }
  }

  lemma {:induction false} SplitRun(s: State, a: seq<Event>, b: seq<Event>, t: State) returns (m: State)
    requires IsRun(s, a + b, t)
    ensures IsRun(s, a, m) && IsRun(m, b, t)
    decreases |a|
  {
    hide Next;
    if a == [] {
      assert a + b == b;
      m := s;
    } else {
      assert (a + b)[1..] == a[1..] + b;
      m := SplitRun(Next(s, a[0]), a[1..], b, t);
    }
  }

  /** Nobody but the runner moves it, takes from its queue or lowers its flag. */
  lemma OthersOnlyAdd(s: State, e: Event)
    requires Inv(s) && Enabled(s, e) && !e.Worked? && |s.runners| == 1
    ensures Next(s, e).runners == s.runners && s.gcQueue <= Next(s, e).gcQueue
    ensures s.flushWant ==> Next(s, e).flushWant
  {
    hide Accounted; hide DistinctIds;
  }

  /** A capture and a prepare that succeed are published. */
  lemma {:induction false} CapturedIsPublished(s: State, events: seq<Event>, t: State)
    requires Inv(s) && IsRun(s, events, t)
    requires (Stands(s, AtCapture) && |Own(events)| == 2 && false !in Own(events)) || (Stands(s, AtPrepare) && |Own(events)| == 1 && false !in Own(events))
      || (Stands(s, AtPublish) && Own(events) == [])
    ensures Stands(t, AtPublish)
    decreases |events|
  {
    hide Inv;
    if events != [] {
      NextKeeps(s, events[0]);
      if events[0].Worked? {
        OnlyRunner(s, events[0].i);
        assert events[0].ok == Own(events)[0] && Own(events[1..]) == Own(events)[1..];
      } else {
        OthersOnlyAdd(s, events[0]);
        assert Own(events[1..]) == Own(events);
      }
      CapturedIsPublished(Next(s, events[0]), events[1..], t);
    }
  }

  /** Along the run the runner was about to capture, and then a capture and a prepare succeeded. */
  ghost predicate Prepared(s: State, events: seq<Event>)
    decreases |events|
  {
    || (Stands(s, AtCapture) && |Own(events)| == 2 && false !in Own(events))
    || (events != [] && Enabled(s, events[0]) && Prepared(Next(s, events[0]), events[1..]))
  }

  /** And nothing else is published. */
  lemma {:induction false} PublishedWasPrepared(s: State, events: seq<Event>, t: State)
    requires Inv(s) && IsRun(s, events, t) && Stands(t, AtPublish)
    ensures Prepared(s, events) || (Stands(s, AtPrepare) && |Own(events)| == 1 && false !in Own(events))
      || (Stands(s, AtPublish) && Own(events) == [])
    decreases |events|
  {
    hide Inv; hide Next;
    if events != [] {
      NextKeeps(s, events[0]);
      PublishedWasPrepared(Next(s, events[0]), events[1..], t);
      IntoPublish(s, events[0]);
    }
  }

  lemma IntoPublish(s: State, e: Event)
    requires Inv(s) && Enabled(s, e)
    ensures Stands(Next(s, e), AtPublish) ==> if e.Worked? then e.ok && Stands(s, AtPrepare) else Stands(s, AtPublish)
    ensures Stands(Next(s, e), AtPrepare) ==> if e.Worked? then e.ok && Stands(s, AtCapture) else Stands(s, AtPrepare)
  {
    hide Inv;
    if e.Worked? {
      OnlyRunner(s, e.i);
    } else if |s.runners| == 1 {
      OthersOnlyAdd(s, e);
    } else {
      NoneYet(s, e);
    }
  }

  lemma NoneYet(s: State, e: Event)
    requires Inv(s) && Enabled(s, e) && !e.Worked? && |s.runners| != 1
    ensures Next(s, e).runners == [] || Next(s, e).runners[0] == AtGc
  {
    hide Accounted; hide DistinctIds; hide HasAuto;
  }

  /** A publish leaves an automatic collection in the queue as the runner turns to collecting. */
  lemma {:induction false} PublishQueues(s: State, events: seq<Event>, t: State)
    requires Inv(s) && IsRun(s, events, t)
    requires (Stands(s, AtPublish) && |Own(events)| == 2) || (Stands(s, AtAuto) && |Own(events)| == 1)
      || (Stands(s, AtGcAfter) && |Own(events)| == 0 && HasAuto(s.gcQueue))
    ensures Stands(t, AtGcAfter) && HasAuto(t.gcQueue)
    decreases |events|
  {
    hide Inv;
    if events != [] {
      NextKeeps(s, events[0]);
      if events[0].Worked? {
        OnlyRunner(s, events[0].i);
        if Stands(s, AtAuto) {
          AutoQueued(s);
        }
      } else {
        OthersOnlyAdd(s, events[0]);
        MoreKeepsAuto(s.gcQueue, Next(s, events[0]).gcQueue);
      }
      PublishQueues(Next(s, events[0]), events[1..], t);
    }
  }

  lemma AutoQueued(s: State)
    ensures HasAuto(RequestGc(s, true).gcQueue)
  {
    if !HasAuto(s.gcQueue) {
      var r := Req(s.nextId, true);
      assert r in s.gcQueue + [r];
    }
  }

  lemma MoreKeepsAuto(q: seq<Req>, more: seq<Req>)
    requires q <= more
    ensures HasAuto(q) ==> HasAuto(more)
  {
    if HasAuto(q) {
      var r :| r in q && r.auto;
      var i :| 0 <= i < |q| && q[i] == r;
      assert more[i] == r;
    }
  }

  /** The runner is about to take this collection, or took it with the step it had. */
  ghost predicate Takes(s: State, req: Req, steps: nat)
  {
    |s.runners| == 1 &&
    if Collecting(s.runners[0]) then s.runners[0].req == req && steps == 0
    else (Stands(s, AtGc) || Stands(s, AtGcAfter)) && s.gcQueue != [] && s.gcQueue[0] == req && steps == 1
  }

  /** Before a flush and after one the runner takes the oldest request.  So the collection queued by a
      publish is the one taken in the same round unless a manual one was queued before it. */
  lemma {:induction false} OldestIsTaken(s: State, events: seq<Event>, t: State, req: Req)
    requires Inv(s) && IsRun(s, events, t) && Takes(s, req, |Own(events)|)
    ensures |t.runners| == 1 && Collecting(t.runners[0]) && t.runners[0].req == req
    decreases |events|
  {
    hide Inv;
    if events != [] {
      NextKeeps(s, events[0]);
      if events[0].Worked? {
        OnlyRunner(s, events[0].i);
      } else {
        OthersOnlyAdd(s, events[0]);
      }
      OldestIsTaken(Next(s, events[0]), events[1..], t, req);
    }
  }

  /** An automatic collection due: pending, or about to be queued by a publish under way. */
  ghost predicate AutoDue(s: State)
  {
    HasAuto(s.gcQueue) || Stands(s, AtPublish) || Stands(s, AtAuto)
  }

  /** Every publish is followed by an automatic collection before the runner is gone. */
  lemma {:induction false} PublishIsCollected(s: State, events: seq<Event>, t: State)
    requires Inv(s) && AutoDue(s) && IsRun(s, events, t) && !t.flushing
    ensures Enters(s, events, CollectingAuto)
    decreases |events|
  {
    hide Accounted; hide DistinctIds;
    if events != [] {
      NextKeeps(s, events[0]);
      DueStays(s, events[0]);
      if AutoDue(Next(s, events[0])) {
        PublishIsCollected(Next(s, events[0]), events[1..], t);
      }
    }
  }

  lemma DueStays(s: State, e: Event)
    requires Inv(s) && AutoDue(s) && Enabled(s, e)
    ensures var next := Next(s, e);
      AutoDue(next) || (|next.runners| == 1 && CollectingAuto(next.runners[0]) && next.runners != s.runners)
  {
    hide Accounted; hide DistinctIds;
    match e
    case FlushRequested =>
    case GcRequested(auto) => MoreKeepsAuto(s.gcQueue, Next(s, e).gcQueue);
    case Started =>
    case Worked(i, ok) =>
      OnlyRunner(s, i);
      if s.runners[0] == AtAuto {
        AutoQueued(s);
      } else if s.gcQueue != [] && !s.gcQueue[0].auto && HasAuto(s.gcQueue) {
        LaterAuto(s.gcQueue);
      }
  }

  lemma LaterAuto(q: seq<Req>)
    requires q != [] && HasAuto(q) && !q[0].auto
    ensures HasAuto(q[1..])
  {
    var r :| r in q && r.auto;
    var i :| 0 <= i < |q| && q[i] == r;
    assert q[1..][i - 1] == r;
  }

  /** Collections are taken oldest first, and before a flush: a runner that is not yet started, or between
      its rounds, gets no further before the first queued request was underway. */
  lemma {:induction false} CollectionsGoFirst(s: State, events: seq<Event>, t: State)
    requires Inv(s) && s.gcQueue != [] && (s.runners == [] || Stands(s, AtGc) || Stands(s, AtExit))
    requires IsRun(s, events, t)
    ensures Enters(s, events, pc => pc == InGc(s.gcQueue[0])) || t.runners == [] || Stands(t, AtGc) || Stands(t, AtExit)
    decreases |events|
  {
    FirstIsTaken(s, events, t, pc => pc == InGc(s.gcQueue[0]));
  }

  lemma {:induction false} FirstIsTaken(s: State, events: seq<Event>, t: State, taken: Pc -> bool)
    requires Inv(s) && s.gcQueue != [] && (s.runners == [] || Stands(s, AtGc) || Stands(s, AtExit))
    requires IsRun(s, events, t) && taken(InGc(s.gcQueue[0]))
    ensures Enters(s, events, taken) || t.runners == [] || Stands(t, AtGc) || Stands(t, AtExit)
    decreases |events|
  {
    hide Inv; hide Next;
    if events != [] {
      NextKeeps(s, events[0]);
      FirstStays(s, events[0]);
      if !Stands(Next(s, events[0]), InGc(s.gcQueue[0])) {
        FirstIsTaken(Next(s, events[0]), events[1..], t, taken);
      }
    }
  }

  lemma FirstStays(s: State, e: Event)
    requires Inv(s) && Enabled(s, e) && s.gcQueue != [] && (s.runners == [] || Stands(s, AtGc) || Stands(s, AtExit))
    ensures var next := Next(s, e);
      || Stands(next, InGc(s.gcQueue[0]))
      || (next.gcQueue != [] && next.gcQueue[0] == s.gcQueue[0]
          && (next.runners == [] || Stands(next, AtGc) || Stands(next, AtExit)))
  {
    hide Accounted; hide DistinctIds; hide HasAuto;
    if e.Worked? {
      OnlyRunner(s, e.i);
    }
  }

  /** One automatic collection is pending at most. */
  ghost predicate OneAuto(q: seq<Req>)
  {
    forall i, j :: 0 <= i < j < |q| ==> !(q[i].auto && q[j].auto)
  }

  lemma {:induction false} AutosCoalesce(s: State, events: seq<Event>, t: State)
    requires OneAuto(s.gcQueue) && IsRun(s, events, t)
    ensures OneAuto(t.gcQueue)
    decreases |events|
  {
    hide Next;
    if events != [] {
      OneAutoStays(s, events[0]);
      AutosCoalesce(Next(s, events[0]), events[1..], t);
    }
  }

  lemma OneAutoStays(s: State, e: Event)
    requires OneAuto(s.gcQueue) && Enabled(s, e)
    ensures OneAuto(Next(s, e).gcQueue)
  {
    hide RequestGc;
    RequestKeepsOne(s, true);
    RequestKeepsOne(s, false);
  }

  lemma RequestKeepsOne(s: State, auto: bool)
    requires OneAuto(s.gcQueue)
    ensures OneAuto(RequestGc(s, auto).gcQueue)
  {
    assert forall k :: 0 <= k < |s.gcQueue| ==> s.gcQueue[k] in s.gcQueue;
  }

  function Manual(events: seq<Event>): (n: nat)
  {
    if events == [] then 0 else (if events[0] == GcRequested(false) then 1 else 0) + Manual(events[1..])
  }

  /** Every manual request is queued, never merged with another: all that were asked for are counted. */
  lemma {:induction false} ManualsAreQueued(s: State, events: seq<Event>, t: State)
    requires Inv(s) && IsRun(s, events, t)
    ensures |t.requested| == |s.requested| + Manual(events)
    decreases |events|
  {
    hide Inv; hide Next;
    if events != [] {
      NextKeeps(s, events[0]);
      OneMore(s, events[0]);
      ManualsAreQueued(Next(s, events[0]), events[1..], t);
    }
  }

  lemma OneMore(s: State, e: Event)
    requires Inv(s) && Enabled(s, e)
    ensures |Next(s, e).requested| == |s.requested| + (if e == GcRequested(false) then 1 else 0)
  {
    hide Accounted; hide DistinctIds; hide HasAuto;
    if e == GcRequested(false) {
      assert s.nextId !in s.requested;
    } else {
      assert Next(s, e).requested == s.requested;
    }
  }

  // ---- the loop ends ----

  /** Work left: the flag counts double because a flush queues a collection. */
  function Work(s: State): (n: nat)
    requires |s.runners| > 0
  {
    (if s.flushWant then 2 else 0) + |s.gcQueue|
    + if s.runners[0].AtCapture? || s.runners[0].AtPrepare? || s.runners[0].AtPublish? || s.runners[0].AtAuto? then 1 else 0
  }

  /** How far the loop is from its end if nobody asks for more. */
  function Rank(s: State): (n: nat)
    requires |s.runners| > 0
  {
    var w := Work(s);
    20 * w + match s.runners[0]
      case AtGc => if w == 0 then 12 else 9
      case InGc(_) => 15
      case AtFlag => if s.flushWant then 8 else 11
      case AtCapture => 19
      case AtPrepare => 18
      case AtPublish => 17
      case AtAuto => 16
      case AtGcAfter => 14
      case InGcAfter(_) => 13
      case AtExit => 10
  }

  /** Left alone, every step of the runner brings it closer to its end. */
  lemma RunnerProgress(s: State, ok: bool)
    requires Inv(s) && |s.runners| > 0
    ensures var t := RunnerStep(s, 0, ok); t.starts == s.starts && (t.runners == [] || Rank(t) < Rank(s))
  {
    hide Accounted; hide DistinctIds; hide HasAuto;
    OnlyRunner(s, 0);
  }

  function Steps(n: nat, oks: nat -> bool): (events: seq<Event>)
  {
    seq(n, k requires 0 <= k < n => Worked(0, oks(k)))
  }

  lemma {:induction false} RunAppend(s: State, events: seq<Event>, m: State, e: Event)
    requires IsRun(s, events, m) && Enabled(m, e)
    ensures IsRun(s, events + [e], Next(m, e))
    decreases |events|
  {
    hide Next;
    if events == [] {
      assert (events + [e])[1..] == [];
    } else {
      assert (events + [e])[1..] == events[1..] + [e];
      RunAppend(Next(s, events[0]), events[1..], m, e);
    }
  }

  /** The runner's loop with nobody else stepping in: it ends, with nothing left to do.  A raised flag was
      flushed, a publish under way was collected after. */
  method FlushLoop(s: State, oks: nat -> bool) returns (t: State, n: nat)
    requires Inv(s) && |s.runners| == 1
    ensures Inv(t) && !t.flushing && !t.flushWant && t.gcQueue == []
    ensures IsRun(s, Steps(n, oks), t)
    ensures s.flushWant ==> Enters(s, Steps(n, oks), Capturing)
    ensures AutoDue(s) ==> Enters(s, Steps(n, oks), CollectingAuto)
  {
    hide RunnerStep; hide Accounted; hide DistinctIds; hide Rank; hide Enters;
    t := s;
    n := 0;
    while t.runners != []
      invariant Inv(t) && t.starts == 0
      invariant IsRun(s, Steps(n, oks), t)
      decreases if t.runners == [] then 0 else 1 + Rank(t)
    {
      RunnerProgress(t, oks(n));
      StepKeeps(t, 0, oks(n));
      RunAppend(s, Steps(n, oks), t, Worked(0, oks(n)));
      assert Steps(n + 1, oks) == Steps(n, oks) + [Worked(0, oks(n))];
      t := RunnerStep(t, 0, oks(n));
      n := n + 1;
    }
    if s.flushWant {
      FlagIsServed(s, Steps(n, oks), t);
    }
    if AutoDue(s) {
      PublishIsCollected(s, Steps(n, oks), t);
    }
  }

  /** No collection runs while a runner is between capturing and publishing a flush. */
  lemma NoOverlap(s: State, i: nat, j: nat)
    requires Inv(s) && i < |s.runners| && j < |s.runners| && (s.runners[i] == AtPrepare || s.runners[i] == AtPublish)
    ensures !Collecting(s.runners[j])
  {
  }
}
