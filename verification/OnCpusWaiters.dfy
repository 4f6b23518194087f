/** Who waits on whom: the waiters masks are exact, so the deadlock check reports only what is there, and nothing
    stalls without being reported. */
module OnCpusWaiters {
  import opened Basics
  import opened Deadlock
  import opened OnCpus
  import opened OnCpusCalls
  import opened OnCpusProof

  /** The CPUs that a frame has its CPU registered on: the one cpu_wait spins on, or those on_cpumask waits for. */
  function WaitSet(f: Frame, me: nat): (cs: set<nat>) {
    if f.User? then {}
    else
      match f.ph
      case Send(t, at) => if at.Spin? || at.ClearWaiter? then {t} else {}
      case Register(done) => done
      case Await(_) => Others(f, me)
      case Deregister(left) => left
      case _ => {}
  }

  function WaitSetOf(s: State, me: nat): (cs: set<nat>) {
    if HasTop(s, me) then WaitSet(Top(s, me), me) else {}
  }

  /** A CPU stands in exactly the waiters masks of the CPUs it waits on. */
  ghost predicate Exactly(s: State, me: nat) {
    forall c :: 0 <= c < |s.cpus| ==> (me in s.cpus[c].waiters <==> c in WaitSetOf(s, me))
  }

  /** A CPU that has been started, or is running something. */
  predicate HasCode(x: Cpu) {
    x.loop != Off || x.stack != []
  }

  /** Whoever is sent something has been started. */
  ghost predicate TargetStarted(s: State, me: nat) {
    InCall(s, me) && Top(s, me).ph.Send? ==>
      Top(s, me).ph.target < |s.cpus| && HasCode(s.cpus[Top(s, me).ph.target])
  }

  ghost predicate WaitersOk(s: State) {
    forall m: nat :: Exactly(s, m) && TargetStarted(s, m)
  }

  // ----- Steps -----

  /** No CPU touches the bit of another, or stops one. */
  lemma OthersBits(s: State, who: nat, a: Action, m: nat, c: nat)
    requires Inv(s) && Enabled(s, who, a) && m != who && c < |s.cpus|
    ensures c < |Apply(s, who, a).cpus| && (m in Apply(s, who, a).cpus[c].waiters <==> m in s.cpus[c].waiters)
  {
    hide WaitGraph, WaitsOn, Inv, ApplySend;
    if a.SendStep? {
      OthersSendBits(s, who, m, c);
    } else if a.RegisterOn? || a.DeregisterFrom? {
      WaitBits(s, who, a, m, c);
    } else {
      OtherBits(s, who, a, c);
    }
  }

  lemma OthersSendBits(s: State, who: nat, m: nat, c: nat)
    requires Enabled(s, who, SendStep) && m != who && c < |s.cpus|
    ensures c < |ApplySend(s, who).cpus| && (m in ApplySend(s, who).cpus[c].waiters <==> m in s.cpus[c].waiters)
  {
    hide WaitGraph, WaitsOn;
  }

  lemma WaitBits(s: State, who: nat, a: Action, m: nat, c: nat)
    requires Enabled(s, who, a) && (a.RegisterOn? || a.DeregisterFrom?) && c < |s.cpus|
    ensures c < |Apply(s, who, a).cpus|
    ensures m in Apply(s, who, a).cpus[c].waiters <==>
            if c == a.c && m == who then a.RegisterOn? else m in s.cpus[c].waiters
  {
    hide WaitGraph, WaitsOn;
  }

  lemma OtherBits(s: State, who: nat, a: Action, c: nat)
    requires Enabled(s, who, a) && !a.SendStep? && !a.RegisterOn? && !a.DeregisterFrom? && c < |s.cpus|
    ensures c < |Apply(s, who, a).cpus| && Apply(s, who, a).cpus[c].waiters == s.cpus[c].waiters
  {
    hide WaitGraph, WaitsOn;
  }

  lemma CodeStays(s: State, who: nat, a: Action, c: nat)
    requires Inv(s) && Enabled(s, who, a) && c < |s.cpus| && HasCode(s.cpus[c])
    ensures c < |Apply(s, who, a).cpus| && HasCode(Apply(s, who, a).cpus[c])
  {
    hide Inv, Enabled, Apply;
    SameSize(s, who, a);
    if c != who {
      OthersStack(s, who, a, c);
      OthersLoop(s, who, a, c);
    } else if OfLoop(a) {
      LoopStarted(s, who, a);
    } else {
      CallStarted(s, who, a);
    }
  }

  lemma OthersLoop(s: State, who: nat, a: Action, c: nat)
    requires Enabled(s, who, a) && c < |s.cpus| && c != who
    ensures c < |Apply(s, who, a).cpus| && Apply(s, who, a).cpus[c].loop in {s.cpus[c].loop, GoIdle}
  {
    hide WaitGraph, WaitsOn;
  }

  lemma LoopStarted(s: State, who: nat, a: Action)
    requires Enabled(s, who, a) && OfLoop(a)
    ensures who < |Apply(s, who, a).cpus| && Apply(s, who, a).cpus[who].loop != Off
  {
    hide WaitGraph, WaitsOn;
  }

  lemma CallStarted(s: State, who: nat, a: Action)
    requires Inv(s) && Enabled(s, who, a) && !OfLoop(a)
    ensures who < |Apply(s, who, a).cpus| && Apply(s, who, a).cpus[who].stack != []
  {
    hide WaitGraph, WaitsOn, Acyclic, WellFormed, CpuOk, BuriedOk, TopOk, ApplySend;
    assert StackOk(s, who);
    if a.SendStep? {
      hide Inv, StackOk;
      NewTarget(s, who);
      if Top(s, who).ph.at.Publish? { PublishStack(s, who); } else { var ph := SendStack(s, who); }
    }
  }

  lemma LoopOwn(s: State, me: nat, a: Action)
    requires Inv(s) && Enabled(s, me, a) && OfLoop(a) && Exactly(s, me)
    ensures Exactly(Apply(s, me, a), me) && TargetStarted(Apply(s, me, a), me)
  {
    hide WaitGraph, WaitsOn, Acyclic, WellFormed, StackOk;
    assert CpuOk(s.cpus[me]);
  }

  lemma SendOwn(s: State, me: nat)
    requires Inv(s) && Enabled(s, me, SendStep) && Exactly(s, me) && TargetStarted(s, me)
    ensures Exactly(Apply(s, me, SendStep), me) && TargetStarted(Apply(s, me, SendStep), me)
  {
    hide WaitGraph, WaitsOn, Inv, ApplySend, HasCode;
    NewTarget(s, me);
    var s', f := Apply(s, me, SendStep), Top(s, me);
    if f.ph.at.Publish? { PublishStack(s, me); } else { var ph := SendStack(s, me); }
    forall c | 0 <= c < |s'.cpus| ensures me in s'.cpus[c].waiters <==> c in WaitSetOf(s', me) {
      SendBits(s, me, c);
    }
    CodeStays(s, me, SendStep, f.ph.target);
  }

  lemma SendBits(s: State, me: nat, c: nat)
    requires Enabled(s, me, SendStep) && Top(s, me).ph.target != me && c < |s.cpus|
    ensures c < |ApplySend(s, me).cpus|
    ensures var at, t := Top(s, me).ph.at, Top(s, me).ph.target;
      me in ApplySend(s, me).cpus[c].waiters <==>
      if c == t && at.SetWaiter? then true else if c == t && at.ClearWaiter? then false else me in s.cpus[c].waiters
  {
    hide WaitGraph, WaitsOn;
  }

  lemma InvokeOwn(s: State, me: nat, a: Action)
    requires Inv(s) && Enabled(s, me, a) && (a.Invoke? || a.ReturnSelf?) && Exactly(s, me)
    ensures Exactly(Apply(s, me, a), me) && TargetStarted(Apply(s, me, a), me)
  {
    hide WaitGraph, WaitsOn, Acyclic, WellFormed, CpuOk;
    assert StackOk(s, me);
    if a.ReturnSelf? {
      var k := s.cpus[me].stack;
      assert BuriedOk(s, me, k[|k| - 2]);
    }
  }

  lemma CallOwn(s: State, me: nat, a: Action)
    requires Inv(s) && Enabled(s, me, a) && !OfLoop(a) && !a.Invoke? && !a.ReturnSelf? && !a.SendStep? && Exactly(s, me)
    ensures Exactly(Apply(s, me, a), me) && TargetStarted(Apply(s, me, a), me)
  {
    hide WaitGraph, WaitsOn, Acyclic, WellFormed, CpuOk, BuriedOk, TopOk, HasCode;
    assert StackOk(s, me);
    var s' := Apply(s, me, a);
    SameSize(s, me, a);
    forall c | 0 <= c < |s'.cpus| ensures me in s'.cpus[c].waiters <==> c in WaitSetOf(s', me) {
      if a.RegisterOn? || a.DeregisterFrom? { WaitBits(s, me, a, me, c); } else { OtherBits(s, me, a, c); }
      SameWaitSet(s, me, a, c);
    }
    PickStarts(s, me, a);
  }

  /** Only a target just picked is sent something, and it has been started. */
  lemma PickStarts(s: State, me: nat, a: Action)
    requires Inv(s) && Enabled(s, me, a) && !OfLoop(a) && !a.Invoke? && !a.ReturnSelf? && !a.SendStep?
    ensures TargetStarted(Apply(s, me, a), me)
  {
    hide WaitGraph, WaitsOn, Acyclic, WellFormed, CpuOk, BuriedOk, TopOk;
    assert StackOk(s, me);
  }

  /** Only registering adds to what a call waits on, and only deregistering takes away. */
  lemma SameWaitSet(s: State, me: nat, a: Action, c: nat)
    requires Inv(s) && Enabled(s, me, a) && !OfLoop(a) && !a.Invoke? && !a.ReturnSelf? && !a.SendStep?
    ensures c in WaitSetOf(Apply(s, me, a), me) <==>
            if a.RegisterOn? && c == a.c then true else if a.DeregisterFrom? && c == a.c then false
            else c in WaitSetOf(s, me)
  {
    hide WaitGraph, WaitsOn, Acyclic, WellFormed, CpuOk, BuriedOk, TopOk;
    assert StackOk(s, me);
  }

  lemma StepKeepsWaiters(s: State, who: nat, a: Action)
    requires Inv(s) && WaitersOk(s) && Enabled(s, who, a)
    ensures WaitersOk(Apply(s, who, a))
  {
    hide Inv, Enabled, Apply, HasCode;
    var s' := Apply(s, who, a);
    SameSize(s, who, a);
    forall m: nat ensures Exactly(s', m) && TargetStarted(s', m) {
      assert Exactly(s, m) && TargetStarted(s, m);
      if m != who {
        OthersKeep(s, who, a, m);
      } else if OfLoop(a) {
        LoopOwn(s, m, a);
      } else if a.SendStep? {
        SendOwn(s, m);
      } else if a.Invoke? || a.ReturnSelf? {
        InvokeOwn(s, m, a);
      } else {
        CallOwn(s, m, a);
      }
    }
  }

  lemma OthersKeep(s: State, who: nat, a: Action, m: nat)
    requires Inv(s) && Enabled(s, who, a) && m != who && Exactly(s, m) && TargetStarted(s, m)
    ensures Exactly(Apply(s, who, a), m) && TargetStarted(Apply(s, who, a), m)
  {
    hide Inv, Enabled, Apply, HasCode;
    var s' := Apply(s, who, a);
    SameSize(s, who, a);
    if m < |s.cpus| { OthersStack(s, who, a, m); }
    forall c | 0 <= c < |s'.cpus| ensures m in s'.cpus[c].waiters <==> c in WaitSetOf(s', m) {
      OthersBits(s, who, a, m, c);
    }
    if InCall(s, m) && Top(s, m).ph.Send? { CodeStays(s, who, a, Top(s, m).ph.target); }
  }

  /** In every run: the waiters masks say exactly who waits on whom, and whoever is sent something was started. */
  lemma {:induction false} WaitersExact(steps: seq<(nat, Action)>, s: State)
    requires Reached(steps, s)
    ensures WaitersOk(s)
    decreases |steps|
  {
    hide Inv, Enabled, Apply, Exactly, TargetStarted;
    if steps == [] {
      InitialWaiters(s);
    } else {
      var n := |steps| - 1;
      var r :| Reached(steps[..n], r) && Enabled(r, steps[n].0, steps[n].1) && s == Apply(r, steps[n].0, steps[n].1);
      RunsKeepInvariant(steps[..n], r);
      WaitersExact(steps[..n], r);
      StepKeepsWaiters(r, steps[n].0, steps[n].1);
    }
  }

  lemma InitialWaiters(s: State)
    requires Initial(s)
    ensures WaitersOk(s)
  {
  }

  // ----- The check reports only what is there -----

  /** CPU i spins on j, or is about to, or has just done so. */
  ghost predicate Awaits(s: State, i: nat, j: nat) {
    i < |s.cpus| && j < |s.cpus| && j in WaitSetOf(s, i)
  }

  /** In every run: when the check finds the target waiting on the caller, there is a line of CPUs from the target to
      the caller, each registered as waiting on the next. */
  lemma ReportsAreReal(steps: seq<(nat, Action)>, s: State, t: nat, me: nat) returns (p: seq<nat>)
    requires Reached(steps, s) && WaitsOn(WaitGraph(s), t, me)
    ensures |p| >= 2 && p[0] == t && p[|p| - 1] == me
    ensures forall k :: 0 <= k < |p| - 1 ==> Awaits(s, p[k], p[k + 1])
  {
    hide Reached, WaitSetOf;
    WaitersExact(steps, s);
    var g := WaitGraph(s);
    p :| Path(g, p) && p[0] == t && p[|p| - 1] == me;
    forall k | 0 <= k < |p| - 1 ensures Awaits(s, p[k], p[k + 1]) {
      assert Exactly(s, p[k]);
      assert p[k] in g[p[k + 1]];
    }
  }

  // ----- Nothing stalls unreported -----

  /** A step that gets somewhere: not another look at the idle mask that finds nothing new. */
  ghost predicate Progress(s: State, c: nat, a: Action) {
    Enabled(s, c, a) && !a.Retry? && (a.Observe? ==> a.c !in Top(s, c).ph.seen)
  }

  /** The CPU's next deadlock check fires. */
  ghost predicate Reports(s: State, me: nat) {
    && InCall(s, me)
    && var f := Top(s, me);
       match f.ph
       case Send(t, at) => at.SetWaiter? && WaitsOn(WaitGraph(s), t, me)
       case Register(done) => exists c :: c in Others(f, me) - done && WaitsOn(WaitGraph(s), c, me)
       case _ => false
  }

  ghost predicate Moves(s: State, c: nat) {
    Reports(s, c) || exists a :: Progress(s, c, a)
  }

  lemma Bounded(rank: seq<nat>) returns (b: nat)
    ensures forall i :: 0 <= i < |rank| ==> rank[i] <= b
  {
    b := 0;
    for i := 0 to |rank|
      invariant forall j :: 0 <= j < i ==> rank[j] <= b
    {
      if rank[i] > b { b := rank[i]; }
    }
  }

  /** A CPU outside any call moves unless it idles or was never started. */
  lemma FreeMoves(s: State, me: nat)
    requires Inv(s) && me < |s.cpus| && !InCall(s, me) && !s.cpus[me].idle && HasCode(s.cpus[me])
    ensures Moves(s, me)
  {
    hide Inv, Enabled;
    assert !Blocked(s, me) by { hide CallBlocked; }
    var a := IdleCanStep(s, me);
    NoCallAction(s, me, a);
    assert Progress(s, me, a);
  }

  lemma NoCallAction(s: State, me: nat, a: Action)
    requires Enabled(s, me, a) && !InCall(s, me)
    ensures !a.Retry? && !a.Observe?
  {
    hide WaitGraph, WaitsOn;
  }

  /** The holder of the lock moves. */
  lemma HolderMoves(s: State)
    requires Inv(s) && s.lock.Some?
    ensures Moves(s, s.lock.value)
  {
    hide Acyclic, WellFormed, WaitGraph, WaitsOn, CpuOk, TicketsOk;
    var h := s.lock.value;
    CallOkOf(s, h);
    assert Progress(s, h, SendStep);
  }

  /** A call moves, or spins on a CPU that is not idle, or waits for a lock that is taken. */
  lemma CallMoves(s: State, me: nat) returns (t: Option<nat>)
    requires Inv(s) && InCall(s, me)
    ensures t.None? ==> Moves(s, me) || s.lock.Some?
    ensures t.Some? ==> t.value < |s.cpus| && SpinsOn(s, me, t.value) && !s.cpus[t.value].idle
  {
    hide Acyclic, WellFormed, StackOk, WaitGraph, WaitsOn, CpuOk, TicketsOk, Inv;
    var f := Top(s, me);
    t := None;
    CallOkOf(s, me);
    if f.ph.Await? {
      t := AwaitMoves(s, me);
    } else if f.ph.Send? && f.ph.at.Spin? && !s.cpus[f.ph.target].idle {
      t := Some(f.ph.target);
    } else if f.ph.Register? && CallBlocked(s, me, f) {
      assert !(Others(f, me) <= f.ph.done);
      var c :| c in Others(f, me) && c !in f.ph.done;
      assert WaitsOn(WaitGraph(s), c, me);
    } else if !Reports(s, me) && s.lock == None {
      var a := CallCanStep(s, me);
      NoAwaitAction(s, me, a);
      assert Progress(s, me, a);
    }
  }

  lemma NoAwaitAction(s: State, me: nat, a: Action)
    requires Enabled(s, me, a) && InCall(s, me) && !Top(s, me).ph.Await?
    ensures !a.Retry? && !a.Observe?
  {
    hide WaitGraph, WaitsOn;
  }

  lemma AwaitMoves(s: State, me: nat) returns (t: Option<nat>)
    requires Inv(s) && InCall(s, me) && Top(s, me).ph.Await?
    ensures t.None? ==> Moves(s, me)
    ensures t.Some? ==> t.value < |s.cpus| && SpinsOn(s, me, t.value) && !s.cpus[t.value].idle
  {
    hide Acyclic, WellFormed, StackOk, WaitGraph, WaitsOn, CpuOk, TicketsOk, Inv, Finished;
    CallOkOf(s, me);
    var f := Top(s, me);
    t := None;
    if f.ph.seen == Others(f, me) {
      assert Progress(s, me, AwaitDone);
    } else {
      var c :| c in Others(f, me) && c !in f.ph.seen;
      if s.cpus[c].idle {
        assert Progress(s, me, Observe(c));
      } else {
        t := Some(c);
      }
    }
  }

  /** Whoever is spun on was started. */
  lemma SpunOnStarted(s: State, me: nat, t: nat)
    requires Inv(s) && WaitersOk(s) && SpinsOn(s, me, t) && t < |s.cpus|
    ensures HasCode(s.cpus[t])
  {
    hide Acyclic, WellFormed, StackOk, WaitGraph, WaitsOn, Exactly;
    assert TargetStarted(s, me);
    CallOkOf(s, me);
    if Top(s, me).ph.Await? {
      assert t in Top(s, me).tickets;
      assert CpuOk(s.cpus[t]);
    }
  }

  lemma {:induction false} SomeoneMoves(s: State, me: nat, rank: seq<nat>, bound: nat) returns (c: nat)
    requires Inv(s) && WaitersOk(s) && me < |s.cpus| && !s.cpus[me].idle && HasCode(s.cpus[me])
    requires RankedBut(WaitGraph(s), rank, -1) && rank[me] <= bound
    requires forall i :: 0 <= i < |rank| ==> rank[i] <= bound
    ensures Moves(s, c)
    decreases bound - rank[me]
  {
    hide Inv, Moves, WaitersOk, HasCode, SpinsOn;
    c := me;
    if !InCall(s, me) {
      FreeMoves(s, me);
    } else {
      var t := CallMoves(s, me);
      if t.Some? {
        SpinEdge(s, me, t.value);
        SpunOnStarted(s, me, t.value);
        c := SomeoneMoves(s, t.value, rank, bound);
      } else if s.lock.Some? {
        c := s.lock.value;
        HolderMoves(s);
      }
    }
  }

  /** In every run: as long as some call has not returned, some CPU can take a step that gets somewhere, or its
      deadlock check fires. No set of CPUs waits on each other, for idle targets or for the lock, unreported. */
  lemma NoSilentDeadlock(steps: seq<(nat, Action)>, s: State, me: nat) returns (c: nat)
    requires Reached(steps, s) && InCall(s, me)
    ensures Reports(s, c) || exists a :: Progress(s, c, a)
  {
    hide Reached, WaitersOk;
    RunsKeepInvariant(steps, s);
    WaitersExact(steps, s);
    AcyclicIsRanked(WaitGraph(s));
    var rank :| RankedBut(WaitGraph(s), rank, -1);
    var bound := Bounded(rank);
    assert CpuOk(s.cpus[me]);
    c := SomeoneMoves(s, me, rank, bound);
  }
}
