/** Every step of the dispatch protocol keeps its invariant, and what follows for whole runs. */
module OnCpusProof {
  import opened Basics
  import opened Deadlock
  import opened OnCpus

  // ----- What other CPUs cannot disturb -----

  ghost predicate Grows(s: State, s': State) {
    && |s'.cpus| == |s.cpus|
    && forall c :: 0 <= c < |s.cpus| ==>
         s.cpus[c].accepted <= s'.cpus[c].accepted && s.cpus[c].completed <= s'.cpus[c].completed
  }

  /** Nothing that CPU d relies on has changed. */
  ghost predicate Undisturbed(s: State, s': State, d: nat) {
    && Grows(s, s')
    && (forall c :: 0 <= c < |s.cpus| && d in s.cpus[c].waiters ==> d in s'.cpus[c].waiters)
    && (s.lock == Some(d) ==>
          && s'.lock == Some(d)
          && forall c :: 0 <= c < |s.cpus| ==>
               (s.cpus[c].idle ==> s'.cpus[c].idle) && s'.cpus[c].info == s.cpus[c].info)
  }

  lemma TicketsStable(s: State, s': State, f: Frame)
    requires f.Call? && Grows(s, s') && TicketsOk(s, f)
    ensures TicketsOk(s', f)
  {
  }

  lemma BuriedStable(s: State, s': State, me: nat, f: Frame)
    requires Grows(s, s') && BuriedOk(s, me, f)
    ensures BuriedOk(s', me, f)
  {
    if f.Call? { TicketsStable(s, s', f); }
  }

  lemma TopStable(s: State, s': State, d: nat, f: Frame)
    requires Undisturbed(s, s', d) && TopOk(s, d, f)
    ensures TopOk(s', d, f)
  {
    if f.Call? {
      TicketsStable(s, s', f);
    }
  }

  lemma StackStable(s: State, s': State, d: nat)
    requires d < |s.cpus| && Undisturbed(s, s', d) && StackOk(s, d) && s'.cpus[d].stack == s.cpus[d].stack
    ensures StackOk(s', d)
  {
    hide BuriedOk, TopOk;
    var k := s.cpus[d].stack;
    forall i | 0 <= i < |k| - 1 ensures BuriedOk(s', d, k[i]) {
      BuriedStable(s, s', d, k[i]);
    }
    if k != [] { TopStable(s, s', d, k[|k| - 1]); }
  }

  lemma Assemble(s: State, s': State, me: nat)
    requires Inv(s) && me < |s.cpus| && |s'.cpus| == |s.cpus|
    requires forall d :: 0 <= d < |s.cpus| && d != me ==>
      s'.cpus[d].stack == s.cpus[d].stack && Undisturbed(s, s', d)
    requires forall c :: 0 <= c < |s.cpus| ==> CpuOk(s'.cpus[c])
    requires StackOk(s', me)
    requires s'.lock.Some? ==> InCall(s', s'.lock.value) && Locked(Top(s', s'.lock.value).ph)
    requires WellFormed(WaitGraph(s')) && Acyclic(WaitGraph(s'))
    ensures Inv(s')
  {
    hide StackOk, CpuOk, Undisturbed, Acyclic, WellFormed;
    forall d | 0 <= d < |s.cpus| ensures StackOk(s', d) {
      if d != me { StackStable(s, s', d); }
    }
  }

  lemma SameGraph(s: State, s': State)
    requires |s'.cpus| == |s.cpus| && forall c :: 0 <= c < |s.cpus| ==> s'.cpus[c].waiters == s.cpus[c].waiters
    ensures WaitGraph(s') == WaitGraph(s)
  {
  }

  // ----- Steps that move only the caller's control -----

  lemma ControlKeeps(s: State, me: nat, k: seq<Frame>)
    requires Inv(s) && HasTop(s, me) && k != [] && Alternates(k)
    requires forall i :: 0 <= i < |k| - 1 ==> BuriedOk(s, me, k[i])
    requires TopOk(s, me, k[|k| - 1])
    requires s.lock == Some(me) ==> k[|k| - 1].Call? && Locked(k[|k| - 1].ph)
    ensures Inv(WithStack(s, me, k))
  {
    hide BuriedOk, TopOk, WaitGraph, Acyclic, WellFormed;
    var s' := WithStack(s, me, k);
    SameGraph(s, s');
    forall i | 0 <= i < |k| - 1 ensures BuriedOk(s', me, k[i]) {
      BuriedStable(s, s', me, k[i]);
    }
    TopStable(s, s', me, k[|k| - 1]);
    assert CpuOk(s.cpus[me]);
    Assemble(s, s', me);
  }

  /** A change of the shared fields of t together with the caller's top frame. */
  lemma SharedKeeps(s: State, me: nat, t: nat, x: Cpu, f: Frame)
    requires Inv(s) && InCall(s, me) && t < |s.cpus| && t != me && CpuOk(x) && x.stack == s.cpus[t].stack
    requires forall d: nat :: d < |s.cpus| ==> (d != me ==> Undisturbed(s, WithCpu(s, t, x), d))
    requires Grows(s, WithCpu(s, t, x))
    requires f.Call? && TopOk(WithCpu(s, t, x), me, f) && (Locked(f.ph) <==> Locked(Top(s, me).ph))
    requires WellFormed(WaitGraph(WithCpu(s, t, x))) && Acyclic(WaitGraph(WithCpu(s, t, x)))
    ensures Inv(WithTop(WithCpu(s, t, x), me, f))
  {
    hide WaitGraph, Acyclic, WellFormed, BuriedOk, TopOk;
    var s1 := WithCpu(s, t, x);
    var s' := WithTop(s1, me, f);
    var k := s.cpus[me].stack;
    SameGraph(s1, s');
    assert StackOk(s, me) && CpuOk(s.cpus[me]);
    forall i | 0 <= i < |k| - 1 ensures BuriedOk(s', me, k[i]) {
      BuriedStable(s, s', me, k[i]);
    }
    TopStable(s1, s', me, f);
    forall d: nat | d < |s.cpus| && d != me ensures s'.cpus[d].stack == s.cpus[d].stack && Undisturbed(s, s', d) {
      assert Undisturbed(s, s1, d);
    }
    Assemble(s, s', me);
  }

  // ----- do_idle -----

  lemma LoopKeeps(s: State, me: nat, a: Action)
    requires Inv(s) && Enabled(s, me, a)
    requires OfLoop(a)
    ensures Inv(Apply(s, me, a))
  {
    hide WaitGraph, Acyclic, WellFormed;
    var s' := Apply(s, me, a);
    SameGraph(s, s');
    assert CpuOk(s.cpus[me]) && StackOk(s, me);
    Assemble(s, s', me);
  }

  // ----- Calls -----

  lemma WithStackTwice(s: State, me: nat, k: seq<Frame>, k': seq<Frame>)
    requires me < |s.cpus|
    ensures WithStack(WithStack(s, me, k), me, k') == WithStack(s, me, k')
  {
  }

  lemma InvokeKeeps(s: State, me: nat, a: Action)
    requires Inv(s) && Enabled(s, me, a) && (a.Invoke? || a.ReturnSelf?)
    ensures Inv(Apply(s, me, a))
  {
    hide WaitGraph, Acyclic, WellFormed, CpuOk;
    assert StackOk(s, me);
    var k := s.cpus[me].stack;
    match a
    case Invoke(mask, task, waits) =>
      ControlKeeps(s, me, k + [Call(mask, task, waits, map[], false, Pick)]);
    case ReturnSelf =>
      var n := |k| - 2;
      assert BuriedOk(s, me, k[n]);
      ControlKeeps(s, me, k[..n] + [k[n].(ran := true)]);
      WithStackTwice(s, me, k[..|k| - 1], k[..n] + [k[n].(ran := true)]);
      assert k[..|k| - 1][n := k[n].(ran := true)] == k[..n] + [k[n].(ran := true)];
  }

  /** A change of the top frame alone. */
  lemma TopKeeps(s: State, me: nat, f: Frame)
    requires Inv(s) && InCall(s, me) && f.Call? && TopOk(s, me, f)
    requires Locked(f.ph) <==> Locked(Top(s, me).ph)
    ensures Inv(WithTop(s, me, f))
  {
    hide WaitGraph, Acyclic, WellFormed, CpuOk, TopOk, BuriedOk;
    assert StackOk(s, me);
    var k := s.cpus[me].stack;
    ControlKeeps(s, me, k[|k| - 1 := f]);
  }

  lemma CallOkOf(s: State, me: nat)
    requires Inv(s) && InCall(s, me)
    ensures TopOk(s, me, Top(s, me))
  {
    assert StackOk(s, me);
  }

  lemma PopKeeps(s: State, me: nat)
    requires Inv(s) && InCall(s, me) && !Locked(Top(s, me).ph)
    ensures Inv(Pop(s, me))
  {
    hide WaitGraph, Acyclic, WellFormed, CpuOk, BuriedOk;
    assert StackOk(s, me);
    var k := s.cpus[me].stack;
    ControlKeeps(s, me, k[..|k| - 1]);
  }

  lemma AddGraph(s: State, t: nat, me: nat)
    requires Inv(s) && t < |s.cpus| && me < |s.cpus| && t != me && !WaitsOn(WaitGraph(s), t, me)
    ensures var g := WaitGraph(WithCpu(s, t, s.cpus[t].(waiters := s.cpus[t].waiters + {me})));
      WellFormed(g) && Acyclic(g)
  {
    hide Acyclic, WaitsOn, CpuOk, StackOk;
    var g := WaitGraph(s);
    CheckDecides(g, t, me);
    assert WaitGraph(WithCpu(s, t, s.cpus[t].(waiters := s.cpus[t].waiters + {me}))) == AddWaiter(g, t, me);
  }

  lemma DropGraph(s: State, t: nat, me: nat)
    requires Inv(s) && t < |s.cpus|
    ensures var g := WaitGraph(WithCpu(s, t, s.cpus[t].(waiters := s.cpus[t].waiters - {me})));
      WellFormed(g) && Acyclic(g)
  {
    hide Acyclic, CpuOk, StackOk;
    var g := WaitGraph(s);
    DropKeepsAcyclic(g, t, me);
    assert WaitGraph(WithCpu(s, t, s.cpus[t].(waiters := s.cpus[t].waiters - {me}))) == g[t := g[t] - {me}];
  }

  /** Setting or clearing the caller's own bit in the waiters of t disturbs nobody else. */
  lemma WaiterStep(s: State, me: nat, t: nat, w: set<nat>, f: Frame)
    requires Inv(s) && InCall(s, me) && t < |s.cpus| && t != me
    requires w == s.cpus[t].waiters + {me} || w == s.cpus[t].waiters - {me}
    requires var s1 := WithCpu(s, t, s.cpus[t].(waiters := w));
      WellFormed(WaitGraph(s1)) && Acyclic(WaitGraph(s1)) && f.Call? && TopOk(s1, me, f)
    requires !Locked(f.ph) && !Locked(Top(s, me).ph)
    ensures Inv(WithTop(WithCpu(s, t, s.cpus[t].(waiters := w)), me, f))
  {
    hide Acyclic, WellFormed, TopOk, StackOk, WaitGraph;
    SharedKeeps(s, me, t, s.cpus[t].(waiters := w), f);
  }

  lemma RegisterKeeps(s: State, me: nat, c: nat)
    requires Inv(s) && Enabled(s, me, RegisterOn(c))
    ensures Inv(Apply(s, me, RegisterOn(c)))
  {
    hide Acyclic, WellFormed, StackOk, WaitGraph, WaitsOn, CpuOk;
    CallOkOf(s, me);
    var f := Top(s, me);
    AddGraph(s, c, me);
    WaiterStep(s, me, c, s.cpus[c].waiters + {me}, f.(ph := Register(f.ph.done + {c})));
  }

  lemma DeregisterKeeps(s: State, me: nat, c: nat)
    requires Inv(s) && Enabled(s, me, DeregisterFrom(c))
    ensures Inv(Apply(s, me, DeregisterFrom(c)))
  {
    hide Acyclic, WellFormed, StackOk, WaitGraph, WaitsOn, CpuOk;
    CallOkOf(s, me);
    var f := Top(s, me);
    DropGraph(s, c, me);
    WaiterStep(s, me, c, s.cpus[c].waiters - {me}, f.(ph := Deregister(f.ph.left - {c})));
  }

  lemma SetWaiterKeeps(s: State, me: nat)
    requires Inv(s) && Enabled(s, me, SendStep) && Top(s, me).ph.at.SetWaiter?
    ensures Inv(Apply(s, me, SendStep))
  {
    hide Acyclic, WellFormed, StackOk, WaitGraph, WaitsOn, CpuOk;
    CallOkOf(s, me);
    var f := Top(s, me);
    var t := f.ph.target;
    AddGraph(s, t, me);
    WaiterStep(s, me, t, s.cpus[t].waiters + {me}, f.(ph := Send(t, Spin)));
  }

  lemma ClearWaiterKeeps(s: State, me: nat)
    requires Inv(s) && Enabled(s, me, SendStep) && Top(s, me).ph.at.ClearWaiter?
    ensures Inv(Apply(s, me, SendStep))
  {
    hide Acyclic, WellFormed, StackOk, WaitGraph, WaitsOn, CpuOk;
    CallOkOf(s, me);
    var f := Top(s, me);
    var t := f.ph.target;
    DropGraph(s, t, me);
    WaiterStep(s, me, t, s.cpus[t].waiters - {me}, f.(ph := Send(t, TakeLock)));
  }

  /** The remaining steps of on_cpu_async. */
  lemma SendKeeps(s: State, me: nat)
    requires Inv(s) && Enabled(s, me, SendStep)
    requires !Top(s, me).ph.at.SetWaiter? && !Top(s, me).ph.at.ClearWaiter?
    ensures Inv(Apply(s, me, SendStep))
  {
    hide Acyclic, WellFormed, StackOk, WaitGraph, CpuOk, WaitsOn;
    CallOkOf(s, me);
    var f := Top(s, me);
    var t := f.ph.target;
    var tc := s.cpus[t];
    match f.ph.at
    case Spin => TopKeeps(s, me, f.(ph := Send(t, ClearWaiter)));
    case TakeLock => LockKeeps(s, me, f.(ph := Send(t, Recheck)));
    case Recheck =>
      if tc.idle {
        TopKeeps(s, me, f.(ph := Send(t, WriteFunc)));
      } else {
        UnlockKeeps(s, me, f.(ph := Send(t, SetWaiter)));
      }
    case WriteFunc => InfoKeeps(s, me, t, tc.info.(func := f.task.func), f.(ph := Send(t, WriteData)));
    case WriteData => InfoKeeps(s, me, t, tc.info.(data := f.task.data), f.(ph := Send(t, Publish)));
    case Publish => PublishKeeps(s, me);
    case Unlock => UnlockKeeps(s, me, f.(ph := Pick));
  }

  lemma LockKeeps(s: State, me: nat, f: Frame)
    requires Inv(s) && InCall(s, me) && s.lock == None && f.Call? && Locked(f.ph)
    requires TopOk(s.(lock := Some(me)), me, f)
    ensures Inv(WithTop(s, me, f).(lock := Some(me)))
  {
    hide Acyclic, WellFormed, WaitGraph, TopOk, BuriedOk;
    var s' := WithTop(s, me, f).(lock := Some(me));
    SameGraph(s, s');
    var k := s.cpus[me].stack;
    assert StackOk(s, me) && CpuOk(s.cpus[me]);
    forall i | 0 <= i < |k| - 1 ensures BuriedOk(s', me, k[i]) {
      BuriedStable(s, s', me, k[i]);
    }
    TopStable(s.(lock := Some(me)), s', me, f);
    Assemble(s, s', me);
  }

  lemma UnlockKeeps(s: State, me: nat, f: Frame)
    requires Inv(s) && InCall(s, me) && s.lock == Some(me) && f.Call? && !Locked(f.ph) && TopOk(s, me, f)
    ensures Inv(WithTop(s, me, f).(lock := None))
  {
    hide Acyclic, WellFormed, WaitGraph, BuriedOk;
    var s' := WithTop(s, me, f).(lock := None);
    SameGraph(s, s');
    var k := s.cpus[me].stack;
    assert StackOk(s, me) && CpuOk(s.cpus[me]);
    forall i | 0 <= i < |k| - 1 ensures BuriedOk(s', me, k[i]) {
      BuriedStable(s, s', me, k[i]);
    }
    TicketsStable(s, s', f);
    Assemble(s, s', me);
  }

  /** The lock holder writes the entry of an idle CPU. */
  lemma InfoKeeps(s: State, me: nat, t: nat, info: Task, f: Frame)
    requires Inv(s) && InCall(s, me) && s.lock == Some(me) && t < |s.cpus| && t != me && s.cpus[t].idle
    requires f.Call? && Locked(f.ph) && TopOk(WithCpu(s, t, s.cpus[t].(info := info)), me, f)
    ensures Inv(WithTop(WithCpu(s, t, s.cpus[t].(info := info)), me, f))
  {
    hide Acyclic, WellFormed, WaitGraph, TopOk, StackOk;
    var x := s.cpus[t].(info := info);
    SameGraph(s, WithCpu(s, t, x));
    assert CpuOk(s.cpus[t]);
    SharedKeeps(s, me, t, x, f);
  }

  /** Clearing the idle bit hands the task over. */
  lemma PublishKeeps(s: State, me: nat)
    requires Inv(s) && InCall(s, me) && Top(s, me).ph.Send?
    requires Top(s, me).ph.at.Publish? && Top(s, me).ph.target < |s.cpus|
    ensures Inv(ApplySend(s, me))
  {
    hide Acyclic, WellFormed, WaitGraph, StackOk;
    CallOkOf(s, me);
    var f := Top(s, me);
    var t := f.ph.target;
    var tc := s.cpus[t];
    var x := tc.(idle := false, accepted := tc.accepted + [f.task]);
    SameGraph(s, WithCpu(s, t, x));
    assert CpuOk(tc);
    TicketsStable(s, WithCpu(s, t, x), f);
    SharedKeeps(s, me, t, x, f.(tickets := f.tickets[t := |tc.accepted|], ph := Send(t, Unlock)));
  }

  // ----- The rest of a call -----

  lemma PickKeeps(s: State, me: nat, c: nat)
    requires Inv(s) && Enabled(s, me, PickTarget(c))
    ensures Inv(Apply(s, me, PickTarget(c)))
  {
    hide Acyclic, WellFormed, WaitGraph, StackOk;
    CallOkOf(s, me);
    var f, cc := Top(s, me), s.cpus[c];
    if cc.loop == Off && cc.stack == [] {
      var x := cc.(loop := GoIdle);
      SameGraph(s, WithCpu(s, c, x));
      assert CpuOk(cc);
      TicketsStable(s, WithCpu(s, c, x), f);
      SharedKeeps(s, me, c, x, f.(ph := Send(c, SetWaiter)));
    } else {
      TopKeeps(s, me, f.(ph := Send(c, SetWaiter)));
    }
  }

  lemma DispatchKeeps(s: State, me: nat)
    requires Inv(s) && Enabled(s, me, DispatchDone)
    ensures Inv(Apply(s, me, DispatchDone))
  {
    hide Acyclic, WellFormed, WaitGraph, CpuOk;
    assert StackOk(s, me);
    var f, k := Top(s, me), s.cpus[me].stack;
    var f' := f.(ph := Self);
    if me in f.mask {
      var k' := k[|k| - 1 := f'];
      ControlKeeps(s, me, k' + [User]);
      WithStackTwice(s, me, k', k' + [User]);
    } else {
      TopKeeps(s, me, f');
    }
  }

  /** The end of the dispatch, and the return. */
  lemma LeaveKeeps(s: State, me: nat, a: Action)
    requires Inv(s) && Enabled(s, me, a) && (a.SelfDone? || a.Return?)
    ensures Inv(Apply(s, me, a))
  {
    hide Acyclic, WellFormed, WaitGraph, StackOk, CpuOk;
    CallOkOf(s, me);
    var f := Top(s, me);
    if a.SelfDone? && f.waits {
      TopKeeps(s, me, f.(ph := Register({})));
    } else {
      PopKeeps(s, me);
    }
  }

  /** Reading the idle mask until it covers the targets. */
  lemma AwaitKeeps(s: State, me: nat, a: Action)
    requires Inv(s) && Enabled(s, me, a) && (a.RegisterDone? || a.Observe? || a.Retry? || a.AwaitDone?)
    ensures Inv(Apply(s, me, a))
  {
    hide Acyclic, WellFormed, WaitGraph, StackOk;
    CallOkOf(s, me);
    var f := Top(s, me);
    match a
    case RegisterDone => TopKeeps(s, me, f.(ph := Await({})));
    case Observe(c) =>
      assert CpuOk(s.cpus[c]);
      TopKeeps(s, me, f.(ph := Await(f.ph.seen + {c})));
    case Retry => TopKeeps(s, me, f.(ph := Await({})));
    case AwaitDone => TopKeeps(s, me, f.(ph := Deregister(Others(f, me))));
  }

  // ----- Runs -----

  /** Any one step of any CPU keeps the invariant. */
  lemma StepKeeps(s: State, me: nat, a: Action)
    requires Inv(s) && Enabled(s, me, a)
    ensures Inv(Apply(s, me, a))
  {
    hide Inv, Enabled, Apply;
    match a
    case EnterIdle => LoopKeeps(s, me, a);
    case SetIdle => LoopKeeps(s, me, a);
    case Wake => LoopKeeps(s, me, a);
    case RunTask => LoopKeeps(s, me, a);
    case FinishTask => LoopKeeps(s, me, a);
    case Invoke(_, _, _) => InvokeKeeps(s, me, a);
    case ReturnSelf => InvokeKeeps(s, me, a);
    case PickTarget(c) => PickKeeps(s, me, c);
    case SendStep => SendStepKeeps(s, me);
    case DispatchDone => DispatchKeeps(s, me);
    case SelfDone => LeaveKeeps(s, me, a);
    case RegisterOn(c) => RegisterKeeps(s, me, c);
    case RegisterDone => AwaitKeeps(s, me, a);
    case Observe(_) => AwaitKeeps(s, me, a);
    case Retry => AwaitKeeps(s, me, a);
    case AwaitDone => AwaitKeeps(s, me, a);
    case DeregisterFrom(c) => DeregisterKeeps(s, me, c);
    case Return => LeaveKeeps(s, me, a);
  }

  lemma SendStepKeeps(s: State, me: nat)
    requires Inv(s) && Enabled(s, me, SendStep)
    ensures Inv(Apply(s, me, SendStep))
  {
    hide Inv, Apply;
    if Top(s, me).ph.at.SetWaiter? {
      SetWaiterKeeps(s, me);
    } else if Top(s, me).ph.at.ClearWaiter? {
      ClearWaiterKeeps(s, me);
    } else {
      SendKeeps(s, me);
    }
  }

  /** Before anything was dispatched; some CPUs run user code, the others are offline. */
  ghost predicate Initial(s: State) {
    && s.lock == None
    && forall c :: 0 <= c < |s.cpus| ==>
         var x := s.cpus[c];
         && x.loop == Off && (x.stack == [] || x.stack == [User]) && !x.idle && x.waiters == {}
         && x.accepted == [] && x.started == [] && x.completed == 0
  }

  /** s is reached by the given steps, each a CPU and what it does. */
  ghost predicate Reached(steps: seq<(nat, Action)>, s: State)
    decreases |steps|
  {
    if steps == [] then Initial(s)
    else
      var n := |steps| - 1;
      exists r :: Reached(steps[..n], r) && Enabled(r, steps[n].0, steps[n].1) && s == Apply(r, steps[n].0, steps[n].1)
  }

  lemma InitialOk(s: State)
    requires Initial(s)
    ensures Inv(s)
  {
    EmptyIsAcyclic(WaitGraph(s));
  }

  /** Every interleaving of any number of CPUs keeps the invariant. */
  lemma {:induction false} RunsKeepInvariant(steps: seq<(nat, Action)>, s: State)
    requires Reached(steps, s)
    ensures Inv(s)
    decreases |steps|
  {
    hide Inv, Enabled, Apply;
    if steps == [] {
      InitialOk(s);
    } else {
      var n := |steps| - 1;
      var r :| Reached(steps[..n], r) && Enabled(r, steps[n].0, steps[n].1) && s == Apply(r, steps[n].0, steps[n].1);
      RunsKeepInvariant(steps[..n], r);
      StepKeeps(r, steps[n].0, steps[n].1);
    }
  }

  // ----- What runs guarantee -----

  /** In every run: each CPU begins the tasks it accepted, each exactly once and in order, lagging by at
      most one; a task not yet begun is still in on_cpu_info; an idle CPU has finished all of them. */
  lemma TasksRunOnce(steps: seq<(nat, Action)>, s: State, c: nat)
    requires Reached(steps, s) && c < |s.cpus|
    ensures var x := s.cpus[c];
      && x.started <= x.accepted && |x.accepted| <= |x.started| + 1
      && x.completed <= |x.started| <= x.completed + 1
      && (|x.accepted| > |x.started| ==> !x.idle && x.accepted == x.started + [x.info])
      && (x.idle ==> x.started == x.accepted && x.completed == |x.accepted|)
  {
    RunsKeepInvariant(steps, s);
    assert CpuOk(s.cpus[c]);
  }

  /** In every run: a CPU that has not begun a task it accepted can take its next step, and within two steps
      of its own, whatever the others do, it begins that task. */
  lemma AcceptedCanRun(steps: seq<(nat, Action)>, s: State, c: nat)
    requires Reached(steps, s) && c < |s.cpus| && |s.cpus[c].accepted| > |s.cpus[c].started|
    ensures if s.cpus[c].loop.GotFunc? then
        Enabled(s, c, RunTask) && Apply(s, c, RunTask).cpus[c].started == s.cpus[c].accepted
      else
        Enabled(s, c, Wake) && Apply(s, c, Wake).cpus[c].loop.GotFunc?
  {
    hide WaitGraph, Acyclic, WellFormed, StackOk, Reached;
    RunsKeepInvariant(steps, s);
    assert CpuOk(s.cpus[c]);
  }

  /** The steps of do_idle. */
  predicate OfLoop(a: Action) {
    a.EnterIdle? || a.SetIdle? || a.Wake? || a.RunTask? || a.FinishTask?
  }

  ghost predicate SameRecords(x: Cpu, y: Cpu) {
    y.info == x.info && y.accepted == x.accepted && y.started == x.started
  }

  /** Steps outside do_idle and on_cpu_async touch no record of any CPU. */
  lemma CallRecords(s: State, me: nat, a: Action, c: nat)
    requires Enabled(s, me, a) && !OfLoop(a) && a != SendStep && c < |s.cpus|
    ensures SameRecords(s.cpus[c], Apply(s, me, a).cpus[c])
  {
    hide WaitGraph, WaitsOn;
  }

  /** A step of do_idle begins at most the task that its CPU has read. */
  lemma LoopRecords(s: State, me: nat, a: Action, c: nat)
    requires Inv(s) && Enabled(s, me, a) && OfLoop(a) && c < |s.cpus|
    ensures var x, y := s.cpus[c], Apply(s, me, a).cpus[c];
      && y.info == x.info && y.accepted == x.accepted
      && (y.started == x.started || y.started == x.started + [x.info])
  {
    hide WaitGraph, Acyclic, WellFormed, WaitsOn, StackOk;
    assert CpuOk(s.cpus[me]);
  }

  /** A step of on_cpu_async writes only the records of an idle target. */
  lemma SendRecords(s: State, me: nat, c: nat)
    requires Inv(s) && Enabled(s, me, SendStep) && c < |s.cpus|
    ensures var x, y := s.cpus[c], Apply(s, me, SendStep).cpus[c];
      && y.started == x.started
      && (!x.idle ==> SameRecords(x, y))
      && (y.accepted != x.accepted ==>
            && Top(s, me).ph == Send(c, Publish)
            && y.accepted == x.accepted + [Top(s, me).task] && x.idle && !y.idle
            && Top(Apply(s, me, SendStep), me).tickets[c] == |x.accepted|)
  {
    hide WaitGraph, Acyclic, WellFormed, WaitsOn, CpuOk, StackOk;
    CallOkOf(s, me);
  }

  /** No step changes on_cpu_info of a CPU that has not begun the task in it; that task is what it begins. */
  lemma NeverOverwritten(s: State, me: nat, a: Action, c: nat)
    requires Inv(s) && Enabled(s, me, a) && c < |s.cpus| && |s.cpus[c].accepted| > |s.cpus[c].started|
    ensures var x, x' := s.cpus[c], Apply(s, me, a).cpus[c];
      && x'.info == x.info && x'.accepted == x.accepted
      && (x'.started == x.started || x'.started == x.started + [x.info])
  {
    hide Enabled, Apply, StackOk, WaitGraph, Acyclic, WellFormed;
    assert CpuOk(s.cpus[c]);
    if OfLoop(a) {
      LoopRecords(s, me, a, c);
    } else if a == SendStep {
      SendRecords(s, me, c);
    } else {
      CallRecords(s, me, a, c);
    }
  }

  /** A task is accepted only by the step that clears the idle bit of its target, and then it is the last. */
  lemma AcceptedOnlyByPublish(s: State, me: nat, a: Action, c: nat)
    requires Inv(s) && Enabled(s, me, a) && c < |s.cpus|
    ensures var x, x' := s.cpus[c], Apply(s, me, a).cpus[c];
      x'.accepted != x.accepted ==>
        && a == SendStep && Top(s, me).ph == Send(c, Publish)
        && x'.accepted == x.accepted + [Top(s, me).task] && x.idle && !x'.idle
        && Top(Apply(s, me, a), me).tickets[c] == |x.accepted|
  {
    hide Inv, Enabled, Apply;
    if OfLoop(a) {
      LoopRecords(s, me, a, c);
    } else if a == SendStep {
      SendRecords(s, me, c);
    } else {
      CallRecords(s, me, a, c);
    }
  }

  /** CPU i is spinning until CPU j is idle. */
  ghost predicate SpinsOn(s: State, i: nat, j: nat) {
    && InCall(s, i)
    && var f := Top(s, i);
       f.ph == Send(j, Spin) || (f.ph.Await? && j in Others(f, i))
  }

  lemma SpinEdge(s: State, i: nat, j: nat)
    requires Inv(s) && SpinsOn(s, i, j)
    ensures i < |s.cpus| && j < |s.cpus| && i in s.cpus[j].waiters
  {
    CallOkOf(s, i);
  }

  /** In every run in which no check has fired: there is no ring of CPUs each spinning on the next. */
  lemma NoSpinRing(steps: seq<(nat, Action)>, s: State, p: seq<nat>)
    requires Reached(steps, s) && |p| >= 2
    requires forall k :: 0 <= k < |p| - 1 ==> SpinsOn(s, p[k], p[k + 1])
    ensures p[0] != p[|p| - 1]
  {
    RunsKeepInvariant(steps, s);
    var g := WaitGraph(s);
    forall k | 0 <= k < |p| ensures p[k] < |g| {
      var j := if k == 0 then 0 else k - 1;
      SpinEdge(s, p[j], p[j + 1]);
    }
    forall k | 0 <= k < |p| - 1 ensures p[k] in g[p[k + 1]] {
      SpinEdge(s, p[k], p[k + 1]);
    }
    assert Path(g, p);
    if p[0] == p[|p| - 1] {
      assert WaitsOn(g, p[0], p[0]);
    }
  }
}
