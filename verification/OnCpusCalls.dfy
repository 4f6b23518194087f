/** The life of one on_cpu or on_cpumask call: what it may do to its targets and its caller, when it comes back,
    and what can hold it up. */
module OnCpusCalls {
  import opened Basics
  import opened Deadlock
  import opened OnCpus
  import opened OnCpusProof

  /** The call asked for the same thing in both frames. */
  predicate SameCall(f: Frame, g: Frame) {
    f.Call? && g.Call? && g.mask == f.mask && g.task == f.task && g.waits == f.waits
  }

  /** Every other CPU of the mask has accepted the call's task, and has finished it if the call waits; the
      caller has run it if it is in the mask itself. */
  ghost predicate CallDone(s: State, me: nat, f: Frame)
    requires f.Call?
  {
    forall c :: c in f.mask ==>
      if c == me then f.ran
      else
        && c < |s.cpus| && c in f.tickets
        && var x, n := s.cpus[c], f.tickets[c];
           && n < |x.accepted| && x.accepted[n] == f.task
           && (f.waits ==> n < x.completed <= |x.started| && x.started[n] == f.task)
  }

  /** A ticket of a frame is an old one, or it stands for the call's task that its CPU accepted just now. */
  ghost predicate TicketsFrom(s: State, s': State, f: Frame, g: Frame)
    requires f.Call? && g.Call? && |s.cpus| == |s'.cpus|
  {
    && f.tickets.Keys <= g.tickets.Keys
    && forall c :: c in g.tickets ==>
         if c in f.tickets then g.tickets[c] == f.tickets[c]
         else
           && c < |s.cpus| && g.tickets[c] == |s.cpus[c].accepted|
           && s'.cpus[c].accepted == s.cpus[c].accepted + [f.task]
  }

  /** What a step may do to the frame at place i of a stack k that becomes k'. */
  ghost predicate FrameStep(s: State, s': State, me: nat, k: seq<Frame>, k': seq<Frame>, i: nat)
    requires i < |k| && k[i].Call? && |s.cpus| == |s'.cpus|
  {
    if i < |k'| then
      && SameCall(k[i], k'[i]) && TicketsFrom(s, s', k[i], k'[i])
      && (k[i].ran ==> k'[i].ran)
      && (k'[i].ran && !k[i].ran ==> |k| == i + 2 && k[i + 1] == User && |k'| == i + 1 && me in k[i].mask)
    else |k| == i + 1 && |k'| == i && CallDone(s, me, k[i])
  }

  /** A new frame is user code on behalf of a call that has not run its function yet, or the call invoked. */
  ghost predicate PushStep(s: State, me: nat, a: Action, k: seq<Frame>, k': seq<Frame>) {
    |k'| > |k| && k != [] ==>
      && |k'| == |k| + 1
      && var f := k[|k| - 1];
         if k'[|k|] == User then f.Call? && !f.ran && me in f.mask && f.tickets.Keys == Others(f, me)
         else a.Invoke? && k'[|k|] == Call(a.mask, a.task, a.waits, map[], false, Pick)
  }

  lemma SameSize(s: State, me: nat, a: Action)
    requires Enabled(s, me, a)
    ensures |Apply(s, me, a).cpus| == |s.cpus|
  {
    hide WaitGraph, WaitsOn;
  }

  /** No CPU touches the stack of another. */
  lemma OthersStack(s: State, who: nat, a: Action, me: nat)
    requires Enabled(s, who, a) && me < |s.cpus| && me != who
    ensures me < |Apply(s, who, a).cpus| && Apply(s, who, a).cpus[me].stack == s.cpus[me].stack
  {
    hide WaitGraph, WaitsOn, ApplySend;
    if a.SendStep? { OthersSend(s, who, me); }
  }

  lemma OthersSend(s: State, who: nat, me: nat)
    requires Enabled(s, who, SendStep) && me < |s.cpus| && me != who
    ensures me < |ApplySend(s, who).cpus| && ApplySend(s, who).cpus[me].stack == s.cpus[me].stack
  {
    hide WaitGraph, WaitsOn;
  }

  lemma KeptFrame(s: State, s': State, me: nat, k: seq<Frame>, k': seq<Frame>, i: nat)
    requires i < |k| && k[i].Call? && |s.cpus| == |s'.cpus| && i < |k'| && k'[i] == k[i]
    ensures FrameStep(s, s', me, k, k', i)
  {
  }

  /** A step that only moves the top call on. */
  lemma MovedFrame(s: State, s': State, me: nat, k: seq<Frame>, f: Frame, i: nat)
    requires i < |k| && k[i].Call? && |s.cpus| == |s'.cpus|
    requires SameCall(k[|k| - 1], f) && f.tickets == k[|k| - 1].tickets && f.ran == k[|k| - 1].ran
    ensures FrameStep(s, s', me, k, k[|k| - 1 := f], i)
  {
  }

  /** The steps of do_idle meet no call. */
  lemma LoopNoCall(s: State, me: nat, a: Action, i: nat)
    requires Inv(s) && Enabled(s, me, a) && OfLoop(a) && i < |s.cpus[me].stack|
    ensures !s.cpus[me].stack[i].Call?
  {
    hide WaitGraph, Acyclic, WellFormed, WaitsOn, StackOk;
    assert CpuOk(s.cpus[me]);
  }

  lemma SendLife(s: State, me: nat, i: nat)
    requires Inv(s) && Enabled(s, me, SendStep) && i < |s.cpus[me].stack| && s.cpus[me].stack[i].Call?
    ensures |Apply(s, me, SendStep).cpus| == |s.cpus|
    ensures FrameStep(s, Apply(s, me, SendStep), me, s.cpus[me].stack, Apply(s, me, SendStep).cpus[me].stack, i)
  {
    hide WaitGraph, WaitsOn, FrameStep, Inv, TopOk, ApplySend;
    NewTarget(s, me);
    SameSize(s, me, SendStep);
    var s', k, f := Apply(s, me, SendStep), s.cpus[me].stack, Top(s, me);
    if f.ph.at.Publish? {
      PublishStack(s, me);
      var t := f.ph.target;
      var f' := f.(tickets := f.tickets[t := |s.cpus[t].accepted|], ph := Send(t, Unlock));
      PublishedFrame(s, s', me, k, f', i, t);
    } else {
      var ph := SendStack(s, me);
      MovedFrame(s, s', me, k, f.(ph := ph), i);
    }
  }

  lemma PublishStack(s: State, me: nat)
    requires Enabled(s, me, SendStep) && Top(s, me).ph.at.Publish? && Top(s, me).ph.target != me
    ensures var s', k, f := ApplySend(s, me), s.cpus[me].stack, Top(s, me); var t := f.ph.target;
      && |s'.cpus| == |s.cpus| && s'.cpus[t].accepted == s.cpus[t].accepted + [f.task]
      && s'.cpus[me].stack ==
         k[|k| - 1 := f.(tickets := f.tickets[t := |s.cpus[t].accepted|], ph := Send(t, Unlock))]
  {
    hide WaitGraph, WaitsOn;
  }

  lemma SendStack(s: State, me: nat) returns (ph: Phase)
    requires Enabled(s, me, SendStep) && !Top(s, me).ph.at.Publish? && Top(s, me).ph.target != me
    ensures var s', k := ApplySend(s, me), s.cpus[me].stack;
      |s'.cpus| == |s.cpus| && s'.cpus[me].stack == k[|k| - 1 := Top(s, me).(ph := ph)]
    ensures var at := Top(s, me).ph.at;
      if at.Unlock? then ph == Pick
      else
        && ph.Send? && ph.target == Top(s, me).ph.target
        && (ph.at.Spin? <==> at.SetWaiter?) && (ph.at.ClearWaiter? <==> at.Spin?)
  {
    hide WaitGraph, WaitsOn;
    var t := Top(s, me).ph.target;
    match Top(s, me).ph.at
    case SetWaiter => ph := Send(t, Spin);
    case Spin => ph := Send(t, ClearWaiter);
    case ClearWaiter => ph := Send(t, TakeLock);
    case TakeLock => ph := Send(t, Recheck);
    case Recheck => ph := if s.cpus[t].idle then Send(t, WriteFunc) else Send(t, SetWaiter);
    case WriteFunc => ph := Send(t, WriteData);
    case WriteData => ph := Send(t, Publish);
    case Unlock => ph := Pick;
  }

  lemma NewTarget(s: State, me: nat)
    requires Inv(s) && InCall(s, me) && Top(s, me).ph.Send?
    ensures Top(s, me).ph.target != me && (Top(s, me).ph.at.Publish? ==> Top(s, me).ph.target !in Top(s, me).tickets)
  {
    hide WaitGraph, Acyclic, WellFormed, StackOk, CpuOk;
    CallOkOf(s, me);
  }

  lemma PublishedFrame(s: State, s': State, me: nat, k: seq<Frame>, f': Frame, i: nat, t: nat)
    requires i < |k| && k[i].Call? && |s.cpus| == |s'.cpus| && t < |s.cpus|
    requires SameCall(k[|k| - 1], f') && f'.ran == k[|k| - 1].ran && t !in k[|k| - 1].tickets
    requires f'.tickets == k[|k| - 1].tickets[t := |s.cpus[t].accepted|]
    requires s'.cpus[t].accepted == s.cpus[t].accepted + [k[|k| - 1].task]
    ensures FrameStep(s, s', me, k, k[|k| - 1 := f'], i)
  {
  }

  lemma InvokeLife(s: State, me: nat, a: Action, i: nat)
    requires Inv(s) && Enabled(s, me, a) && (a.Invoke? || a.ReturnSelf?)
    requires i < |s.cpus[me].stack| && s.cpus[me].stack[i].Call?
    ensures |Apply(s, me, a).cpus| == |s.cpus|
    ensures FrameStep(s, Apply(s, me, a), me, s.cpus[me].stack, Apply(s, me, a).cpus[me].stack, i)
  {
    hide WaitGraph, Acyclic, WellFormed, WaitsOn, CpuOk, FrameStep;
    var s', k := Apply(s, me, a), s.cpus[me].stack;
    var k' := s'.cpus[me].stack;
    assert StackOk(s, me);
    if a.ReturnSelf? && i == |k| - 2 {
      assert BuriedOk(s, me, k[i]);
      assert k'[i] == k[i].(ran := true) && |k'| == i + 1;
      ReturnedFrame(s, s', me, k, k', i);
    } else {
      assert k'[i] == k[i];
      KeptFrame(s, s', me, k, k', i);
    }
  }

  lemma ReturnedFrame(s: State, s': State, me: nat, k: seq<Frame>, k': seq<Frame>, i: nat)
    requires |k| == i + 2 && k[i].Call? && k[i + 1] == User && |s.cpus| == |s'.cpus| && me in k[i].mask
    requires |k'| == i + 1 && k'[i] == k[i].(ran := true)
    ensures FrameStep(s, s', me, k, k', i)
  {
  }

  /** The steps of a call other than those of on_cpu_async, up to its end. */
  lemma CallLife(s: State, me: nat, a: Action, i: nat)
    requires Inv(s) && Enabled(s, me, a) && !OfLoop(a) && !a.Invoke? && !a.ReturnSelf? && !a.SendStep?
    requires i < |s.cpus[me].stack| && s.cpus[me].stack[i].Call?
    ensures |Apply(s, me, a).cpus| == |s.cpus|
    ensures FrameStep(s, Apply(s, me, a), me, s.cpus[me].stack, Apply(s, me, a).cpus[me].stack, i)
  {
    hide WaitGraph, Acyclic, WellFormed, WaitsOn, CpuOk, StackOk, FrameStep, Inv, TopOk, CallDone;
    SameSize(s, me, a);
    var s', k, f := Apply(s, me, a), s.cpus[me].stack, Top(s, me);
    var k' := s'.cpus[me].stack;
    if a == Return || (a == SelfDone && !f.waits) {
      assert k' == k[..|k| - 1];
      LeavingDone(s, me, a);
      LeftFrame(s, s', me, k, i);
    } else if a == DispatchDone && me in f.mask {
      var f' := f.(ph := Self);
      assert k' == k[|k| - 1 := f'] + [User];
      MovedFrame(s, s', me, k, f', i);
      DispatchedFrame(s, s', me, k, f', i);
    } else {
      var f' := k'[|k| - 1];
      assert k' == k[|k| - 1 := f'];
      MovedFrame(s, s', me, k, f', i);
    }
  }

  lemma DispatchedFrame(s: State, s': State, me: nat, k: seq<Frame>, f: Frame, i: nat)
    requires i < |k| && k[i].Call? && |s.cpus| == |s'.cpus| && SameCall(k[|k| - 1], f) && f.ran == k[|k| - 1].ran
    requires FrameStep(s, s', me, k, k[|k| - 1 := f], i)
    ensures FrameStep(s, s', me, k, k[|k| - 1 := f] + [User], i)
  {
  }

  lemma LeftFrame(s: State, s': State, me: nat, k: seq<Frame>, i: nat)
    requires i < |k| && k[i].Call? && |s.cpus| == |s'.cpus| && k[|k| - 1].Call? && CallDone(s, me, k[|k| - 1])
    ensures FrameStep(s, s', me, k, k[..|k| - 1], i)
  {
    if i < |k| - 1 { KeptFrame(s, s', me, k, k[..|k| - 1], i); }
  }

  /** A call about to leave is done. */
  lemma LeavingDone(s: State, me: nat, a: Action)
    requires Inv(s) && Enabled(s, me, a) && (a == Return || (a == SelfDone && !Top(s, me).waits))
    ensures CallDone(s, me, Top(s, me))
  {
    hide WaitGraph, Acyclic, WellFormed, WaitsOn, StackOk;
    CallOkOf(s, me);
    var f := Top(s, me);
    forall c | c in f.mask && c != me
      ensures c < |s.cpus| && c in f.tickets
      ensures var x, n := s.cpus[c], f.tickets[c];
        && n < |x.accepted| && x.accepted[n] == f.task
        && (f.waits ==> n < x.completed <= |x.started| && x.started[n] == f.task)
    {
      assert c in Others(f, me);
      assert CpuOk(s.cpus[c]);
    }
  }

  /** In every run, whatever step any CPU takes: a call keeps what it was asked for, gets a ticket only by having
      its task accepted, counts as run on its caller only when user code on its behalf has returned, and is
      popped only when it is done. */
  lemma CallsLeaveWhenDone(steps: seq<(nat, Action)>, s: State, who: nat, a: Action, me: nat, i: nat)
    requires Reached(steps, s) && Enabled(s, who, a)
    requires me < |s.cpus| && i < |s.cpus[me].stack| && s.cpus[me].stack[i].Call?
    ensures |Apply(s, who, a).cpus| == |s.cpus|
    ensures FrameStep(s, Apply(s, who, a), me, s.cpus[me].stack, Apply(s, who, a).cpus[me].stack, i)
  {
    hide Inv, Enabled, Apply, FrameStep, Reached;
    RunsKeepInvariant(steps, s);
    SameSize(s, who, a);
    if me != who {
      OthersStack(s, who, a, me);
      KeptFrame(s, Apply(s, who, a), me, s.cpus[me].stack, s.cpus[me].stack, i);
    } else if OfLoop(a) {
      LoopNoCall(s, me, a, i);
      assert false;
    } else if a.SendStep? {
      SendLife(s, me, i);
    } else if a.Invoke? || a.ReturnSelf? {
      InvokeLife(s, me, a, i);
    } else {
      CallLife(s, me, a, i);
    }
  }

  /** In every run: whatever step takes a waiting call off its CPU's stack, its task has by then been accepted,
      begun and finished by every other CPU in the mask, and the caller has run it if it is in the mask itself. */
  lemma ReturnMeansDone(steps: seq<(nat, Action)>, s: State, me: nat, a: Action, c: nat)
    requires Reached(steps, s) && InCall(s, me) && Top(s, me).waits && Enabled(s, me, a) && c in Top(s, me).mask
    requires me < |Apply(s, me, a).cpus| && |Apply(s, me, a).cpus[me].stack| < |s.cpus[me].stack|
    ensures var f := Top(s, me);
      if c == me then f.ran
      else
        && c < |s.cpus| && c in f.tickets
        && var x, n := s.cpus[c], f.tickets[c];
           n < x.completed <= |x.started| && n < |x.accepted| && x.started[n] == x.accepted[n] == f.task
  {
    hide Reached, Enabled, Apply;
    CallsLeaveWhenDone(steps, s, me, a, me, |s.cpus[me].stack| - 1);
  }

  /** In every run: whatever step takes a call that does not wait off the stack, all its targets have accepted
      its task by then. */
  lemma AsyncReturnMeansAccepted(steps: seq<(nat, Action)>, s: State, me: nat, a: Action, c: nat)
    requires Reached(steps, s) && InCall(s, me) && !Top(s, me).waits && Enabled(s, me, a) && c in Top(s, me).mask
    requires me < |Apply(s, me, a).cpus| && |Apply(s, me, a).cpus[me].stack| < |s.cpus[me].stack|
    ensures var f := Top(s, me);
      if c == me then f.ran
      else
        && c < |s.cpus| && c in f.tickets
        && f.tickets[c] < |s.cpus[c].accepted| && s.cpus[c].accepted[f.tickets[c]] == f.task
  {
    hide Reached, Enabled, Apply;
    CallsLeaveWhenDone(steps, s, me, a, me, |s.cpus[me].stack| - 1);
  }

  /** In every run: a stack grows only by a call that is invoked, as asked for, or by the caller's own turn of a
      function that all other targets have accepted and that it has not run before. */
  lemma StacksGrow(steps: seq<(nat, Action)>, s: State, who: nat, a: Action, me: nat)
    requires Reached(steps, s) && Enabled(s, who, a) && me < |s.cpus|
    ensures me < |Apply(s, who, a).cpus|
    ensures PushStep(s, me, a, s.cpus[me].stack, Apply(s, who, a).cpus[me].stack)
  {
    hide Inv, Reached, WaitGraph, WaitsOn, TopOk;
    RunsKeepInvariant(steps, s);
    SameSize(s, who, a);
    if me != who {
      OthersStack(s, who, a, me);
    } else if a == DispatchDone {
      NotRunYet(s, me);
    } else if OfLoop(a) {
      LoopStack(s, me, a);
    }
  }

  lemma NotRunYet(s: State, me: nat)
    requires Inv(s) && InCall(s, me) && Top(s, me).ph == Pick
    ensures !Top(s, me).ran
  {
    CallOkOf(s, me);
  }

  lemma LoopStack(s: State, me: nat, a: Action)
    requires Inv(s) && Enabled(s, me, a) && OfLoop(a)
    ensures s.cpus[me].stack != [] ==> |Apply(s, me, a).cpus[me].stack| <= |s.cpus[me].stack|
  {
    hide WaitGraph, Acyclic, WellFormed, WaitsOn, StackOk;
    assert CpuOk(s.cpus[me]);
  }

  // ----- What can hold a CPU up -----

  /** The CPU waits for something another CPU has to do, or for a deadlock to be reported, or has no code to run. */
  ghost predicate Blocked(s: State, me: nat)
    requires me < |s.cpus|
  {
    var x := s.cpus[me];
    || (x.loop == Off && x.stack == [])
    || (x.loop == Waiting && x.idle)
    || (InCall(s, me) && CallBlocked(s, me, Top(s, me)))
  }

  ghost predicate CallBlocked(s: State, me: nat, f: Frame)
    requires f.Call?
  {
    match f.ph
    case Send(t, at) =>
      t < |s.cpus| &&
      match at {
        case SetWaiter => WaitsOn(WaitGraph(s), t, me)
        case Spin => !s.cpus[t].idle
        case TakeLock => s.lock != None
        case _ => false
      }
    case Register(done) =>
      done != Others(f, me) && forall c :: c in Others(f, me) - done ==> WaitsOn(WaitGraph(s), c, me)
    case _ => false
  }

  lemma CallCanStep(s: State, me: nat) returns (a: Action)
    requires Inv(s) && InCall(s, me) && !CallBlocked(s, me, Top(s, me))
    ensures Enabled(s, me, a)
  {
    hide Acyclic, WellFormed, StackOk, WaitGraph, WaitsOn, CpuOk, TicketsOk;
    CallOkOf(s, me);
    var f := Top(s, me);
    match f.ph
    case Pick =>
      if f.tickets.Keys == Others(f, me) {
        a := DispatchDone;
      } else {
        var c :| c in Others(f, me) && c !in f.tickets;
        a := PickTarget(c);
      }
    case Send(_, _) => a := SendStep;
    case Self => a := SelfDone;
    case Register(done) =>
      if done == Others(f, me) {
        a := RegisterDone;
      } else {
        var c :| c in Others(f, me) - done && !WaitsOn(WaitGraph(s), c, me);
        a := RegisterOn(c);
      }
    case Await(_) => a := Retry;
    case Deregister(left) =>
      if left == {} {
        a := Return;
      } else {
        var c :| c in left;
        a := DeregisterFrom(c);
      }
  }

  lemma CallCannotStep(s: State, me: nat, a: Action)
    requires Inv(s) && InCall(s, me) && CallBlocked(s, me, Top(s, me))
    ensures !Enabled(s, me, a)
  {
    hide Acyclic, WellFormed, StackOk, WaitGraph, WaitsOn;
    assert CpuOk(s.cpus[me]);
  }

  lemma IdleCanStep(s: State, me: nat) returns (a: Action)
    requires Inv(s) && me < |s.cpus| && !InCall(s, me) && !Blocked(s, me)
    ensures Enabled(s, me, a)
  {
    hide Acyclic, WellFormed, WaitGraph, WaitsOn;
    var x := s.cpus[me];
    assert CpuOk(x) && StackOk(s, me);
    if x.stack != [] {
      a := Invoke({}, Task(0, 0), false);
    } else {
      a := if x.loop == GoIdle then SetIdle else if x.loop == Waiting then Wake else RunTask;
    }
  }

  lemma IdleCannotStep(s: State, me: nat, a: Action)
    requires Inv(s) && me < |s.cpus| && !InCall(s, me) && Blocked(s, me)
    ensures !Enabled(s, me, a)
  {
    hide Acyclic, WellFormed, WaitGraph, WaitsOn, StackOk;
    assert CpuOk(s.cpus[me]);
  }

  /** In every run: a CPU can take a step exactly when it is not blocked. So a call is held up only while a target
      it spins on is not idle, while another CPU holds the lock, or by a deadlock that the check reports; with the
      lock held, and once it has seen its targets idle, nothing holds it up. */
  lemma StepsUnlessBlocked(steps: seq<(nat, Action)>, s: State, me: nat)
    requires Reached(steps, s) && me < |s.cpus|
    ensures (exists a :: Enabled(s, me, a)) <==> !Blocked(s, me)
  {
    hide Inv, Enabled, Reached, CallBlocked;
    RunsKeepInvariant(steps, s);
    if Blocked(s, me) {
      forall a ensures !Enabled(s, me, a) {
        if InCall(s, me) { InCallOnly(s, me); CallCannotStep(s, me, a); } else { IdleCannotStep(s, me, a); }
      }
    } else if InCall(s, me) {
      var a := CallCanStep(s, me);
    } else {
      var a := IdleCanStep(s, me);
    }
  }

  lemma InCallOnly(s: State, me: nat)
    requires Inv(s) && InCall(s, me) && Blocked(s, me)
    ensures CallBlocked(s, me, Top(s, me))
  {
    hide Acyclic, WellFormed, WaitGraph, WaitsOn, StackOk, CallBlocked;
    assert CpuOk(s.cpus[me]);
  }

  /** In every run: once all its targets are idle, a waiting call can finish by steps of its own. */
  lemma AwaitEnds(steps: seq<(nat, Action)>, s: State, me: nat)
    requires Reached(steps, s) && InCall(s, me) && Top(s, me).ph.Await?
    requires forall c :: c in Others(Top(s, me), me) ==> c < |s.cpus| && s.cpus[c].idle
    ensures var f := Top(s, me);
      if f.ph.seen == Others(f, me) then Enabled(s, me, AwaitDone)
      else exists c :: c !in f.ph.seen && Enabled(s, me, Observe(c))
  {
    hide WaitGraph, Acyclic, WellFormed, StackOk, Reached, CpuOk, TicketsOk, Finished;
    RunsKeepInvariant(steps, s);
    CallOkOf(s, me);
    var f := Top(s, me);
    if f.ph.seen != Others(f, me) {
      var c :| c in Others(f, me) && c !in f.ph.seen;
      assert Enabled(s, me, Observe(c));
    }
  }
}
