/** The cross-CPU dispatch protocol (lib/on-cpus.c) as interleaved steps of any number of CPUs.
    Each step is one access to shared memory; setting a waiter bit and checking for deadlock is one step. */
module OnCpus {
  import opened Basics
  import opened Deadlock

  /** A function and its argument. */
  datatype Task = Task(func: nat, data: nat)

  /** Where a CPU is in do_idle; Off before it has entered it. */
  datatype Loop = Off | GoIdle | Waiting | GotFunc(func: nat) | Running

  /** Where on_cpu_async is with its current target. */
  datatype Sending = SetWaiter | Spin | ClearWaiter | TakeLock | Recheck | WriteFunc | WriteData | Publish | Unlock

  datatype Phase =
    | Pick                          // for_each_cpu: choose the next target
    | Send(target: nat, at: Sending)
    | Self                          // the caller runs the function itself, if it is in the mask
    | Register(done: set<nat>)      // set the waiter bits
    | Await(seen: set<nat>)         // read the idle mask until it covers the targets
    | Deregister(left: set<nat>)    // clear the waiter bits

  /** User code, or a call of one of on_cpu, on_cpumask (waits) and their async forms. on_cpu(c) is the
      call with mask {c}. tickets[c] is the place of this call's task in the list of tasks c accepted. */
  datatype Frame =
    | User
    | Call(mask: set<nat>, task: Task, waits: bool, tickets: map<nat, nat>, ran: bool, ph: Phase)

  /** One CPU: its control, its entries of on_cpu_info and cpu_idle_mask, and what it was given, has begun
      and has finished. */
  datatype Cpu = Cpu(loop: Loop, stack: seq<Frame>, idle: bool, info: Task, waiters: set<nat>,
                     accepted: seq<Task>, started: seq<Task>, completed: nat)

  datatype State = State(cpus: seq<Cpu>, lock: Option<nat>)

  datatype Action =
    | EnterIdle | SetIdle | Wake | RunTask | FinishTask
    | Invoke(mask: set<nat>, task: Task, waits: bool) | ReturnSelf
    | PickTarget(c: nat) | SendStep | DispatchDone | SelfDone
    | RegisterOn(c: nat) | RegisterDone | Observe(c: nat) | Retry | AwaitDone | DeregisterFrom(c: nat) | Return

  ghost function WaitGraph(s: State): (g: Graph) {
    seq(|s.cpus|, c requires 0 <= c < |s.cpus| => s.cpus[c].waiters)
  }

  // ----- Steps -----

  predicate HasTop(s: State, me: nat) {
    me < |s.cpus| && s.cpus[me].stack != []
  }

  function Top(s: State, me: nat): (f: Frame)
    requires HasTop(s, me)
  {
    s.cpus[me].stack[|s.cpus[me].stack| - 1]
  }

  predicate InCall(s: State, me: nat) {
    HasTop(s, me) && Top(s, me).Call?
  }

  /** The targets of a call other than the caller. */
  function Others(f: Frame, me: nat): (others: set<nat>)
    requires f.Call?
  {
    f.mask - {me}
  }

  function WithCpu(s: State, c: nat, x: Cpu): (s': State)
    requires c < |s.cpus|
  {
    s.(cpus := s.cpus[c := x])
  }

  function WithStack(s: State, me: nat, k: seq<Frame>): (s': State)
    requires me < |s.cpus|
  {
    WithCpu(s, me, s.cpus[me].(stack := k))
  }

  function WithTop(s: State, me: nat, f: Frame): (s': State)
    requires HasTop(s, me)
  {
    var k := s.cpus[me].stack;
    WithStack(s, me, k[|k| - 1 := f])
  }

  function Pop(s: State, me: nat): (s': State)
    requires HasTop(s, me)
  {
    var k := s.cpus[me].stack;
    WithStack(s, me, k[..|k| - 1])
  }

  ghost predicate SendEnabled(s: State, me: nat, t: nat, at: Sending)
    requires me < |s.cpus| && t < |s.cpus|
  {
    match at
    case SetWaiter => !WaitsOn(WaitGraph(s), t, me)
    case Spin => s.cpus[t].idle
    case TakeLock => s.lock == None
    case _ => true
  }

  ghost predicate Enabled(s: State, me: nat, a: Action) {
    && me < |s.cpus|
    && var cpu := s.cpus[me];
    match a
    case EnterIdle => cpu.loop == Off && cpu.stack == [User]
    case SetIdle => cpu.loop == GoIdle
    case Wake => cpu.loop == Waiting && !cpu.idle
    case RunTask => cpu.loop.GotFunc?
    case FinishTask => cpu.loop == Running && cpu.stack == [User]
    case Invoke(mask, _, _) => HasTop(s, me) && Top(s, me) == User && forall c :: c in mask ==> c < |s.cpus|
    case ReturnSelf => HasTop(s, me) && Top(s, me) == User && |cpu.stack| > 1 && cpu.stack[|cpu.stack| - 2].Call?
    case PickTarget(c) =>
      && InCall(s, me) && Top(s, me).ph == Pick
      && c < |s.cpus| && c in Others(Top(s, me), me) && c !in Top(s, me).tickets
    case SendStep =>
      && InCall(s, me) && Top(s, me).ph.Send? && Top(s, me).ph.target < |s.cpus|
      && SendEnabled(s, me, Top(s, me).ph.target, Top(s, me).ph.at)
    case DispatchDone => InCall(s, me) && Top(s, me).ph == Pick && Top(s, me).tickets.Keys == Others(Top(s, me), me)
    case SelfDone => InCall(s, me) && Top(s, me).ph == Self
    case RegisterOn(c) =>
      && InCall(s, me) && Top(s, me).ph.Register?
      && c < |s.cpus| && c in Others(Top(s, me), me) - Top(s, me).ph.done && !WaitsOn(WaitGraph(s), c, me)
    case RegisterDone => InCall(s, me) && Top(s, me).ph == Register(Others(Top(s, me), me))
    case Observe(c) =>
      && InCall(s, me) && Top(s, me).ph.Await?
      && c < |s.cpus| && c in Others(Top(s, me), me) && s.cpus[c].idle
    case Retry => InCall(s, me) && Top(s, me).ph.Await?
    case AwaitDone => InCall(s, me) && Top(s, me).ph == Await(Others(Top(s, me), me))
    case DeregisterFrom(c) =>
      InCall(s, me) && Top(s, me).ph.Deregister? && c < |s.cpus| && c in Top(s, me).ph.left
    case Return => InCall(s, me) && Top(s, me).ph == Deregister({})
  }

  /** One access of on_cpu_async to the shared state. */
  function ApplySend(s: State, me: nat): (s': State)
    requires InCall(s, me) && Top(s, me).ph.Send? && Top(s, me).ph.target < |s.cpus|
  {
    var f := Top(s, me);
    var t := f.ph.target;
    var tc := s.cpus[t];
    match f.ph.at
    case SetWaiter => Move(WithCpu(s, t, tc.(waiters := tc.waiters + {me})), me, Spin)
    case Spin => Move(s, me, ClearWaiter)
    case ClearWaiter => Move(WithCpu(s, t, tc.(waiters := tc.waiters - {me})), me, TakeLock)
    case TakeLock => Move(s, me, Recheck).(lock := Some(me))
    case Recheck => if tc.idle then Move(s, me, WriteFunc) else Move(s, me, SetWaiter).(lock := None)
    case WriteFunc => Move(WithCpu(s, t, tc.(info := tc.info.(func := f.task.func))), me, WriteData)
    case WriteData => Move(WithCpu(s, t, tc.(info := tc.info.(data := f.task.data))), me, Publish)
    case Publish =>
      var s' := WithCpu(s, t, tc.(idle := false, accepted := tc.accepted + [f.task]));
      WithTop(s', me, f.(tickets := f.tickets[t := |tc.accepted|], ph := Send(t, Unlock)))
    case Unlock => WithTop(s, me, f.(ph := Pick)).(lock := None)
  }

  /** The caller moves on to the next point of on_cpu_async. */
  function Move(s: State, me: nat, at: Sending): (s': State)
    requires InCall(s, me) && Top(s, me).ph.Send?
  {
    WithTop(s, me, Top(s, me).(ph := Send(Top(s, me).ph.target, at)))
  }

  ghost function Apply(s: State, me: nat, a: Action): (s': State)
    requires Enabled(s, me, a)
  {
    var cpu := s.cpus[me];
    match a
    case EnterIdle => WithCpu(s, me, cpu.(loop := GoIdle, stack := []))
    case SetIdle => WithCpu(s, me, cpu.(loop := Waiting, idle := true))
    case Wake => WithCpu(s, me, cpu.(loop := GotFunc(cpu.info.func)))
    case RunTask =>
      var task := Task(cpu.loop.func, cpu.info.data);
      WithCpu(s, me, cpu.(loop := Running, stack := [User], started := cpu.started + [task]))
    case FinishTask => WithCpu(s, me, cpu.(loop := GoIdle, stack := [], completed := cpu.completed + 1))
    case Invoke(mask, task, waits) =>
      WithStack(s, me, cpu.stack + [Call(mask, task, waits, map[], false, Pick)])
    case ReturnSelf =>
      var s' := Pop(s, me);
      WithTop(s', me, Top(s', me).(ran := true))
    case PickTarget(c) =>
      // smp_boot_secondary_nofail: an offline CPU is started in do_idle
      var cc := s.cpus[c];
      var s' := if cc.loop == Off && cc.stack == [] then WithCpu(s, c, cc.(loop := GoIdle)) else s;
      WithTop(s', me, Top(s, me).(ph := Send(c, SetWaiter)))
    case SendStep => ApplySend(s, me)
    case DispatchDone =>
      var s' := WithTop(s, me, Top(s, me).(ph := Self));
      if me in Top(s, me).mask then WithStack(s', me, s'.cpus[me].stack + [User]) else s'
    case SelfDone => if Top(s, me).waits then WithTop(s, me, Top(s, me).(ph := Register({}))) else Pop(s, me)
    case RegisterOn(c) =>
      var s' := WithCpu(s, c, s.cpus[c].(waiters := s.cpus[c].waiters + {me}));
      WithTop(s', me, Top(s, me).(ph := Register(Top(s, me).ph.done + {c})))
    case RegisterDone => WithTop(s, me, Top(s, me).(ph := Await({})))
    case Observe(c) => WithTop(s, me, Top(s, me).(ph := Await(Top(s, me).ph.seen + {c})))
    case Retry => WithTop(s, me, Top(s, me).(ph := Await({})))
    case AwaitDone => WithTop(s, me, Top(s, me).(ph := Deregister(Others(Top(s, me), me))))
    case DeregisterFrom(c) =>
      var s' := WithCpu(s, c, s.cpus[c].(waiters := s.cpus[c].waiters - {me}));
      WithTop(s', me, Top(s, me).(ph := Deregister(Top(s, me).ph.left - {c})))
    case Return => Pop(s, me)
  }

  // ----- Invariant -----

  /** do_idle and the records of one CPU agree: at most one task is accepted and not begun, it is the one
      in on_cpu_info, and an idle CPU has begun and finished everything it accepted. */
  ghost predicate CpuOk(c: Cpu) {
    match c.loop
    case Off => !c.idle && c.accepted == [] && c.started == [] && c.completed == 0
    case GoIdle => !c.idle && c.stack == [] && c.started == c.accepted && c.completed == |c.accepted|
    case Waiting =>
      && c.stack == [] && c.completed == |c.started|
      && if c.idle then c.started == c.accepted else c.accepted == c.started + [c.info]
    case GotFunc(f) =>
      && !c.idle && c.stack == [] && c.completed == |c.started|
      && c.accepted == c.started + [c.info] && f == c.info.func
    case Running => !c.idle && c.stack != [] && c.started == c.accepted && c.completed + 1 == |c.accepted|
  }

  /** Phases in which the caller holds the lock. */
  predicate Locked(ph: Phase) {
    ph.Send? && (ph.at.Recheck? || ph.at.WriteFunc? || ph.at.WriteData? || ph.at.Publish? || ph.at.Unlock?)
  }

  ghost predicate TicketsOk(s: State, f: Frame)
    requires f.Call?
  {
    forall c :: c in f.tickets ==>
      c < |s.cpus| && f.tickets[c] < |s.cpus[c].accepted| && s.cpus[c].accepted[f.tickets[c]] == f.task
  }

  /** Each of the CPUs in cs has finished this call's task. */
  ghost predicate Finished(s: State, f: Frame, cs: set<nat>)
    requires f.Call?
  {
    forall c :: c in cs ==> c in f.tickets && c < |s.cpus| && f.tickets[c] < s.cpus[c].completed
  }

  ghost predicate Waits(s: State, me: nat, cs: set<nat>) {
    forall c :: c in cs ==> c < |s.cpus| && me in s.cpus[c].waiters
  }

  ghost predicate SendOk(s: State, me: nat, f: Frame, t: nat, at: Sending)
    requires f.Call?
  {
    && !f.ran && t < |s.cpus| && t != me && t in f.mask && (t in f.tickets <==> at.Unlock?)
    && (at.Spin? || at.ClearWaiter? ==> me in s.cpus[t].waiters)
    && (at.WriteFunc? || at.WriteData? || at.Publish? ==> s.cpus[t].idle)
    && (at.WriteData? || at.Publish? ==> s.cpus[t].info.func == f.task.func)
    && (at.Publish? ==> s.cpus[t].info == f.task)
  }

  ghost predicate PhaseOk(s: State, me: nat, f: Frame)
    requires f.Call?
  {
    match f.ph
    case Pick => !f.ran
    case Send(t, at) => SendOk(s, me, f, t, at)
    case Self => f.tickets.Keys == Others(f, me) && (me in f.mask ==> f.ran)
    case Register(done) =>
      && f.waits && f.tickets.Keys == Others(f, me) && f.ran == (me in f.mask)
      && done <= Others(f, me) && Waits(s, me, done)
    case Await(seen) =>
      && f.waits && f.tickets.Keys == Others(f, me) && f.ran == (me in f.mask)
      && seen <= Others(f, me) && Waits(s, me, Others(f, me)) && Finished(s, f, seen)
    case Deregister(left) =>
      && f.waits && f.tickets.Keys == Others(f, me) && f.ran == (me in f.mask)
      && left <= Others(f, me) && Waits(s, me, left) && Finished(s, f, Others(f, me))
  }

  /** A call below another frame is running its function on the caller. */
  ghost predicate BuriedOk(s: State, me: nat, f: Frame) {
    f.Call? ==>
      && (forall c :: c in f.mask ==> c < |s.cpus|) && TicketsOk(s, f) && !f.ran
      && f.ph == Self && f.tickets.Keys == Others(f, me) && me in f.mask
  }

  ghost predicate TopOk(s: State, me: nat, f: Frame) {
    f.Call? ==>
      && (forall c :: c in f.mask ==> c < |s.cpus|) && TicketsOk(s, f) && (f.ran ==> me in f.mask)
      && f.tickets.Keys <= Others(f, me) && PhaseOk(s, me, f)
      && (Locked(f.ph) ==> s.lock == Some(me))
  }

  /** User code and calls take turns on a stack. */
  ghost predicate Alternates(k: seq<Frame>) {
    forall i :: 0 <= i < |k| ==> (k[i].User? <==> i % 2 == 0)
  }

  ghost predicate StackOk(s: State, me: nat)
    requires me < |s.cpus|
  {
    var k := s.cpus[me].stack;
    && Alternates(k)
    && (forall i :: 0 <= i < |k| - 1 ==> BuriedOk(s, me, k[i]))
    && (k != [] ==> TopOk(s, me, k[|k| - 1]))
  }

  ghost predicate Inv(s: State) {
    && (forall c :: 0 <= c < |s.cpus| ==> CpuOk(s.cpus[c]))
    && (forall c :: 0 <= c < |s.cpus| ==> StackOk(s, c))
    && (s.lock.Some? ==> InCall(s, s.lock.value) && Locked(Top(s, s.lock.value).ph))
    && WellFormed(WaitGraph(s)) && Acyclic(WaitGraph(s))
  }
}
