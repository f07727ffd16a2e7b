/** Several processors, one kernel lock: traps, scheduling, environment life cycle and message
    passing, one step of one processor at a time. */
module Kernel {
  import opened Wrappers

  datatype Status = Free | Dying | Runnable | Running | NotRunnable

  datatype Message = Message(sender: nat, value: nat)

  /** Where the environment is in its library's `ipc_recv`. */
  datatype Phase = Idle | Waiting | Delivered

  /** `inbox` holds `env_ipc_from` and `env_ipc_value`. */
  datatype Env = Env(status: Status, id: nat, recving: bool, inbox: Message, phase: Phase)

  /** Where a processor is. `Spin` waits in `lock_kernel`; `again` is the second `lock_kernel` of
      `trap`. From `Trapped` to `Unlocking` or `Halting` the processor is inside the kernel. */
  datatype Pc =
    | Off
    | User
    | Halted
    | Spin(fromUser: bool, again: bool)
    | Boot
    | Trapped(fromUser: bool)
    | Dispatch(fromUser: bool)
    | Post
    | Yield
    | Run(env: nat)
    | Unlocking
    | Halting
    | Stuck
    | Leaving

  datatype CpuStatus = Unused | Started | CpuHalted

  /** `entries`, `acquired` and `released` count kernel entries and lock operations. */
  datatype Cpu = Cpu(pc: Pc, status: CpuStatus, cur: Option<nat>, entries: nat, acquired: nat, released: nat)

  datatype State = State(cpus: seq<Cpu>, envs: seq<Env>, locked: Option<nat>)

  datatype Action =
    | StartUp
    | Interrupt
    | Acquire
    | Collect
    | Timer
    | Quiet
    | Fork(slot: nat)
    | Destroy(target: nat)
    | SetStatus(target: nat, runnable: bool)
    | Receive
    | BadReceive
    | Send(target: nat, value: nat)
    | Resume
    | Pick(target: nat)
    | PickNone
    | SwitchTo
    | Release
    | Return
    | TakeMessage

  datatype Step = Step(cpu: nat, action: Action)

  const NENV: nat := 1024
  const FIRST_ID: nat := 4096
  const ID_LIMIT: nat := 0x8000_0000

  // ---------------------------------------------------------------------------------------------
  // Steps

  predicate InKernel(pc: Pc) {
    pc.Trapped? || pc.Dispatch? || pc.Post? || pc.Yield? || pc.Run? || pc.Unlocking? || pc.Halting? || pc.Stuck?
  }

  predicate CurIs(s: State, c: nat, st: Status) {
    c < |s.cpus| && s.cpus[c].cur.Some? && s.cpus[c].cur.value < |s.envs| && s.envs[s.cpus[c].cur.value].status == st
  }

  predicate NobodyRunnable(s: State) {
    forall e :: 0 <= e < |s.envs| ==> !s.envs[e].status.Runnable?
  }

  /** The loop of `sched_halt` finds nothing left to wait for. */
  predicate NothingLeft(s: State) {
    forall e :: 0 <= e < |s.envs| ==> s.envs[e].status.Free? || s.envs[e].status.NotRunnable?
  }

  /** The target of a system call: an environment that is not free. */
  predicate Live(s: State, e: nat) {
    e < |s.envs| && !s.envs[e].status.Free?
  }

  predicate InCall(s: State, c: nat) {
    c < |s.cpus| && s.cpus[c].pc == Dispatch(true) && s.cpus[c].cur.Some? && s.cpus[c].cur.value < |s.envs|
  }

  predicate Enabled(s: State, t: Step) {
    t.cpu < |s.cpus| &&
    var c := s.cpus[t.cpu];
    match t.action
    case StartUp => c.pc.Off?
    case Interrupt => c.pc.User? || c.pc.Halted?
    case Acquire => (c.pc.Spin? || c.pc.Boot?) && s.locked.None?
    case Collect => c.pc.Trapped? && (c.pc.fromUser ==> c.cur.Some? && c.cur.value < |s.envs|)
    case Timer => c.pc.Dispatch?
    case Quiet => c.pc.Dispatch?
    case Fork(e) => InCall(s, t.cpu) && e < |s.envs| <= NENV && s.envs[e].status.Free?
    case Destroy(e) => InCall(s, t.cpu) && Live(s, e)
    case SetStatus(e, _) => InCall(s, t.cpu) && Live(s, e)
    case Receive => InCall(s, t.cpu) && s.envs[c.cur.value].phase.Idle?
    case BadReceive => InCall(s, t.cpu)
    case Send(e, _) => InCall(s, t.cpu) && Live(s, e)
    case Resume => c.pc.Post?
    case Pick(e) => c.pc.Yield? && e < |s.envs| && (s.envs[e].status.Runnable? || (NobodyRunnable(s) && CurIs(s, t.cpu, Running) && c.cur == Some(e)))
    case PickNone => c.pc.Yield? && NobodyRunnable(s) && !CurIs(s, t.cpu, Running)
    case SwitchTo => c.pc.Run? && c.pc.env < |s.envs| && (c.cur.Some? ==> c.cur.value < |s.envs|)
    case Release => c.pc.Unlocking? || c.pc.Halting?
    case Return => c.pc.Leaving?
    case TakeMessage => c.pc.User? && c.cur.Some? && c.cur.value < |s.envs| && s.envs[c.cur.value].phase.Delivered?
  }

  function SetCpu(s: State, c: nat, x: Cpu): State {
    if c < |s.cpus| then s.(cpus := s.cpus[c := x]) else s
  }

  function Go(s: State, c: nat, pc: Pc): State {
    if c < |s.cpus| then SetCpu(s, c, s.cpus[c].(pc := pc)) else s
  }

  function SetEnv(s: State, e: nat, x: Env): State {
    if e < |s.envs| then s.(envs := s.envs[e := x]) else s
  }

  function Mark(s: State, e: nat, st: Status): State {
    if e < |s.envs| then SetEnv(s, e, s.envs[e].(status := st)) else s
  }

  /** `env_id` of the next environment in a slot: the generation goes up, and starts over before the
      identifier would turn negative. It always differs from the slot's last one. */
  function NextId(id: nat, slot: nat): (next: nat)
    requires slot < NENV
    ensures next % NENV == slot && FIRST_ID <= next < ID_LIMIT
    ensures id < ID_LIMIT ==> next != id
  {
    var generation := (id + FIRST_ID) / NENV * NENV;
    (if generation >= ID_LIMIT then FIRST_ID else generation) + slot
  }

  /** The identifiers of a slot go up by 4096, and start over at the end of the positive ones. */
  lemma NextIdIs(id: nat, slot: nat)
    requires slot < NENV && id < ID_LIMIT && (id == 0 || id % NENV == slot)
    ensures NextId(id, slot) == if id == 0 || id + 4096 >= 0x8000_0000 then 4096 + slot else id + 4096
  {}

  /** The identifier of the `n`th environment in a slot. */
  function NthId(slot: nat, n: nat): nat
    requires slot < NENV
  {
    if n == 0 then 0 else NextId(NthId(slot, n - 1), slot)
  }

  lemma Generation(slot: nat, g: nat)
    requires slot < NENV
    ensures (4096 + slot + 4096 * g) % NENV == slot
  {}

  lemma OneMore(n: nat)
    ensures (n + 1) % 524287 == if n % 524287 == 524286 then 0 else n % 524287 + 1
  {}

  lemma {:induction false} NthIdIs(slot: nat, n: nat)
    requires slot < NENV && n > 0
    ensures NthId(slot, n) == 4096 + slot + 4096 * ((n - 1) % 524287)
    decreases n
  {
    hide NextId;
    assert NthId(slot, 0) == 0;
    if n > 1 {
      NthIdIs(slot, n - 1);
      Generation(slot, (n - 2) % 524287);
      NextIdIs(NthId(slot, n - 1), slot);
      OneMore(n - 2);
    } else {
      NextIdIs(0, slot);
    }
  }

  /** A slot repeats an identifier after 524287 environments, and not before. */
  lemma IdsRepeat(slot: nat, m: nat, n: nat)
    requires slot < NENV && 0 < m <= n
    ensures NthId(slot, m) == NthId(slot, n) <==> (n - m) % 524287 == 0
  {
    hide NthId;
    NthIdIs(slot, m);
    NthIdIs(slot, n);
    SameRemainder(m - 1, n - 1);
  }

  lemma SameRemainder(x: nat, y: nat)
    requires x <= y
    ensures x % 524287 == y % 524287 <==> (y - x) % 524287 == 0
  {
    var d := y - x;
    assert x == 524287 * (x / 524287) + x % 524287;
    assert y == 524287 * (y / 524287) + y % 524287;
    assert d == 524287 * (d / 524287) + d % 524287;
  }

  /** The entry of `trap`: `cpu_status` is exchanged, and a halted processor takes the lock before the
      one taken for user mode. */
  function Trap(s: State, c: nat): State
    requires c < |s.cpus|
  {
    var x, user := s.cpus[c], s.cpus[c].pc.User?;
    var pc := if x.status.CpuHalted? then Spin(user, user) else if user then Spin(true, false) else Dispatch(false);
    SetCpu(s, c, x.(pc := pc, status := Started, entries := x.entries + 1))
  }

  function Locked(s: State, c: nat): State
    requires c < |s.cpus|
  {
    var x := s.cpus[c];
    var pc := if x.pc.Boot? then Yield else if x.pc.Spin? && x.pc.again then Spin(x.pc.fromUser, false) else if x.pc.Spin? then Trapped(x.pc.fromUser) else x.pc;
    SetCpu(s, c, x.(pc := pc, acquired := x.acquired + 1)).(locked := Some(c))
  }

  /** `env_destroy` by processor `c`: an environment running elsewhere becomes a zombie. */
  function Destroyed(s: State, c: nat, e: nat): State
    requires c < |s.cpus| && e < |s.envs|
  {
    if s.envs[e].status.Running? && s.cpus[c].cur != Some(e) then Go(Mark(s, e, Dying), c, Post)
    else if s.cpus[c].cur == Some(e) then SetCpu(Mark(s, e, Free), c, s.cpus[c].(pc := Yield, cur := None))
    else Go(Mark(s, e, Free), c, Post)
  }

  /** `sys_ipc_try_send` without a page: fails unless the target is receiving. */
  function Delivery(s: State, e: nat, m: Message): State
    requires e < |s.envs|
  {
    var x := s.envs[e];
    if !x.recving then s
    else SetEnv(s, e, x.(recving := false, inbox := m, status := Runnable, phase := Delivered))
  }

  /** `env_run` up to the lock. */
  function Switched(s: State, c: nat): State
    requires c < |s.cpus| && s.cpus[c].pc.Run?
  {
    var x := s.cpus[c];
    var s1 := if CurIs(s, c, Running) then Mark(s, x.cur.value, Runnable) else s;
    SetCpu(Mark(s1, x.pc.env, Running), c, x.(pc := Unlocking, cur := Some(x.pc.env)))
  }

  function Next(s: State, t: Step): (s': State)
    requires Enabled(s, t)
    ensures |s'.cpus| == |s.cpus| && |s'.envs| == |s.envs|
  {
    var c := s.cpus[t.cpu];
    match t.action
    case StartUp => SetCpu(s, t.cpu, c.(pc := Boot, status := Started, entries := c.entries + 1))
    case Interrupt => Trap(s, t.cpu)
    case Acquire => Locked(s, t.cpu)
    case Collect =>
      if c.pc.fromUser && CurIs(s, t.cpu, Dying) then SetCpu(Mark(s, c.cur.value, Free), t.cpu, c.(pc := Yield, cur := None))
      else Go(s, t.cpu, Dispatch(c.pc.fromUser))
    case Timer => Go(s, t.cpu, Yield)
    case Quiet => Go(s, t.cpu, Post)
    case Fork(e) => Go(SetEnv(s, e, Env(NotRunnable, NextId(s.envs[e].id, e), false, s.envs[e].inbox, Idle)), t.cpu, Post)
    case Destroy(e) => Destroyed(s, t.cpu, e)
    case SetStatus(e, runnable) => Go(Mark(s, e, if runnable then Runnable else NotRunnable), t.cpu, Post)
    case Receive => Go(SetEnv(s, c.cur.value, s.envs[c.cur.value].(recving := true, status := NotRunnable, phase := Waiting)), t.cpu, Yield)
    case BadReceive => Go(SetEnv(s, c.cur.value, s.envs[c.cur.value].(recving := true)), t.cpu, Post)
    case Send(e, v) => Go(Delivery(s, e, Message(s.envs[c.cur.value].id, v)), t.cpu, Post)
    case Resume => Go(s, t.cpu, if CurIs(s, t.cpu, Running) then Run(c.cur.value) else Yield)
    case Pick(e) => Go(s, t.cpu, Run(e))
    case PickNone => if NothingLeft(s) then Go(s, t.cpu, Stuck) else SetCpu(s, t.cpu, c.(pc := Halting, cur := None, status := CpuHalted))
    case SwitchTo => Switched(s, t.cpu)
    case Release => SetCpu(s, t.cpu, c.(pc := if c.pc.Halting? then Halted else Leaving, released := c.released + 1)).(locked := None)
    case Return => Go(s, t.cpu, User)
    case TakeMessage =>
      SetEnv(s, c.cur.value, s.envs[c.cur.value].(phase := Idle))
  }

  // ---------------------------------------------------------------------------------------------
  // The invariant

  /** The lock is held exactly by the processor inside the kernel, and every entry took it once. */
  predicate LockOk(s: State, c: nat) {
    c < |s.cpus| ==>
    var x := s.cpus[c];
    && (InKernel(x.pc) <==> s.locked == Some(c))
    && (x.pc.Spin? ==> !x.pc.again)
    && (x.status.CpuHalted? <==> x.pc.Halted? || x.pc.Halting?) && (x.status.Unused? <==> x.pc.Off?)
    && x.acquired == x.released + (if InKernel(x.pc) then 1 else 0)
    && x.entries == x.acquired + (if x.pc.Spin? || x.pc.Boot? then 1 else 0)
  }

  /** What the current environment of a processor may be doing. */
  predicate CurOk(s: State, c: nat) {
    c < |s.cpus| ==>
    var x := s.cpus[c];
    && (x.cur.Some? ==> x.cur.value < |s.envs| && !s.envs[x.cur.value].status.Free?)
    && (x.pc.Off? || x.pc.Boot? || x.pc.Halted? || x.pc.Halting? || (x.pc.Spin? && !x.pc.fromUser) || x.pc == Trapped(false) || x.pc == Dispatch(false) ==> x.cur.None?)
    && (x.pc.User? || x.pc.Leaving? || x.pc.Unlocking? || (x.pc.Spin? && x.pc.fromUser) || x.pc == Trapped(true) ==> CurIs(s, c, Running) || CurIs(s, c, Dying))
    && (x.pc == Dispatch(true) ==> CurIs(s, c, Running))
    && (x.pc.Post? || x.pc.Yield? || x.pc.Run? || x.pc.Stuck? ==> !CurIs(s, c, Dying))
    && (x.pc.Run? ==> x.pc.env < |s.envs| && (s.envs[x.pc.env].status.Runnable? || (s.envs[x.pc.env].status.Running? && x.cur == Some(x.pc.env))))
  }

  ghost predicate CpusOk(s: State) {
    && (forall c :: 0 <= c < |s.cpus| ==> LockOk(s, c) && CurOk(s, c))
    && (s.locked.Some? ==> s.locked.value < |s.cpus|)
  }

  /** No environment is current on two processors. */
  ghost predicate OneCpuEach(s: State) {
    forall c, d :: 0 <= c < |s.cpus| && 0 <= d < |s.cpus| && s.cpus[c].cur.Some? && s.cpus[c].cur == s.cpus[d].cur ==> c == d
  }

  predicate RunsOn(s: State, c: nat, e: nat) {
    c < |s.cpus| && s.cpus[c].cur == Some(e)
  }

  /** A running or dying environment is current somewhere. */
  ghost predicate RunningSomewhere(s: State) {
    forall e :: 0 <= e < |s.envs| && (s.envs[e].status.Running? || s.envs[e].status.Dying?) ==> exists c :: RunsOn(s, c, e)
  }

  /** An environment receives exactly while it waits in `ipc_recv`, and its identifier ends in its slot. */
  predicate EnvOk(x: Env, e: nat) {
    x.status.Free? ||
    (&& (x.recving <==> x.phase.Waiting?)
     && (x.recving ==> x.status.NotRunnable?)
     && x.id % NENV == e && FIRST_ID <= x.id < ID_LIMIT)
  }

  ghost predicate Inv(s: State) {
    && CpusOk(s) && OneCpuEach(s) && RunningSomewhere(s)
    && |s.envs| <= NENV && forall e :: 0 <= e < |s.envs| ==> EnvOk(s.envs[e], e)
  }

  /** The steps the kernel is safe under: no `sys_ipc_recv` at a bad address, `env_destroy` not on a
      zombie, `sys_env_set_status` on the caller or an environment no processor runs, and not on one
      that waits for a message. */
  predicate Allowed(s: State, t: Step) {
    match t.action
    case BadReceive => false
    case Destroy(e) => e < |s.envs| && !s.envs[e].status.Dying?
    case SetStatus(e, runnable) =>
      && e < |s.envs| && t.cpu < |s.cpus|
      && (s.cpus[t.cpu].cur == Some(e) || s.envs[e].status.Runnable? || s.envs[e].status.NotRunnable?)
      && (runnable ==> !s.envs[e].recving)
    case _ => true
  }

  // ---------------------------------------------------------------------------------------------
  // Every step keeps the invariant

  /** Steps that move one processor and change no environment's status. */
  predicate Local(a: Action) {
    a.StartUp? || a.Interrupt? || a.Acquire? || a.Timer? || a.Quiet? || a.Resume? || a.Pick? || a.PickNone? || a.Release? || a.Return? || a.TakeMessage?
  }

  predicate Entering(a: Action) {
    a.StartUp? || a.Interrupt? || a.Acquire? || a.Collect?
  }

  predicate Calling(a: Action) {
    a.Fork? || a.Destroy? || a.SetStatus? || a.Receive? || a.Send?
  }

  predicate Scheduling(a: Action) {
    a.Timer? || a.Quiet? || a.Resume? || a.Pick? || a.PickNone?
  }

  lemma HereEntering(s: State, t: Step)
    requires Inv(s) && Enabled(s, t) && Allowed(s, t) && Entering(t.action)
    ensures LockOk(Next(s, t), t.cpu) && CurOk(Next(s, t), t.cpu)
  {
    assert LockOk(s, t.cpu) && CurOk(s, t.cpu);
    hide OneCpuEach, RunningSomewhere, CpusOk;
  }

  lemma HereCalling(s: State, t: Step)
    requires Inv(s) && Enabled(s, t) && Allowed(s, t) && Calling(t.action)
    ensures LockOk(Next(s, t), t.cpu) && CurOk(Next(s, t), t.cpu)
  {
    assert LockOk(s, t.cpu) && CurOk(s, t.cpu);
    assert EnvOk(s.envs[s.cpus[t.cpu].cur.value], s.cpus[t.cpu].cur.value);
    hide OneCpuEach, RunningSomewhere, CpusOk, EnvOk;
  }

  lemma HereScheduling(s: State, t: Step)
    requires Inv(s) && Enabled(s, t) && Allowed(s, t) && Scheduling(t.action)
    ensures LockOk(Next(s, t), t.cpu) && CurOk(Next(s, t), t.cpu)
  {
    assert LockOk(s, t.cpu) && CurOk(s, t.cpu);
    hide OneCpuEach, RunningSomewhere, CpusOk, EnvOk;
  }

  lemma HereLeaving(s: State, t: Step)
    requires Inv(s) && Enabled(s, t) && Allowed(s, t) && (t.action.SwitchTo? || t.action.Release? || t.action.Return? || t.action.TakeMessage?)
    ensures LockOk(Next(s, t), t.cpu) && CurOk(Next(s, t), t.cpu)
  {
    assert LockOk(s, t.cpu) && CurOk(s, t.cpu);
    hide OneCpuEach, RunningSomewhere, CpusOk, EnvOk;
  }

  /** The processor that steps. */
  lemma StepHere(s: State, t: Step)
    requires Inv(s) && Enabled(s, t) && Allowed(s, t)
    ensures LockOk(Next(s, t), t.cpu) && CurOk(Next(s, t), t.cpu)
  {
    hide Inv, Next, LockOk, CurOk;
    if Entering(t.action) {
      HereEntering(s, t);
    } else if Calling(t.action) {
      HereCalling(s, t);
    } else if Scheduling(t.action) {
      HereScheduling(s, t);
    } else {
      HereLeaving(s, t);
    }
  }

  /** A local step as the other processors and the environments see it. */
  lemma LocalFrame(s: State, t: Step)
    requires Enabled(s, t) && Local(t.action)
    ensures var s' := Next(s, t);
      && |s'.cpus| == |s.cpus| && |s'.envs| == |s.envs|
      && (forall c :: 0 <= c < |s.cpus| && c != t.cpu ==> s'.cpus[c] == s.cpus[c])
      && (forall e :: 0 <= e < |s.envs| ==> s'.envs[e].status == s.envs[e].status)
      && (!t.action.Acquire? && !t.action.Release? ==> s'.locked == s.locked)
      && (t.action.Acquire? ==> s.locked.None? && s'.locked == Some(t.cpu))
      && (t.action.Release? ==> s'.locked.None?)
  {}

  lemma ThereLocal(s: State, t: Step, c: nat)
    requires Inv(s) && Enabled(s, t) && Allowed(s, t) && c < |s.cpus| && c != t.cpu && Local(t.action)
    ensures LockOk(Next(s, t), c) && CurOk(Next(s, t), c) && Next(s, t).cpus[c] == s.cpus[c]
  {
    assert LockOk(s, t.cpu) && LockOk(s, c) && CurOk(s, c);
    LocalFrame(s, t);
    hide OneCpuEach, RunningSomewhere, CpusOk, Next, EnvOk, Allowed;
  }

  /** Another processor while one is inside the kernel: its environment runs or is a zombie. */
  lemma Outside(s: State, t: Step, c: nat)
    requires Inv(s) && Enabled(s, t) && !Local(t.action) && c < |s.cpus| && c != t.cpu
    ensures InKernel(s.cpus[t.cpu].pc) && !InKernel(s.cpus[c].pc) && LockOk(s, c) && CurOk(s, c)
    ensures s.cpus[c].cur.Some? ==>
      && (CurIs(s, c, Running) || CurIs(s, c, Dying))
      && s.cpus[c].cur != s.cpus[t.cpu].cur && !s.envs[s.cpus[c].cur.value].recving
    ensures t.action.SwitchTo? ==> s.cpus[t.cpu].pc.Run? && s.cpus[c].cur != Some(s.cpus[t.cpu].pc.env)
  {
    assert LockOk(s, t.cpu) && CurOk(s, t.cpu) && LockOk(s, c) && CurOk(s, c);
    assert s.cpus[c].cur.Some? ==> s.cpus[c].cur != s.cpus[t.cpu].cur && EnvOk(s.envs[s.cpus[c].cur.value], s.cpus[c].cur.value);
    hide OneCpuEach, RunningSomewhere, CpusOk;
  }

  lemma ThereKernel(s: State, t: Step, c: nat)
    requires Inv(s) && Enabled(s, t) && Allowed(s, t) && c < |s.cpus| && c != t.cpu && !Local(t.action)
    ensures LockOk(Next(s, t), c) && CurOk(Next(s, t), c) && Next(s, t).cpus[c] == s.cpus[c]
  {
    Outside(s, t, c);
    hide OneCpuEach, RunningSomewhere, CpusOk, EnvOk;
  }

  lemma StepThere(s: State, t: Step, c: nat)
    requires Inv(s) && Enabled(s, t) && Allowed(s, t) && c < |s.cpus| && c != t.cpu
    ensures LockOk(Next(s, t), c) && CurOk(Next(s, t), c) && Next(s, t).cpus[c] == s.cpus[c]
  {
    hide Inv, Next, LockOk, CurOk;
    if Local(t.action) {
      ThereLocal(s, t, c);
    } else {
      ThereKernel(s, t, c);
    }
  }

  lemma StepCpus(s: State, t: Step)
    requires Inv(s) && Enabled(s, t) && Allowed(s, t)
    ensures CpusOk(Next(s, t))
  {
    hide LockOk, CurOk, OneCpuEach, RunningSomewhere, EnvOk;
    var s' := Next(s, t);
    forall c | 0 <= c < |s'.cpus| ensures LockOk(s', c) && CurOk(s', c) {
      if c == t.cpu {
        StepHere(s, t);
      } else {
        StepThere(s, t, c);
      }
    }
  }

  /** The current environment of the stepping processor changes only in `env_run`. */
  lemma CurFrame(s: State, t: Step)
    requires Enabled(s, t)
    ensures t.cpu < |s.cpus|
    ensures var x, x' := s.cpus[t.cpu], Next(s, t).cpus[t.cpu];
      x'.cur == x.cur || x'.cur.None? || (t.action.SwitchTo? && x.pc.Run? && x'.cur == Some(x.pc.env))
  {}

  lemma StepOne(s: State, t: Step)
    requires Inv(s) && Enabled(s, t) && Allowed(s, t)
    ensures OneCpuEach(Next(s, t))
  {
    hide Next, Enabled, Allowed, LockOk, CurOk, EnvOk;
    var s' := Next(s, t);
    CurFrame(s, t);
    forall c | 0 <= c < |s.cpus| && c != t.cpu
      ensures s'.cpus[c] == s.cpus[c] && (s.cpus[c].cur.Some? ==> s.cpus[c].cur != s'.cpus[t.cpu].cur)
    {
      StepThere(s, t, c);
      if t.action.SwitchTo? { Outside(s, t, c); }
    }
  }

  predicate Busy(s: State, e: nat) {
    e < |s.envs| && (s.envs[e].status.Running? || s.envs[e].status.Dying?)
  }

  lemma StatusLocal(s: State, t: Step, e: nat)
    requires Inv(s) && Enabled(s, t) && Allowed(s, t) && Local(t.action) && Busy(Next(s, t), e)
    ensures RunsOn(Next(s, t), t.cpu, e) || (Busy(s, e) && !RunsOn(s, t.cpu, e))
  {
    LocalFrame(s, t);
    assert CurOk(s, t.cpu);
    hide OneCpuEach, RunningSomewhere, CpusOk, EnvOk, Allowed;
  }

  lemma StatusKernel(s: State, t: Step, e: nat)
    requires Inv(s) && Enabled(s, t) && Allowed(s, t) && !Local(t.action) && Busy(Next(s, t), e)
    ensures RunsOn(Next(s, t), t.cpu, e) || (Busy(s, e) && !RunsOn(s, t.cpu, e))
  {
    assert CurOk(s, t.cpu);
    hide OneCpuEach, RunningSomewhere, CpusOk, EnvOk, Allowed;
  }

  lemma StepRunning(s: State, t: Step)
    requires Inv(s) && Enabled(s, t) && Allowed(s, t)
    ensures RunningSomewhere(Next(s, t))
  {
    hide Next, Enabled, Allowed, LockOk, CurOk, EnvOk;
    var s' := Next(s, t);
    CurFrame(s, t);
    forall e | 0 <= e < |s'.envs| && (s'.envs[e].status.Running? || s'.envs[e].status.Dying?) ensures exists c :: RunsOn(s', c, e) {
      if Local(t.action) { StatusLocal(s, t, e); } else { StatusKernel(s, t, e); }
      if !RunsOn(s', t.cpu, e) {
        var c :| RunsOn(s, c, e);
        StepThere(s, t, c);
        assert RunsOn(s', c, e);
      }
    }
  }

  lemma EnvCalling(s: State, t: Step, e: nat)
    requires Inv(s) && Enabled(s, t) && Allowed(s, t) && e < |s.envs| && Calling(t.action)
    ensures EnvOk(Next(s, t).envs[e], e)
  {
    assert CurOk(s, t.cpu) && EnvOk(s.envs[e], e);
    hide OneCpuEach, RunningSomewhere, CpusOk, NextId;
  }

  lemma EnvOther(s: State, t: Step, e: nat)
    requires Inv(s) && Enabled(s, t) && Allowed(s, t) && e < |s.envs| && !Calling(t.action)
    ensures EnvOk(Next(s, t).envs[e], e)
  {
    assert CurOk(s, t.cpu) && EnvOk(s.envs[e], e);
    hide OneCpuEach, RunningSomewhere, CpusOk;
  }

  lemma StepInv(s: State, t: Step)
    requires Inv(s) && Enabled(s, t) && Allowed(s, t)
    ensures Inv(Next(s, t))
  {
    hide Next, Enabled, Allowed, CpusOk, OneCpuEach, RunningSomewhere, EnvOk;
    var s' := Next(s, t);
    StepCpus(s, t);
    StepOne(s, t);
    StepRunning(s, t);
    forall e | 0 <= e < |s'.envs| ensures EnvOk(s'.envs[e], e) {
      if Calling(t.action) { EnvCalling(s, t, e); } else { EnvOther(s, t, e); }
    }
  }

  /** The restrictions are the exact ones: any other step breaks the invariant at once. */
  lemma OnlyAllowed(s: State, t: Step)
    requires Inv(s) && Enabled(s, t) && !Allowed(s, t)
    ensures !Inv(Next(s, t))
  {
    var s', c := Next(s, t), s.cpus[t.cpu];
    assert CurOk(s, t.cpu) && EnvOk(s.envs[c.cur.value], c.cur.value);
    if t.action.BadReceive? {
      assert !EnvOk(s'.envs[c.cur.value], c.cur.value);
    } else {
      var e := t.action.target;
      assert EnvOk(s.envs[e], e);
      if Busy(s, e) && c.cur != Some(e) {
        var d :| RunsOn(s, d, e);
        Outside(s, t, d);
        assert !CurOk(s', d);
      } else {
        assert !EnvOk(s'.envs[e], e);
      }
    }
  }

  lemma StepInvExactly(s: State, t: Step)
    requires Inv(s) && Enabled(s, t)
    ensures Inv(Next(s, t)) <==> Allowed(s, t)
  {
    hide Inv, Next, Enabled, Allowed;
    if Allowed(s, t) { StepInv(s, t); } else { OnlyAllowed(s, t); }
  }

  // ---------------------------------------------------------------------------------------------
  // Runs

  /** Boot: processor 0 holds the lock and is about to schedule the first environments. */
  predicate Init(s: State) {
    && 0 < |s.cpus| && |s.envs| <= NENV && s.locked == Some(0)
    && s.cpus[0] == Cpu(Yield, Started, None, 1, 1, 0)
    && (forall c :: 1 <= c < |s.cpus| ==> s.cpus[c] == Cpu(Off, Unused, None, 0, 0, 0))
    && (forall e :: 0 <= e < |s.envs| ==> (s.envs[e].status.Free? || s.envs[e].status.Runnable?) && EnvOk(s.envs[e], e))
  }

  predicate Runs(s: State, steps: seq<Step>, s': State)
    decreases |steps|
  {
    if steps == [] then s' == s
    else Enabled(s, steps[0]) && Allowed(s, steps[0]) && Runs(Next(s, steps[0]), steps[1..], s')
  }

  lemma InitInv(s: State)
    requires Init(s)
    ensures Inv(s)
  {
    forall c | 0 <= c < |s.cpus| ensures LockOk(s, c) && CurOk(s, c) {
      if c > 0 { assert s.cpus[c] == Cpu(Off, Unused, None, 0, 0, 0); }
    }
    assert forall c :: 0 <= c < |s.cpus| ==> s.cpus[c].cur.None?;
  }

  lemma {:induction false} RunInv(s: State, steps: seq<Step>, s': State)
    requires Inv(s) && Runs(s, steps, s')
    ensures Inv(s') && |s'.cpus| == |s.cpus| && |s'.envs| == |s.envs|
    decreases |steps|
  {
    hide Inv, Enabled, Allowed, Next;
    if steps != [] {
      StepInv(s, steps[0]);
      RunInv(Next(s, steps[0]), steps[1..], s');
    }
  }

  /** Mutual exclusion: at most one processor is inside the kernel, it holds the lock, and every
      processor took the lock once for each kernel entry and released it once for each exit. */
  lemma OneInKernel(s: State, steps: seq<Step>, s': State, c: nat, d: nat)
    requires Init(s) && Runs(s, steps, s') && c < |s'.cpus| && d < |s'.cpus|
    ensures InKernel(s'.cpus[c].pc) ==> s'.locked == Some(c)
    ensures InKernel(s'.cpus[c].pc) && InKernel(s'.cpus[d].pc) ==> c == d
    ensures s'.cpus[c].acquired - s'.cpus[c].released == if s'.locked == Some(c) then 1 else 0
    ensures s'.cpus[c].entries - s'.cpus[c].acquired == if s'.cpus[c].pc.Spin? || s'.cpus[c].pc.Boot? then 1 else 0
  {
    hide Runs, CurOk, OneCpuEach, RunningSomewhere, EnvOk;
    InitInv(s);
    RunInv(s, steps, s');
    assert LockOk(s', c) && LockOk(s', d);
  }

  /** No environment is current on two processors, and one is current exactly while it runs or is
      about to be collected, apart from the processor that is inside the kernel. */
  lemma NeverRunsTwice(s: State, steps: seq<Step>, s': State, c: nat, d: nat, e: nat)
    requires Init(s) && Runs(s, steps, s') && c < |s'.cpus| && d < |s'.cpus| && e < |s'.envs|
    ensures RunsOn(s', c, e) && RunsOn(s', d, e) ==> c == d
    ensures RunsOn(s', c, e) && !InKernel(s'.cpus[c].pc) ==> Busy(s', e)
    ensures Busy(s', e) ==> exists x :: RunsOn(s', x, e)
  {
    hide Runs, EnvOk;
    InitInv(s);
    RunInv(s, steps, s');
    assert LockOk(s', c) && CurOk(s', c);
  }

  // ---------------------------------------------------------------------------------------------
  // The kernel lets go

  /** How far a processor is from releasing the lock. */
  function Rank(pc: Pc): nat {
    match pc
    case Trapped(_) => 6
    case Dispatch(_) => 5
    case Post => 4
    case Yield => 3
    case Run(_) => 2
    case Unlocking => 1
    case Halting => 1
    case _ => 0
  }

  /** A processor inside the kernel always has a step, and every step takes it nearer the release:
      the lock is held for at most six steps, except by the last processor of a finished system. */
  lemma LetsGo(s: State, c: nat)
    requires Inv(s) && c < |s.cpus| && InKernel(s.cpus[c].pc) && !s.cpus[c].pc.Stuck?
    ensures exists a :: Enabled(s, Step(c, a)) && Allowed(s, Step(c, a))
    ensures forall a :: Enabled(s, Step(c, a)) ==> Rank(Next(s, Step(c, a)).cpus[c].pc) < Rank(s.cpus[c].pc)
  {
    assert CurOk(s, c) && LockOk(s, c);
    hide OneCpuEach, RunningSomewhere, CpusOk, EnvOk, Next;
    var x := s.cpus[c];
    if x.pc.Yield? && !NobodyRunnable(s) {
      var e :| 0 <= e < |s.envs| && s.envs[e].status.Runnable?;
      assert Enabled(s, Step(c, Pick(e)));
    } else {
      var a := match x.pc
        case Trapped(_) => Collect
        case Dispatch(_) => Timer
        case Post => Resume
        case Yield => if CurIs(s, c, Running) then Pick(x.cur.value) else PickNone
        case Run(_) => SwitchTo
        case _ => Release;
      assert Enabled(s, Step(c, a)) && Allowed(s, Step(c, a));
    }
    forall a | Enabled(s, Step(c, a)) ensures Rank(Next(s, Step(c, a)).cpus[c].pc) < Rank(x.pc) {
      Nearer(s, Step(c, a));
    }
  }

  /** What the scheduler may choose: any runnable environment, without one the current environment if it
      still runs, and otherwise to halt, where it stays when every environment is free or blocked. */
  lemma SchedulerChoice(s: State, c: nat)
    requires Inv(s) && c < |s.cpus| && s.cpus[c].pc.Yield?
    ensures var none := forall f: nat :: f < |s.envs| ==> s.envs[f].status != Runnable;
      var cur := s.cpus[c].cur; var runs := cur.Some? && cur.value < |s.envs| && s.envs[cur.value].status == Running;
      && (forall e: nat :: Enabled(s, Step(c, Pick(e))) <==>
           e < |s.envs| && (s.envs[e].status == Runnable || (none && runs && cur == Some(e))))
      && (Enabled(s, Step(c, PickNone)) <==> none && !runs)
    ensures Enabled(s, Step(c, PickNone)) ==>
      var x, idle := Next(s, Step(c, PickNone)).cpus[c], forall f: nat :: f < |s.envs| ==> s.envs[f].status == Free || s.envs[f].status == NotRunnable;
      (idle ==> x.pc.Stuck?) && (!idle ==> x.pc.Halting? && x.cur.None? && x.status.CpuHalted?)
  {
    assert CurOk(s, c);
    hide OneCpuEach, RunningSomewhere, CpusOk, EnvOk, LockOk;
  }

  lemma Nearer(s: State, t: Step)
    requires Enabled(s, t) && InKernel(s.cpus[t.cpu].pc)
    ensures Rank(Next(s, t).cpus[t.cpu].pc) < Rank(s.cpus[t.cpu].pc)
  {}

  // ---------------------------------------------------------------------------------------------
  // Messages

  /** The message a step delivers to `e`, if any. */
  function Delivers(s: State, t: Step, e: nat): seq<Message>
    requires Enabled(s, t)
  {
    if t.action.Send? && t.action.target == e && s.envs[e].recving then [Message(s.envs[s.cpus[t.cpu].cur.value].id, t.action.value)] else []
  }

  /** The message `ipc_recv` returns to `e` in a step, if any. */
  function Takes(s: State, t: Step, e: nat): seq<Message>
    requires Enabled(s, t)
  {
    if t.action.TakeMessage? && s.cpus[t.cpu].cur == Some(e) then [s.envs[e].inbox] else []
  }

  function SentTo(s: State, steps: seq<Step>, e: nat): seq<Message>
    decreases |steps|
  {
    if steps == [] || !Enabled(s, steps[0]) then [] else Delivers(s, steps[0], e) + SentTo(Next(s, steps[0]), steps[1..], e)
  }

  function TakenBy(s: State, steps: seq<Step>, e: nat): seq<Message>
    decreases |steps|
  {
    if steps == [] || !Enabled(s, steps[0]) then [] else Takes(s, steps[0], e) + TakenBy(Next(s, steps[0]), steps[1..], e)
  }

  /** Delivered and not yet returned. */
  function Undelivered(s: State, e: nat): seq<Message> {
    if e < |s.envs| && s.envs[e].phase.Delivered? then [s.envs[e].inbox] else []
  }

  lemma StepMessages(s: State, t: Step, e: nat)
    requires Inv(s) && Enabled(s, t) && Allowed(s, t) && e < |s.envs| && t.action != Fork(e)
    ensures Undelivered(s, e) + Delivers(s, t, e) == Takes(s, t, e) + Undelivered(Next(s, t), e)
  {
    assert EnvOk(s.envs[e], e) && CurOk(s, t.cpu);
    hide OneCpuEach, RunningSomewhere, CpusOk, LockOk;
  }

  /** Exactly once, in order, with the sender's identifier: over any run the messages an environment's
      `ipc_recv` returns are those of the successful sends to it, up to one still in its inbox. */
  lemma {:induction false} ExactlyOnce(s: State, steps: seq<Step>, s': State, e: nat)
    requires Inv(s) && Runs(s, steps, s') && e < |s.envs| && forall i :: 0 <= i < |steps| ==> steps[i].action != Fork(e)
    ensures Undelivered(s, e) + SentTo(s, steps, e) == TakenBy(s, steps, e) + Undelivered(s', e)
    decreases |steps|
  {
    hide Inv, Enabled, Allowed, Next, Undelivered, Delivers, Takes;
    if steps == [] {
      assert Undelivered(s, e) + [] == [] + Undelivered(s, e);
    } else {
      var t, s1, rest := steps[0], Next(s, steps[0]), steps[1..];
      StepInv(s, t);
      StepMessages(s, t, e);
      ExactlyOnce(s1, rest, s', e);
      Regroup(Undelivered(s, e), Delivers(s, t, e), SentTo(s1, rest, e), Takes(s, t, e), Undelivered(s1, e), TakenBy(s1, rest, e), Undelivered(s', e));
    }
  }

  lemma Regroup(a: seq<Message>, b: seq<Message>, c: seq<Message>, x: seq<Message>, y: seq<Message>, z: seq<Message>, w: seq<Message>)
    requires a + b == x + y && y + c == z + w
    ensures a + (b + c) == (x + z) + w
  {
    assert a + (b + c) == (a + b) + c == x + (y + c) == (x + z) + w;
  }

  /** Between two receives of an environment at most one send to it succeeds: one if it waits, and
      none otherwise. */
  lemma {:induction false} OneSendPerReceive(s: State, steps: seq<Step>, s': State, e: nat)
    requires Inv(s) && Runs(s, steps, s') && e < |s.envs| && forall i :: 0 <= i < |steps| ==> !steps[i].action.Receive?
    ensures |SentTo(s, steps, e)| <= if s.envs[e].recving then 1 else 0
    decreases |steps|
  {
    hide Inv, Enabled, Allowed, Next;
    if steps != [] {
      StepInv(s, steps[0]);
      Recving(s, steps[0], e);
      OneSendPerReceive(Next(s, steps[0]), steps[1..], s', e);
    }
  }

  lemma Recving(s: State, t: Step, e: nat)
    requires Enabled(s, t) && Allowed(s, t) && e < |s.envs| && !t.action.Receive?
    ensures Next(s, t).envs[e].recving ==> s.envs[e].recving && Delivers(s, t, e) == []
    ensures |Delivers(s, t, e)| <= 1 && (Delivers(s, t, e) != [] ==> s.envs[e].recving)
  {}

  /** A send succeeds exactly to an environment that waits for a message. It wakes it, with the message
      and the sender's identifier in its inbox, and whoever schedules next may pick it. Otherwise it
      leaves every environment as it was. */
  lemma SendWakes(s: State, c: nat, e: nat, v: nat, s': State)
    requires Inv(s) && Enabled(s, Step(c, Send(e, v))) && s' == Next(s, Step(c, Send(e, v)))
    ensures s.envs[e].recving <==> s.envs[e].phase.Waiting?
    ensures !s.envs[e].recving ==> s'.envs == s.envs
    ensures s.envs[e].recving ==>
      s'.envs == s.envs[e := Env(Runnable, s.envs[e].id, false, Message(s.envs[s.cpus[c].cur.value].id, v), Delivered)]
    ensures s.envs[e].recving ==>
      forall s1: State, d: nat :: d < |s1.cpus| && s1.envs == s'.envs && s1.cpus[d].pc.Yield? ==> Enabled(s1, Step(d, Pick(e)))
  {
    assert EnvOk(s.envs[e], e);
    hide CpusOk, OneCpuEach, RunningSomewhere;
  }

  /** What a step does to the status of an environment. */
  lemma LifeCycle(s: State, t: Step, e: nat)
    requires Inv(s) && Enabled(s, t) && Allowed(s, t) && e < |s.envs|
    ensures var a, c := t.action, s.cpus[t.cpu];
      Next(s, t).envs[e].status == match s.envs[e].status
        case Free => if a == Fork(e) then NotRunnable else Free
        case Dying => if a.Collect? && c.pc.fromUser && c.cur == Some(e) then Free else Dying
        case NotRunnable =>
          if a == SetStatus(e, true) || (a.Send? && a.target == e && s.envs[e].recving) then Runnable
          else if a == Destroy(e) then Free
          else NotRunnable
        case Runnable =>
          if a.SwitchTo? && c.pc.env == e then Running
          else if a == SetStatus(e, false) then NotRunnable
          else if a == Destroy(e) then Free
          else Runnable
        case Running =>
          if a == Destroy(e) then (if c.cur == Some(e) then Free else Dying)
          else if c.cur == Some(e) && a.Receive? then NotRunnable
          else if c.cur == Some(e) && a.SetStatus? && a.target == e then (if a.runnable then Runnable else NotRunnable)
          else if c.cur == Some(e) && a.SwitchTo? && c.pc.env != e then Runnable
          else Running
  {
    assert CurOk(s, t.cpu) && EnvOk(s.envs[e], e);
    if t.action.SwitchTo? && Busy(s, e) { var d :| RunsOn(s, d, e); if d != t.cpu { Outside(s, t, d); } }
    hide CpusOk, OneCpuEach, RunningSomewhere, LockOk;
  }

  // ---------------------------------------------------------------------------------------------
  // Why the restrictions are needed

  /** A run from boot of which all steps but `bad`, taken at `s`, are allowed, and which ends with an
      environment in user mode on one processor while another has switched to it as well. */
  ghost predicate DoubleRun(s0: State, before: seq<Step>, s: State, bad: Step, steps: seq<Step>, s': State) {
    && Init(s0) && Runs(s0, before, s) && Enabled(s, bad) && !Allowed(s, bad) && Runs(Next(s, bad), steps, s')
    && exists c: nat, d: nat, e: nat :: c != d && RunsOn(s', c, e) && RunsOn(s', d, e) && s'.cpus[d].pc.User?
  }

  lemma {:induction false} Joined(s: State, a: seq<Step>, s1: State, b: seq<Step>, s2: State)
    requires Runs(s, a, s1) && Runs(s1, b, s2)
    ensures Runs(s, a + b, s2)
    decreases |a|
  {
    hide Enabled, Allowed, Next;
    if a == [] {
      assert a + b == b;
    } else {
      assert (a + b)[0] == a[0] && (a + b)[1..] == a[1..] + b;
      Joined(Next(s, a[0]), a[1..], s1, b, s2);
    }
  }

  lemma Last(s: State, t: Step)
    requires Enabled(s, t) && Allowed(s, t)
    ensures Runs(s, [t], Next(s, t))
  {
    assert [t][1..] == [];
  }

  lemma Before(s: State, t: Step, steps: seq<Step>, s': State)
    requires Enabled(s, t) && Allowed(s, t) && Runs(Next(s, t), steps, s')
    ensures Runs(s, [t] + steps, s')
  {
    assert ([t] + steps)[1..] == steps;
  }

  /** `env_run` of the environment that runs here changes nothing. */
  lemma KeepsRunning(s: State, c: nat, e: nat)
    requires c < |s.cpus| && s.cpus[c].pc.Post? && CurIs(s, c, Running) && s.cpus[c].cur == Some(e)
    ensures Enabled(s, Step(c, Resume)) && Next(s, Step(c, Resume)) == Go(s, c, Run(e))
    ensures var s1 := Go(s, c, Run(e)); Enabled(s1, Step(c, SwitchTo)) && Next(s1, Step(c, SwitchTo)) == Go(s, c, Unlocking)
  {
    var s1 := Go(s, c, Run(e));
    assert s1.envs[e := s1.envs[e].(status := Runnable)][e := s1.envs[e].(status := Running)] == s1.envs;
  }

  /** Out of the kernel. */
  lemma Leaves(s: State, c: nat)
    requires c < |s.cpus| && s.cpus[c].pc.Unlocking?
    ensures var x := s.cpus[c].(pc := User, released := s.cpus[c].released + 1);
      Runs(s, [Step(c, Release)] + [Step(c, Return)], SetCpu(s, c, x).(locked := None))
  {
    var s1 := Next(s, Step(c, Release));
    Last(s1, Step(c, Return));
    Before(s, Step(c, Release), [Step(c, Return)], Next(s1, Step(c, Return)));
  }

  /** Back in user mode without a switch. */
  lemma ComesBack(s: State, c: nat, e: nat)
    requires c < |s.cpus| && s.cpus[c].pc.Post? && CurIs(s, c, Running) && s.cpus[c].cur == Some(e)
    ensures var x := s.cpus[c].(pc := User, released := s.cpus[c].released + 1);
      Runs(s, [Step(c, Resume), Step(c, SwitchTo), Step(c, Release), Step(c, Return)], SetCpu(s, c, x).(locked := None))
  {
    hide Runs, Enabled, Next;
    var s1, s2 := Go(s, c, Run(e)), Go(s, c, Unlocking);
    var s4 := SetCpu(s, c, s.cpus[c].(pc := User, released := s.cpus[c].released + 1)).(locked := None);
    KeepsRunning(s, c, e);
    Leaves(s2, c);
    assert s4 == SetCpu(s2, c, s2.cpus[c].(pc := User, released := s2.cpus[c].released + 1)).(locked := None);
    assert [Step(c, Resume)] + ([Step(c, SwitchTo)] + ([Step(c, Release)] + [Step(c, Return)]))
      == [Step(c, Resume), Step(c, SwitchTo), Step(c, Release), Step(c, Return)];
    Before(s1, Step(c, SwitchTo), [Step(c, Release)] + [Step(c, Return)], s4);
    Before(s, Step(c, Resume), [Step(c, SwitchTo)] + ([Step(c, Release)] + [Step(c, Return)]), s4);
  }

  /** Into a system call from user mode. */
  lemma Enters(s: State, c: nat)
    requires c < |s.cpus| && s.cpus[c].pc.User? && s.cpus[c].status.Started? && CurIs(s, c, Running) && s.locked.None?
    ensures var x := s.cpus[c].(pc := Dispatch(true), entries := s.cpus[c].entries + 1, acquired := s.cpus[c].acquired + 1);
      Runs(s, [Step(c, Interrupt), Step(c, Acquire), Step(c, Collect)], SetCpu(s, c, x).(locked := Some(c)))
  {
    var s1 := Next(s, Step(c, Interrupt));
    var s2 := Next(s1, Step(c, Acquire));
    var s3 := Next(s2, Step(c, Collect));
    assert s3 == SetCpu(s, c, s.cpus[c].(pc := Dispatch(true), entries := s.cpus[c].entries + 1, acquired := s.cpus[c].acquired + 1)).(locked := Some(c));
    Last(s2, Step(c, Collect));
    Before(s1, Step(c, Acquire), [Step(c, Collect)], s3);
    Before(s, Step(c, Interrupt), [Step(c, Acquire)] + [Step(c, Collect)], s3);
  }

  /** Processor `c` runs environment `e`, which runs, and is at this place. */
  predicate At(s: State, c: nat, e: nat, pc: Pc) {
    RunsOn(s, c, e) && CurIs(s, c, Running) && s.cpus[c].pc == pc && s.cpus[c].status.Started?
  }

  /** Nothing but processor `c` and the lock differs. */
  predicate SameBut(s: State, s': State, c: nat) {
    s'.envs == s.envs && |s'.cpus| == |s.cpus| && forall d :: 0 <= d < |s.cpus| && d != c ==> s'.cpus[d] == s.cpus[d]
  }

  /** No environment starts to receive, and none is created. */
  predicate NoReceiveNorFork(steps: seq<Step>) {
    forall i :: 0 <= i < |steps| ==> !steps[i].action.Receive? && !steps[i].action.Fork?
  }

  lemma ToUser(s: State, c: nat, e: nat) returns (steps: seq<Step>, s': State)
    requires At(s, c, e, Post)
    ensures Runs(s, steps, s') && At(s', c, e, User) && SameBut(s, s', c) && s'.locked.None? && NoReceiveNorFork(steps)
  {
    hide Runs;
    ComesBack(s, c, e);
    steps, s' := [Step(c, Resume), Step(c, SwitchTo), Step(c, Release), Step(c, Return)],
      SetCpu(s, c, s.cpus[c].(pc := User, released := s.cpus[c].released + 1)).(locked := None);
  }

  lemma ToCall(s: State, c: nat, e: nat) returns (steps: seq<Step>, s': State)
    requires At(s, c, e, User) && s.locked.None?
    ensures Runs(s, steps, s') && At(s', c, e, Dispatch(true)) && SameBut(s, s', c) && s'.locked == Some(c) && NoReceiveNorFork(steps)
  {
    hide Runs;
    Enters(s, c);
    steps, s' := [Step(c, Interrupt), Step(c, Acquire), Step(c, Collect)],
      SetCpu(s, c, s.cpus[c].(pc := Dispatch(true), entries := s.cpus[c].entries + 1, acquired := s.cpus[c].acquired + 1)).(locked := Some(c));
  }

  /** From one system call to the next, and on to its result. */
  lemma CallsAgain(s: State, c: nat, e: nat, a: Action) returns (steps: seq<Step>, s': State)
    requires At(s, c, e, Post) && (forall s1 :: At(s1, c, e, Dispatch(true)) && SameBut(s, s1, c) ==> Enabled(s1, Step(c, a)) && Allowed(s1, Step(c, a)))
    ensures exists s1 :: At(s1, c, e, Dispatch(true)) && SameBut(s, s1, c) && Enabled(s1, Step(c, a)) && s' == Next(s1, Step(c, a))
    ensures Runs(s, steps, s')
  {
    hide Runs, Enabled, Allowed, Next;
    var there, s1 := ToUser(s, c, e);
    var back, s2 := ToCall(s1, c, e);
    s' := Next(s2, Step(c, a));
    Last(s2, Step(c, a));
    Joined(s, there, s1, back, s2);
    Joined(s, there + back, s2, [Step(c, a)], s');
    steps := there + back + [Step(c, a)];
  }

  /** At the next timer interrupt processor `c` picks a runnable environment `e`. */
  lemma PicksUp(s: State, c: nat, e0: nat, e: nat) returns (steps: seq<Step>, s': State)
    requires At(s, c, e0, User) && s.locked.None? && e < |s.envs| && s.envs[e].status.Runnable?
    ensures Runs(s, steps, s') && At(s', c, e, Unlocking) && |s'.cpus| == |s.cpus| && NoReceiveNorFork(steps)
    ensures s'.envs == s.envs[e0 := s.envs[e0].(status := Runnable)][e := s.envs[e].(status := Running)]
    ensures forall d :: 0 <= d < |s.cpus| && d != c ==> s'.cpus[d] == s.cpus[d]
  {
    hide Runs;
    var into, s1 := ToCall(s, c, e0);
    var s2 := Next(s1, Step(c, Timer));
    var s3 := Next(s2, Step(c, Pick(e)));
    s' := Next(s3, Step(c, SwitchTo));
    Last(s3, Step(c, SwitchTo));
    Before(s2, Step(c, Pick(e)), [Step(c, SwitchTo)], s');
    Before(s1, Step(c, Timer), [Step(c, Pick(e))] + [Step(c, SwitchTo)], s');
    steps := into + ([Step(c, Timer)] + ([Step(c, Pick(e))] + [Step(c, SwitchTo)]));
    Joined(s, into, s1, [Step(c, Timer)] + ([Step(c, Pick(e))] + [Step(c, SwitchTo)]), s');
  }

  /** Once the environment that runs on `d` is runnable, `c` can take it up as well. */
  lemma TakenTwice(s: State, c: nat, d: nat, e0: nat, e: nat) returns (steps: seq<Step>, s': State)
    requires At(s, c, e0, Post) && RunsOn(s, d, e) && s.cpus[d].pc.User? && c != d && e < |s.envs| && s.envs[e].status.Runnable?
    ensures Runs(s, steps, s') && RunsOn(s', c, e) && RunsOn(s', d, e) && s'.cpus[d].pc.User?
  {
    hide Runs;
    var there, s1 := ToUser(s, c, e0);
    var picked, s2 := PicksUp(s1, c, e0, e);
    Joined(s, there, s1, picked, s2);
    steps, s' := there + picked, s2;
  }

  /** From the scheduler a processor goes to user mode with a runnable environment. */
  lemma Starts(s: State, c: nat, e: nat) returns (steps: seq<Step>, s': State)
    requires c < |s.cpus| && s.cpus[c].pc.Yield? && s.cpus[c].status.Started? && s.locked == Some(c) && !CurIs(s, c, Running)
    requires e < |s.envs| && s.envs[e].status.Runnable? && (s.cpus[c].cur.Some? ==> s.cpus[c].cur.value < |s.envs|)
    ensures Runs(s, steps, s') && At(s', c, e, User) && s'.locked.None? && |s'.cpus| == |s.cpus|
    ensures s'.envs == s.envs[e := s.envs[e].(status := Running)]
    ensures forall d :: 0 <= d < |s.cpus| && d != c ==> s'.cpus[d] == s.cpus[d]
  {
    hide Runs, NextId, Trap, Locked, Destroyed, Delivery, NothingLeft, NobodyRunnable;
    var s1 := Next(s, Step(c, Pick(e)));
    var s2 := Next(s1, Step(c, SwitchTo));
    Leaves(s2, c);
    steps := [Step(c, Pick(e))] + ([Step(c, SwitchTo)] + ([Step(c, Release)] + [Step(c, Return)]));
    s' := SetCpu(s2, c, s2.cpus[c].(pc := User, released := s2.cpus[c].released + 1)).(locked := None);
    Before(s1, Step(c, SwitchTo), [Step(c, Release)] + [Step(c, Return)], s');
    Before(s, Step(c, Pick(e)), [Step(c, SwitchTo)] + ([Step(c, Release)] + [Step(c, Return)]), s');
  }

  /** Another processor boots and takes up an environment. */
  lemma Boots(s: State, c: nat, e: nat) returns (steps: seq<Step>, s': State)
    requires c < |s.cpus| && s.cpus[c] == Cpu(Off, Unused, None, 0, 0, 0) && s.locked.None? && e < |s.envs| && s.envs[e].status.Runnable?
    ensures Runs(s, steps, s') && At(s', c, e, User) && s'.locked.None? && |s'.cpus| == |s.cpus|
    ensures s'.envs == s.envs[e := s.envs[e].(status := Running)]
    ensures forall d :: 0 <= d < |s.cpus| && d != c ==> s'.cpus[d] == s.cpus[d]
  {
    hide Runs;
    var s1 := Next(s, Step(c, StartUp));
    var s2 := Next(s1, Step(c, Acquire));
    Last(s1, Step(c, Acquire));
    Before(s, Step(c, StartUp), [Step(c, Acquire)], s2);
    var on, s3 := Starts(s2, c, e);
    Joined(s, [Step(c, StartUp)] + [Step(c, Acquire)], s2, on, s3);
    steps, s' := [Step(c, StartUp)] + [Step(c, Acquire)] + on, s3;
  }

  /** A runnable environment as boot creates it. */
  function Created(e: nat): Env {
    Env(Runnable, FIRST_ID + e, false, Message(0, 0), Idle)
  }

  function AtBoot(): State {
    State([Cpu(Yield, Started, None, 1, 1, 0), Cpu(Off, Unused, None, 0, 0, 0)], [Created(0), Created(1), Created(2)], Some(0))
  }

  /** Processor 0 runs environment 0, in a system call; processor 1 is in user mode, current with
      environment 1; a third environment waits for a message. */
  predicate Scene(s: State, st: Status) {
    && |s.cpus| == 2 && |s.envs| == 3 && At(s, 0, 0, Dispatch(true)) && s.locked == Some(0)
    && RunsOn(s, 1, 1) && s.cpus[1].pc.User? && s.cpus[1].status.Started?
    && s.envs[0] == Created(0).(status := Running) && s.envs[1] == Created(1).(status := st)
    && s.envs[2] == Created(2).(status := NotRunnable, recving := true, phase := Waiting)
  }

  /** The scene is reached from boot: environment 2 runs first, on processor 0, and receives. */
  lemma SceneReached() returns (steps: seq<Step>, s: State)
    ensures Init(AtBoot()) && Runs(AtBoot(), steps, s) && Scene(s, Running)
  {
    hide Runs;
    var a, s1 := Starts(AtBoot(), 0, 2);
    var b, s2 := ToCall(s1, 0, 2);
    var s3 := Next(s2, Step(0, Receive));
    Last(s2, Step(0, Receive));
    var d, s4 := Starts(s3, 0, 0);
    var e, s5 := Boots(s4, 1, 1);
    var f, s6 := ToCall(s5, 0, 0);
    Joined(AtBoot(), a, s1, b, s2);
    Joined(AtBoot(), a + b, s2, [Step(0, Receive)], s3);
    Joined(AtBoot(), a + b + [Step(0, Receive)], s3, d, s4);
    Joined(AtBoot(), a + b + [Step(0, Receive)] + d, s4, e, s5);
    Joined(AtBoot(), a + b + [Step(0, Receive)] + d + e, s5, f, s6);
    steps, s := a + b + [Step(0, Receive)] + d + e + f, s6;
  }

  /** With environment 1 destroyed there, and not yet collected. */
  lemma ZombieReached() returns (steps: seq<Step>, s: State)
    ensures Init(AtBoot()) && Runs(AtBoot(), steps, s) && Scene(s, Dying)
  {
    hide Runs;
    var a, s1 := SceneReached();
    var s2 := Next(s1, Step(0, Destroy(1)));
    Last(s1, Step(0, Destroy(1)));
    var b, s3 := ToUser(s2, 0, 0);
    var d, s4 := ToCall(s3, 0, 0);
    Joined(AtBoot(), a, s1, [Step(0, Destroy(1))], s2);
    Joined(AtBoot(), a + [Step(0, Destroy(1))], s2, b, s3);
    Joined(AtBoot(), a + [Step(0, Destroy(1))] + b, s3, d, s4);
    steps, s := a + [Step(0, Destroy(1))] + b + d, s4;
  }

  /** `sys_env_set_status` makes an environment runnable that another processor runs, or that waits to
      be collected there: a second processor takes it up. */
  lemma SetRunnableRunsTwice(st: Status) returns (before: seq<Step>, s: State, bad: Step, steps: seq<Step>, s': State)
    requires st.Running? || st.Dying?
    ensures DoubleRun(AtBoot(), before, s, bad, steps, s') && bad.action.SetStatus? && bad.action.runnable && bad.action.target < |s.envs| && s.envs[bad.action.target].status == st
  {
    hide Runs;
    bad := Step(0, SetStatus(1, true));
    if st.Running? { before, s := SceneReached(); } else { before, s := ZombieReached(); }
    steps, s' := TakenTwice(Next(s, bad), 0, 1, 0, 1);
  }

  /** Blocking an environment that another processor runs is as bad: it can be let go again. */
  lemma BlockRunsTwice() returns (before: seq<Step>, s: State, bad: Step, steps: seq<Step>, s': State)
    ensures DoubleRun(AtBoot(), before, s, bad, steps, s') && bad.action.SetStatus? && !bad.action.runnable && Busy(s, bad.action.target)
  {
    hide Runs;
    bad := Step(0, SetStatus(1, false));
    before, s := SceneReached();
    var s1 := Next(s, bad);
    var woken, s2 := CallsAgain(s1, 0, 0, SetStatus(1, true));
    var taken, s3 := TakenTwice(s2, 0, 1, 0, 1);
    Joined(s1, woken, s2, taken, s3);
    steps, s' := woken + taken, s3;
  }

  /** Destroying a zombie frees its slot while a processor still runs it: the next environment in the
      slot is taken up elsewhere. */
  lemma DestroyRunsTwice() returns (before: seq<Step>, s: State, bad: Step, steps: seq<Step>, s': State)
    ensures DoubleRun(AtBoot(), before, s, bad, steps, s') && bad.action.Destroy?
  {
    hide Runs, NextId;
    bad := Step(0, Destroy(1));
    before, s := ZombieReached();
    var s1 := Next(s, bad);
    var fork, s2 := CallsAgain(s1, 0, 0, Fork(1));
    var woken, s3 := CallsAgain(s2, 0, 0, SetStatus(1, true));
    var taken, s4 := TakenTwice(s3, 0, 1, 0, 1);
    Joined(s1, fork, s2, woken, s3);
    Joined(s1, fork + woken, s3, taken, s4);
    steps, s' := fork + woken + taken, s4;
  }

  /** After `sys_ipc_recv` at a bad address the caller keeps running with its receive flag set. A send
      makes it runnable, and the sender's processor takes it up. */
  lemma BadReceiveRunsTwice() returns (before: seq<Step>, s: State, bad: Step, steps: seq<Step>, s': State)
    ensures DoubleRun(AtBoot(), before, s, bad, steps, s') && bad.action.BadReceive?
  {
    hide Runs;
    bad := Step(0, BadReceive);
    before, s := SceneReached();
    var s1 := Next(s, bad);
    var back, s2 := ToUser(s1, 0, 0);
    var into, s3 := ToCall(s2, 1, 1);
    var s4 := Next(s3, Step(1, Send(0, 7)));
    Last(s3, Step(1, Send(0, 7)));
    var taken, s5 := TakenTwice(s4, 1, 0, 1, 0);
    Joined(s1, back, s2, into, s3);
    Joined(s1, back + into, s3, [Step(1, Send(0, 7))], s4);
    Joined(s1, back + into + [Step(1, Send(0, 7))], s4, taken, s5);
    steps, s' := back + into + [Step(1, Send(0, 7))] + taken, s5;
  }

  /** An environment woken by `sys_env_set_status` while it waits for a message runs with its receive
      flag set, and comes to the same end. */
  lemma WakeRunsTwice() returns (before: seq<Step>, s: State, bad: Step, steps: seq<Step>, s': State)
    ensures DoubleRun(AtBoot(), before, s, bad, steps, s') && bad.action.SetStatus? && bad.action.target < |s.envs| && s.envs[bad.action.target].recving
  {
    hide Runs;
    bad := Step(0, SetStatus(2, true));
    before, s := SceneReached();
    var s1 := Next(s, bad);
    var there, s2 := ToUser(s1, 0, 0);
    var picked, s3 := PicksUp(s2, 0, 0, 2);
    Joined(s1, there, s2, picked, s3);
    var s4 := Next(s3, Step(0, Release));
    var s5 := Next(s4, Step(0, Return));
    Last(s4, Step(0, Return));
    Before(s3, Step(0, Release), [Step(0, Return)], s5);
    Joined(s1, there + picked, s3, [Step(0, Release)] + [Step(0, Return)], s5);
    var rest, s6 := SentTwice(s5);
    steps := there + picked + ([Step(0, Release)] + [Step(0, Return)]) + rest;
    Joined(s1, there + picked + ([Step(0, Release)] + [Step(0, Return)]), s5, rest, s6);
    s' := s6;
  }

  /** A running environment that receives is sent a message by another, which then picks it up. */
  lemma SentTwice(s: State) returns (steps: seq<Step>, s': State)
    requires At(s, 0, 2, User) && At(s, 1, 1, User) && s.locked.None? && |s.envs| == 3 && s.envs[2].recving
    ensures Runs(s, steps, s') && RunsOn(s', 1, 2) && RunsOn(s', 0, 2) && s'.cpus[0].pc.User?
  {
    hide Runs;
    var into, s1 := ToCall(s, 1, 1);
    var s2 := Next(s1, Step(1, Send(2, 7)));
    Last(s1, Step(1, Send(2, 7)));
    var taken, s3 := TakenTwice(s2, 1, 0, 1, 2);
    Joined(s, into, s1, [Step(1, Send(2, 7))], s2);
    Joined(s, into + [Step(1, Send(2, 7))], s2, taken, s3);
    steps, s' := into + [Step(1, Send(2, 7))] + taken, s3;
  }

  /** Each restriction is needed: for every kind of step it excludes there is a run from boot with one
      such step, all others being allowed, that puts an environment on two processors. */
  lemma RestrictionsNeeded()
    ensures exists before, s, t, steps, s' :: DoubleRun(AtBoot(), before, s, t, steps, s') && t.action.BadReceive?
    ensures exists before, s, t, steps, s' :: DoubleRun(AtBoot(), before, s, t, steps, s') && t.action.Destroy?
    ensures exists before, s, t, steps, s' :: DoubleRun(AtBoot(), before, s, t, steps, s') && t.action.SetStatus? && t.action.runnable && Busy(s, t.action.target)
    ensures exists before, s, t, steps, s' :: DoubleRun(AtBoot(), before, s, t, steps, s') && t.action.SetStatus? && !t.action.runnable
    ensures exists before, s, t, steps, s' :: DoubleRun(AtBoot(), before, s, t, steps, s') && t.action.SetStatus? && t.action.target < |s.envs| && s.envs[t.action.target].recving
  {
    hide DoubleRun;
    var b1, s1, t1, steps1, s1' := BadReceiveRunsTwice();
    var b2, s2, t2, steps2, s2' := DestroyRunsTwice();
    var b3, s3, t3, steps3, s3' := SetRunnableRunsTwice(Running);
    var b4, s4, t4, steps4, s4' := BlockRunsTwice();
    var b5, s5, t5, steps5, s5' := WakeRunsTwice();
  }

  // ---------------------------------------------------------------------------------------------
  // Messages arrive

  /** A processor that has just switched to an environment with a message returns to it, and its
      `ipc_recv` ends. */
  lemma TakesUp(s: State, c: nat, e: nat) returns (steps: seq<Step>, s': State)
    requires At(s, c, e, Unlocking) && e < |s.envs| && s.envs[e].phase.Delivered?
    ensures Runs(s, steps, s') && At(s', c, e, User) && s'.envs == s.envs[e := s.envs[e].(phase := Idle)] && NoReceiveNorFork(steps)
  {
    hide Runs, NextId, Trap, Locked, Destroyed, Delivery, Switched, NothingLeft, NobodyRunnable;
    Leaves(s, c);
    var s2 := SetCpu(s, c, s.cpus[c].(pc := User, released := s.cpus[c].released + 1)).(locked := None);
    s' := Next(s2, Step(c, TakeMessage));
    Last(s2, Step(c, TakeMessage));
    steps := ([Step(c, Release)] + [Step(c, Return)]) + [Step(c, TakeMessage)];
    Joined(s, [Step(c, Release)] + [Step(c, Return)], s2, [Step(c, TakeMessage)], s');
  }

  /** A system call that neither blocks nor ends its caller returns to it: on its own processor, with
      nothing but the call's effect on the environments. */
  lemma CallReturns(s: State, t: Step) returns (steps: seq<Step>, s': State)
    requires Inv(s) && Enabled(s, t) && Allowed(s, t) && InCall(s, t.cpu)
    requires t.action.Quiet? || t.action.Fork? || t.action.Send?
      || ((t.action.SetStatus? || t.action.Destroy?) && s.cpus[t.cpu].cur != Some(t.action.target))
    ensures Runs(Next(s, t), steps, s') && At(s', t.cpu, s.cpus[t.cpu].cur.value, User) && s'.locked.None?
    ensures s'.envs == Next(s, t).envs
  {
    assert LockOk(s, t.cpu) && CurOk(s, t.cpu);
    var e := s.cpus[t.cpu].cur.value;
    assert EnvOk(s.envs[e], e);
    assert At(Next(s, t), t.cpu, e, Post) by { hide OneCpuEach, RunningSomewhere, CpusOk, NextId; }
    hide Runs, Inv, LockOk, CurOk, EnvOk, Enabled, Next;
    steps, s' := ToUser(Next(s, t), t.cpu, e);
  }

  /** The sender, and what it has left for the receiver. */
  lemma SenderGoesOn(s: State, c: nat, e: nat, v: nat, s1: State) returns (e0: nat)
    requires Inv(s) && Enabled(s, Step(c, Send(e, v))) && s.envs[e].recving && s1 == Next(s, Step(c, Send(e, v)))
    ensures Inv(s1) && At(s1, c, e0, Post) && e0 != e && e < |s1.envs| && s1.envs[e].status.Runnable? && !s1.envs[e].recving
    ensures Undelivered(s1, e) == [Message(s.envs[s.cpus[c].cur.value].id, v)] && s1.envs[e].phase.Delivered?
  {
    e0 := s.cpus[c].cur.value;
    assert LockOk(s, c) && CurOk(s, c) && EnvOk(s.envs[e], e);
    StepInv(s, Step(c, Send(e, v)));
    SendWakes(s, c, e, v, s1);
    hide Inv, LockOk, CurOk, EnvOk;
  }

  /** After a successful send some run of the kernel ends with the receiver back in user mode, its
      `ipc_recv` having returned exactly this message, and nothing left in its inbox. */
  lemma SendArrives(s: State, c: nat, e: nat, v: nat, s1: State) returns (steps: seq<Step>, s': State)
    requires Inv(s) && Enabled(s, Step(c, Send(e, v))) && s.envs[e].recving && s1 == Next(s, Step(c, Send(e, v)))
    ensures Runs(s1, steps, s') && At(s', c, e, User)
    ensures TakenBy(s1, steps, e) == [Message(s.envs[s.cpus[c].cur.value].id, v)] && Undelivered(s', e) == []
  {
    hide Runs, Inv, LockOk, CurOk, EnvOk, Enabled, Next;
    var e0 := SenderGoesOn(s, c, e, v, s1);
    var back, s2 := ToUser(s1, c, e0);
    var picked, s3 := PicksUp(s2, c, e0, e);
    var taken, s4 := TakesUp(s3, c, e);
    Joined(s1, back, s2, picked, s3);
    Joined(s1, back + picked, s3, taken, s4);
    steps, s' := back + picked + taken, s4;
    ExactlyOnce(s1, steps, s', e);
    OneSendPerReceive(s1, steps, s', e);
    assert Undelivered(s1, e) + [] == Undelivered(s1, e);
    assert TakenBy(s1, steps, e) + [] == TakenBy(s1, steps, e);
  }
}
