/** One-time construction guards of the C++ runtime (section 3.3.2 of the Itanium C++ ABI) as
    implemented over one mutex, one counting semaphore shared by all guards and a waiter counter.

    The protocol is a step system: a state holds the shared variables and one program counter per
    task, and an action lets one task execute one atomic step.  Every list of actions is an
    interleaving, so a statement about all lists is a statement about all runs. */
module CxxGuards {
  import opened Basics

  /** The two ABI bytes of a guard object. */
  datatype Guard = Guard(ready: bool, pending: bool)

  /** Where a task is.  `Acq*` and `Wait*` are steps of acquire, `Fin*` are steps of release
      (`ok`) and abort (`!ok`).  `Failed` is a failed assertion of the source. */
  datatype Pc =
    | Idle
    | AcqLock(g: nat)
    | AcqCheck(g: nat)
    | WaitGive(g: nat)
    | WaitTake(g: nat)
    | WaitLock(g: nat)
    | WaitCheck(g: nat)
    | AcqDecide(g: nat)
    | AcqReturn(g: nat, ret: bool)
    | FinLock(g: nat, ok: bool)
    | FinSet(g: nat, ok: bool)
    | FinSignal(g: nat, ok: bool, left: nat)
    | FinReturn(g: nat, ok: bool)
    | Failed

  /** `held` are the guards the task acquired and neither released nor aborted yet. */
  datatype Task = Task(pc: Pc, held: set<nat>)

  /** `releases` is a history variable: completed initialisations per guard. */
  datatype State = State(
    mutex: Option<nat>, sem: nat, waiting: nat,
    guards: seq<Guard>, tasks: seq<Task>, releases: seq<nat>)

  datatype Action = Acquire(t: nat, g: nat) | Release(t: nat, g: nat) | Abort(t: nat, g: nat) | Go(t: nat)

  /** Capacity of the counting semaphore; a give at capacity is lost. */
  const SEM_MAX: nat := 0x7FFF_FFFF

  function Init(n: nat, m: nat): (s: State) {
    State(None, 0, 0, seq(m, _ => Guard(false, false)), seq(n, _ => Task(Idle, {})), seq(m, _ => 0))
  }

  function At(s: State, t: nat, pc: Pc): State
    requires t < |s.tasks|
  {
    s.(tasks := s.tasks[t := s.tasks[t].(pc := pc)])
  }

  /** Take the mutex and continue at `pc`; blocked while another task holds it. */
  function Lock(s: State, t: nat, pc: Pc): Option<State>
    requires t < |s.tasks|
  {
    if s.mutex.None? then Some(At(s, t, pc).(mutex := Some(t))) else None
  }

  /** Give the mutex and continue at `pc`; the give fails, and so does the assertion on its
      result, unless the task holds the mutex. */
  function Unlock(s: State, t: nat, pc: Pc): State
    requires t < |s.tasks|
  {
    if s.mutex == Some(t) then At(s, t, pc).(mutex := None) else At(s, t, Failed)
  }

  function SetGuard(s: State, g: nat, v: Guard): State
    requires g < |s.guards|
  {
    s.(guards := s.guards[g := v])
  }

  function SetHeld(s: State, t: nat, held: set<nat>): State
    requires t < |s.tasks|
  {
    s.(tasks := s.tasks[t := s.tasks[t].(held := held)])
  }

  /** The critical step of acquire: returns 0 on a ready guard, else marks it pending. */
  function Decide(s: State, t: nat, g: nat): State
    requires t < |s.tasks| && g < |s.guards|
  {
    if s.guards[g].ready then At(s, t, AcqReturn(g, false))
    else At(SetHeld(SetGuard(s, g, s.guards[g].(pending := true)), t, s.tasks[t].held + {g}), t, AcqReturn(g, true))
  }

  /** The critical step of release and abort, with the source's assertions. */
  function Finish(s: State, t: nat, g: nat, ok: bool): State
    requires t < |s.tasks| && g < |s.guards| && g < |s.releases|
  {
    if !s.guards[g].pending || (!ok && s.guards[g].ready) then At(s, t, Failed)
    else
      var v := Guard(s.guards[g].ready || ok, false);
      var s1 := SetHeld(SetGuard(s, g, v), t, s.tasks[t].held - {g});
      var s2 := if ok then s1.(releases := s1.releases[g := s1.releases[g] + 1]) else s1;
      At(s2, t, FinSignal(g, ok, s.waiting))
  }

  /** One step of task `t` inside a guard function; None when it is blocked or idle. */
  function GoStep(s: State, t: nat): Option<State>
    requires t < |s.tasks|
    requires s.tasks[t].pc.Idle? || s.tasks[t].pc.Failed? || s.tasks[t].pc.g < |s.guards| == |s.releases|
  {
    match s.tasks[t].pc
    case Idle => None
    case Failed => None
    case AcqLock(g) => Lock(s, t, AcqCheck(g))
    case AcqCheck(g) =>
      if s.guards[g].pending then Some(At(s, t, WaitGive(g)).(waiting := s.waiting + 1))
      else Some(At(s, t, AcqDecide(g)))
    case WaitGive(g) => Some(Unlock(s, t, WaitTake(g)))
    case WaitTake(g) => if s.sem > 0 then Some(At(s, t, WaitLock(g)).(sem := s.sem - 1)) else None
    case WaitLock(g) => Lock(s, t, WaitCheck(g))
    case WaitCheck(g) =>
      if s.guards[g].pending then Some(At(s, t, WaitGive(g)))
      else if s.waiting == 0 then Some(At(s, t, Failed))   // the unsigned counter would wrap
      else Some(At(s, t, AcqDecide(g)).(waiting := s.waiting - 1))
    case AcqDecide(g) => Some(Decide(s, t, g))
    case AcqReturn(g, _) => Some(Unlock(s, t, Idle))
    case FinLock(g, ok) => Lock(s, t, FinSet(g, ok))
    case FinSet(g, ok) => Some(Finish(s, t, g, ok))
    case FinSignal(g, ok, left) =>
      if left == 0 then Some(At(s, t, FinReturn(g, ok)))
      else Some(At(s, t, FinSignal(g, ok, left - 1)).(sem := if s.sem < SEM_MAX then s.sem + 1 else s.sem))
    case FinReturn(_, _) => Some(Unlock(s, t, Idle))
  }

  /** The step relation as a partial function: an idle task may call acquire on any guard, and
      release or abort only on a guard it holds. */
  function Next(s: State, a: Action): Option<State> {
    if a.t >= |s.tasks| || |s.guards| != |s.releases| then None
    else
      var pc := s.tasks[a.t].pc;
      match a
      case Acquire(t, g) => if pc.Idle? && g < |s.guards| then Some(At(s, t, AcqLock(g))) else None
      case Release(t, g) =>
        if pc.Idle? && g in s.tasks[t].held then Some(At(s, t, FinLock(g, true))) else None
      case Abort(t, g) =>
        if pc.Idle? && g in s.tasks[t].held then Some(At(s, t, FinLock(g, false))) else None
      case Go(t) => if pc.Idle? || pc.Failed? || pc.g < |s.guards| then GoStep(s, t) else None
  }

  function Exec(s: State, acts: seq<Action>): Option<State>
    decreases |acts|
  {
    if acts == [] then Some(s)
    else match Next(s, acts[0])
      case None => None
      case Some(s') => Exec(s', acts[1..])
  }

  /** Where an assertion of the source fails: giving the mutex without owning it, finishing a guard that
      is not pending, aborting one that is ready; and where the waiter counter would wrap around. */
  lemma FailsIff(s: State, t: nat)
    requires t < |s.tasks| && !s.tasks[t].pc.Failed? && !s.tasks[t].pc.Idle?
    requires s.tasks[t].pc.g < |s.guards| == |s.releases| && GoStep(s, t).Some?
    ensures |GoStep(s, t).value.tasks| == |s.tasks|
    ensures var pc, g := s.tasks[t].pc, s.guards[s.tasks[t].pc.g];
            GoStep(s, t).value.tasks[t].pc.Failed? <==>
              || ((pc.WaitGive? || pc.AcqReturn? || pc.FinReturn?) && s.mutex != Some(t))
              || (pc.FinSet? && (!g.pending || (!pc.ok && g.ready)))
              || (pc.WaitCheck? && !g.pending && s.waiting == 0)
  {}

  /** The semaphore never holds more than its capacity. */
  lemma {:induction false} SemBounded(s: State, acts: seq<Action>)
    requires s.sem <= SEM_MAX && Exec(s, acts).Some?
    ensures Exec(s, acts).value.sem <= SEM_MAX
    decreases |acts|
  {
    if acts != [] { SemBounded(Next(s, acts[0]).value, acts[1..]); }
  }

  // ------------------------------------------------------------------ counting tasks

  predicate InWait(pc: Pc) { pc.WaitGive? || pc.WaitTake? || pc.WaitLock? || pc.WaitCheck? }

  predicate Blocked(pc: Pc) { pc.WaitGive? || pc.WaitTake? }

  function BlockedOn(g: nat): Pc -> bool { pc => Blocked(pc) && pc.g == g }

  /** Pcs at which a task owns the mutex. */
  predicate InCrit(pc: Pc) {
    pc.AcqCheck? || pc.WaitGive? || pc.WaitCheck? || pc.AcqDecide? || pc.AcqReturn? ||
    pc.FinSet? || pc.FinSignal? || pc.FinReturn?
  }

  function Count(ts: seq<Task>, p: Pc -> bool): nat {
    if ts == [] then 0
    else Count(ts[..|ts| - 1], p) + if p(ts[|ts| - 1].pc) then 1 else 0
  }

  lemma {:induction false} CountUpdate(ts: seq<Task>, i: nat, x: Task, p: Pc -> bool)
    requires i < |ts|
    ensures Count(ts[i := x], p) ==
            Count(ts, p) - (if p(ts[i].pc) then 1 else 0) + (if p(x.pc) then 1 else 0)
  {
    var k := |ts| - 1;
    if i == k {
      assert ts[i := x][..k] == ts[..k];
    } else {
      assert ts[i := x][..k] == ts[..k][i := x];
      CountUpdate(ts[..k], i, x, p);
    }
  }

  lemma {:induction false} CountMono(ts: seq<Task>, p: Pc -> bool, q: Pc -> bool)
    requires forall i :: 0 <= i < |ts| && p(ts[i].pc) ==> q(ts[i].pc)
    ensures Count(ts, p) <= Count(ts, q) <= |ts|
  {
    if ts != [] { CountMono(ts[..|ts| - 1], p, q); }
  }

  lemma {:induction false} CountZero(ts: seq<Task>, p: Pc -> bool)
    requires forall i :: 0 <= i < |ts| ==> !p(ts[i].pc)
    ensures Count(ts, p) == 0
  {
    if ts != [] { CountZero(ts[..|ts| - 1], p); }
  }

  // ------------------------------------------------------------------ safety of every interleaving

  ghost predicate Holds(s: State, t: nat, g: nat) { t < |s.tasks| && g in s.tasks[t].held }

  /** What a program counter says about the shared state. */
  ghost predicate PcOk(s: State, t: nat)
    requires t < |s.tasks|
  {
    var pc := s.tasks[t].pc;
    && !pc.Failed?
    && (pc.Idle? || pc.g < |s.guards|)
    && (InCrit(pc) <==> s.mutex == Some(t))
    && (pc.WaitGive? ==> s.guards[pc.g].pending)
    && (pc.AcqDecide? ==> !s.guards[pc.g].pending)
    && (pc.AcqReturn? ==> if pc.ret then Holds(s, t, pc.g) else s.guards[pc.g].ready)
    && (pc.FinLock? || pc.FinSet? ==> Holds(s, t, pc.g))
    && (pc.FinSignal? || pc.FinReturn? ==> !Holds(s, t, pc.g) && s.guards[pc.g] == Guard(pc.ok, false))
  }

  /** What every reachable state says about one guard. */
  ghost predicate GuardOk(s: State, g: nat)
    requires g < |s.guards| == |s.releases|
  {
    && !(s.guards[g].ready && s.guards[g].pending)
    && (s.guards[g].pending <==> exists t :: Holds(s, t, g))
    && (forall t, u :: Holds(s, t, g) && Holds(s, u, g) ==> t == u)
    && s.releases[g] == (if s.guards[g].ready then 1 else 0)
  }

  ghost predicate Inv(s: State) {
    && |s.guards| == |s.releases|
    && (s.mutex.Some? ==> s.mutex.value < |s.tasks|)
    && (forall t :: 0 <= t < |s.tasks| ==> PcOk(s, t))
    && (forall t :: 0 <= t < |s.tasks| ==> forall g :: g in s.tasks[t].held ==> g < |s.guards|)
    && (forall g :: 0 <= g < |s.guards| ==> GuardOk(s, g))
    && s.waiting == Count(s.tasks, InWait)
  }

  lemma InitInv(n: nat, m: nat)
    ensures Inv(Init(n, m))
  {
    CountZero(Init(n, m).tasks, InWait);
  }

  lemma {:induction false} CountPositive(ts: seq<Task>, t: nat, p: Pc -> bool)
    requires t < |ts|
    ensures p(ts[t].pc) ==> Count(ts, p) > 0
  {
    if t < |ts| - 1 { CountPositive(ts[..|ts| - 1], t, p); }
  }

  /** A step of task `t` changes no other task. */
  lemma StepFrame(s: State, a: Action)
    requires Next(s, a).Some?
    ensures var s' := Next(s, a).value;
            a.t < |s.tasks| == |s'.tasks| && s'.tasks == s.tasks[a.t := s'.tasks[a.t]]
    ensures |Next(s, a).value.guards| == |s.guards| == |s.releases| == |Next(s, a).value.releases|
  {}

  lemma StepCount(s: State, a: Action)
    requires Inv(s) && Next(s, a).Some?
    ensures Next(s, a).value.waiting == Count(Next(s, a).value.tasks, InWait)
  {
    var s' := Next(s, a).value;
    StepFrame(s, a);
    assert PcOk(s, a.t);
    CountUpdate(s.tasks, a.t, s'.tasks[a.t], InWait);
    CountPositive(s.tasks, a.t, InWait);
  }

  /** The task that moves keeps its own clauses: in particular no assertion fails. */
  lemma StepPcSelf(s: State, a: Action)
    requires Inv(s) && Next(s, a).Some?
    ensures var s' := Next(s, a).value; a.t < |s'.tasks| && PcOk(s', a.t)
  {
    assert PcOk(s, a.t);
    CountPositive(s.tasks, a.t, InWait);
    if s.tasks[a.t].pc.FinSet? {
      assert GuardOk(s, s.tasks[a.t].pc.g);
    }
  }

  /** So do all other tasks: the shared state they rely on changes only under the mutex. */
  lemma StepPcOther(s: State, a: Action, u: nat)
    requires Inv(s) && Next(s, a).Some? && u < |s.tasks| && u != a.t
    ensures var s' := Next(s, a).value; |s'.tasks| == |s.tasks| && PcOk(s', u)
  {
    StepFrame(s, a);
    assert PcOk(s, u) && PcOk(s, a.t);
  }

  lemma StepGuard(s: State, a: Action, h: nat)
    requires Inv(s) && Next(s, a).Some? && h < |s.guards|
    ensures var s' := Next(s, a).value; |s'.guards| == |s'.releases| == |s.guards| && GuardOk(s', h)
  {
    var s', t := Next(s, a).value, a.t;
    StepFrame(s, a);
    assert PcOk(s, t) && GuardOk(s, h);
    assert forall u :: u != t ==> (Holds(s', u, h) <==> Holds(s, u, h));
    if a.Go? && (s.tasks[t].pc.AcqDecide? || s.tasks[t].pc.FinSet?) && h == s.tasks[t].pc.g {
      if s.tasks[t].pc.FinSet? {
        assert Holds(s, t, h) && !Holds(s', t, h);
      } else if !s.guards[h].ready {
        assert Holds(s', t, h);
      } else {
        assert Holds(s', t, h) <==> Holds(s, t, h);
      }
    } else {
      assert Holds(s', t, h) <==> Holds(s, t, h);
    }
  }

  /** Every atomic step of every task keeps the invariant. */
  lemma StepInv(s: State, a: Action)
    requires Inv(s) && Next(s, a).Some?
    ensures Inv(Next(s, a).value)
  {
    var s' := Next(s, a).value;
    StepFrame(s, a);
    StepCount(s, a);
    StepPcSelf(s, a);
    forall u | 0 <= u < |s'.tasks| ensures PcOk(s', u) {
      if u != a.t { StepPcOther(s, a, u); }
    }
    forall h | 0 <= h < |s'.guards| ensures GuardOk(s', h) { StepGuard(s, a, h); }
    assert PcOk(s, a.t);
  }

  /** Safety over whole runs: any number of tasks and guards, any interleaving. */
  lemma {:induction false} RunInv(s: State, acts: seq<Action>)
    requires Inv(s) && Exec(s, acts).Some?
    ensures Inv(Exec(s, acts).value)
    decreases |acts|
  {
    if acts != [] {
      StepInv(s, acts[0]);
      RunInv(Next(s, acts[0]).value, acts[1..]);
    }
  }

  /** A guard that became ready stays ready. */
  lemma {:induction false} ReadyIsForever(s: State, acts: seq<Action>, g: nat)
    requires g < |s.guards| && s.guards[g].ready && Exec(s, acts).Some?
    ensures g < |Exec(s, acts).value.guards| && Exec(s, acts).value.guards[g].ready
    decreases |acts|
  {
    if acts != [] {
      StepFrame(s, acts[0]);
      ReadyIsForever(Next(s, acts[0]).value, acts[1..], g);
    }
  }

  /** What a caller learns when acquire returns in some interleaving: 0 only on a ready guard,
      and 1 exactly when the caller is the one task holding a guard that is not initialised. */
  lemma AcquireReturns(n: nat, m: nat, acts: seq<Action>, t: nat)
    requires Exec(Init(n, m), acts).Some?
    requires var s := Exec(Init(n, m), acts).value; t < |s.tasks| && s.tasks[t].pc.AcqReturn?
    ensures var s := Exec(Init(n, m), acts).value;
            var g := s.tasks[t].pc.g;
            && g < |s.guards| && g < |s.releases|
            && (!s.tasks[t].pc.ret ==> s.guards[g].ready && s.releases[g] == 1)
            && (s.tasks[t].pc.ret ==> !s.guards[g].ready && s.guards[g].pending && s.releases[g] == 0 &&
                                      forall u :: Holds(s, u, g) <==> u == t)
  {
    InitInv(n, m);
    RunInv(Init(n, m), acts);
    var s := Exec(Init(n, m), acts).value;
    assert PcOk(s, t);
    assert GuardOk(s, s.tasks[t].pc.g);
  }

  /** Safety from the initial state, spelled out: in every interleaving of `n` tasks and `m` guards
      no assertion of the source fails, `pending` means exactly one holder, a guard is never both
      ready and pending, it is released at most once, at most one task is inside the critical
      section, the wait routine ends with the mutex taken and its guard not pending, release and abort
      give the guard up before they signal, ready behind a release only, and the waiter counter is the
      number of tasks inside the wait routine. */
  lemma EveryInterleavingIsSafe(n: nat, m: nat, acts: seq<Action>)
    requires Exec(Init(n, m), acts).Some?
    ensures var s := Exec(Init(n, m), acts).value;
            && |s.guards| == |s.releases|
            && (forall t :: 0 <= t < |s.tasks| ==> !s.tasks[t].pc.Failed?)
            && (forall t, u | 0 <= t < |s.tasks| && 0 <= u < |s.tasks| ::
                  InCrit(s.tasks[t].pc) && InCrit(s.tasks[u].pc) ==> t == u)
            && (forall g | 0 <= g < |s.guards| ::
                  && s.releases[g] <= 1
                  && !(s.guards[g].ready && s.guards[g].pending)
                  && (s.guards[g].pending <==> exists t :: Holds(s, t, g)))
            && (forall g: nat, t, u :: g < |s.guards| && Holds(s, t, g) && Holds(s, u, g) ==> t == u)
            && (forall t | 0 <= t < |s.tasks| && s.tasks[t].pc.AcqDecide? ::
                  s.mutex == Some(t) && s.tasks[t].pc.g < |s.guards| && !s.guards[s.tasks[t].pc.g].pending)
            && (forall t, g | 0 <= t < |s.tasks| && (s.tasks[t].pc.FinSignal? || s.tasks[t].pc.FinReturn?) && g == s.tasks[t].pc.g ::
                  g < |s.guards| && !Holds(s, t, g) && !s.guards[g].pending && s.guards[g].ready == s.tasks[t].pc.ok)
            && s.waiting == Count(s.tasks, InWait)
  {
    InitInv(n, m);
    RunInv(Init(n, m), acts);
    var s := Exec(Init(n, m), acts).value;
    forall t, u | 0 <= t < |s.tasks| && 0 <= u < |s.tasks| && InCrit(s.tasks[t].pc) && InCrit(s.tasks[u].pc)
      ensures t == u
    {
      assert PcOk(s, t) && PcOk(s, u);
    }
    forall g | 0 <= g < |s.guards|
      ensures s.releases[g] <= 1 && !(s.guards[g].ready && s.guards[g].pending)
      ensures s.guards[g].pending <==> exists t :: Holds(s, t, g)
    {
      assert GuardOk(s, g);
    }
    forall g: nat, t, u | g < |s.guards| && Holds(s, t, g) && Holds(s, u, g) ensures t == u {
      assert GuardOk(s, g);
    }
    forall t | 0 <= t < |s.tasks|
      ensures !s.tasks[t].pc.Failed?
      ensures s.tasks[t].pc.AcqDecide? ==>
                s.mutex == Some(t) && s.tasks[t].pc.g < |s.guards| && !s.guards[s.tasks[t].pc.g].pending
    {
      assert PcOk(s, t);
    }
    forall t, g | 0 <= t < |s.tasks| && (s.tasks[t].pc.FinSignal? || s.tasks[t].pc.FinReturn?) && g == s.tasks[t].pc.g
      ensures g < |s.guards| && !Holds(s, t, g) && !s.guards[g].pending && s.guards[g].ready == s.tasks[t].pc.ok
    {
      assert PcOk(s, t);
    }
  }

  // ------------------------------------------------------------------ wake-ups

  /** Gives a signalling task has still to make. */
  ghost function Owed(s: State): nat {
    if s.mutex.Some? && s.mutex.value < |s.tasks| && s.tasks[s.mutex.value].pc.FinSignal?
    then s.tasks[s.mutex.value].pc.left else 0
  }

  /** Enough wake-ups for the tasks blocked on `g`: once `g` is not pending, tokens in the
      semaphore plus gives still owed reach at least the number of tasks blocked on it. */
  ghost predicate WakeOk(s: State, g: nat)
    requires g < |s.guards|
  {
    !s.guards[g].pending ==> s.sem + Owed(s) >= Count(s.tasks, BlockedOn(g))
  }

  ghost predicate AllWaitOn(s: State, g: nat) {
    forall t :: 0 <= t < |s.tasks| && InWait(s.tasks[t].pc) ==> s.tasks[t].pc.g == g
  }

  /** Along the whole run all tasks inside the wait routine wait on `g`. */
  ghost predicate AlwaysWaitOn(s: State, acts: seq<Action>, g: nat)
    decreases |acts|
  {
    AllWaitOn(s, g) &&
    (acts != [] && Next(s, acts[0]).Some? ==> AlwaysWaitOn(Next(s, acts[0]).value, acts[1..], g))
  }

  /** In this step a waiter on another guard takes a token although `g` is not pending. */
  predicate Steals(s: State, a: Action, g: nat) {
    && a.Go? && a.t < |s.tasks| && g < |s.guards|
    && s.tasks[a.t].pc.WaitTake? && s.tasks[a.t].pc.g != g && !s.guards[g].pending
  }

  /** No step of the run does that. */
  ghost predicate NeverStolen(s: State, acts: seq<Action>, g: nat)
    decreases |acts|
  {
    acts != [] && Next(s, acts[0]).Some? ==> !Steals(s, acts[0], g) && NeverStolen(Next(s, acts[0]).value, acts[1..], g)
  }

  lemma {:induction false} OneGuardNeverStolen(s: State, acts: seq<Action>, g: nat)
    requires AlwaysWaitOn(s, acts, g)
    ensures NeverStolen(s, acts, g)
    decreases |acts|
  {
    if acts != [] && Next(s, acts[0]).Some? { OneGuardNeverStolen(Next(s, acts[0]).value, acts[1..], g); }
  }

  /** How one step changes the number of tasks blocked on `g`, and the bounds on that number. */
  lemma BlockedCount(s: State, a: Action, g: nat)
    requires Inv(s) && Next(s, a).Some?
    ensures var s', t, p := Next(s, a).value, a.t, BlockedOn(g);
            && t < |s.tasks| == |s'.tasks|
            && Count(s'.tasks, p) == Count(s.tasks, p) - (if p(s.tasks[t].pc) then 1 else 0)
                                     + (if p(s'.tasks[t].pc) then 1 else 0)
            && Count(s'.tasks, p) <= |s'.tasks|
            && Count(s.tasks, p) <= s.waiting
  {
    var s', t, p := Next(s, a).value, a.t, BlockedOn(g);
    StepFrame(s, a);
    CountUpdate(s.tasks, t, s'.tasks[t], p);
    CountMono(s.tasks, p, InWait);
    CountMono(s'.tasks, p, pc => true);
  }

  /** Only a signalling task owes gives, and it is the one that owns the mutex. */
  lemma OwedBy(s: State, t: nat)
    requires Inv(s) && t < |s.tasks|
    ensures s.mutex == Some(t) ==> Owed(s) == if s.tasks[t].pc.FinSignal? then s.tasks[t].pc.left else 0
    ensures s.mutex.None? ==> Owed(s) == 0
    ensures InCrit(s.tasks[t].pc) <==> s.mutex == Some(t)
  {
    assert PcOk(s, t);
  }

  lemma WakeStep(s: State, a: Action, g: nat)
    requires Inv(s) && Next(s, a).Some? && g < |s.guards| && |s.tasks| <= SEM_MAX
    requires !Steals(s, a, g) && WakeOk(s, g)
    ensures g < |Next(s, a).value.guards| && WakeOk(Next(s, a).value, g)
  {
    var s', t := Next(s, a).value, a.t;
    StepFrame(s, a);
    StepInv(s, a);
    BlockedCount(s, a, g);
    OwedBy(s, t);
    OwedBy(s', t);
    assert PcOk(s, t);
    if !InCrit(s.tasks[t].pc) && !InCrit(s'.tasks[t].pc) {
      assert Owed(s') == Owed(s);
    }
  }

  lemma {:induction false} WakeRun(s: State, acts: seq<Action>, g: nat)
    requires Inv(s) && Exec(s, acts).Some? && g < |s.guards| && |s.tasks| <= SEM_MAX
    requires NeverStolen(s, acts, g) && WakeOk(s, g)
    ensures g < |Exec(s, acts).value.guards| && WakeOk(Exec(s, acts).value, g)
    decreases |acts|
  {
    if acts != [] {
      StepInv(s, acts[0]);
      StepFrame(s, acts[0]);
      WakeStep(s, acts[0], g);
      WakeRun(Next(s, acts[0]).value, acts[1..], g);
    }
  }

  /** For any numbers of tasks and guards the wake-ups for a guard suffice as long as no waiter on
      another guard took a token while this one was not pending. */
  lemma LostOnlyIfStolen(n: nat, m: nat, acts: seq<Action>, g: nat)
    requires n <= SEM_MAX && g < m && Exec(Init(n, m), acts).Some?
    ensures var s := Exec(Init(n, m), acts).value;
            g < |s.guards| && (!WakeOk(s, g) ==> !NeverStolen(Init(n, m), acts, g))
  {
    InitInv(n, m);
    CountZero(Init(n, m).tasks, BlockedOn(g));
    ExecShape(Init(n, m), acts);
    if NeverStolen(Init(n, m), acts, g) { WakeRun(Init(n, m), acts, g); }
  }

  /** No lost wake-up in any run where all waiters wait on one guard: once it is not pending, every
      task blocked on it is covered by a token or by a give that a signalling task still owes. */
  lemma NoLostWakeup(n: nat, m: nat, acts: seq<Action>, g: nat)
    requires n <= SEM_MAX && g < m && Exec(Init(n, m), acts).Some?
    requires AlwaysWaitOn(Init(n, m), acts, g)
    ensures var s := Exec(Init(n, m), acts).value;
            g < |s.guards| && (!s.guards[g].pending ==> s.sem + Owed(s) >= Count(s.tasks, BlockedOn(g)))
  {
    OneGuardNeverStolen(Init(n, m), acts, g);
    LostOnlyIfStolen(n, m, acts, g);
  }

  /** The promise of the waiting comment, for every run of `n` tasks over `m` guards. */
  ghost predicate WakeupsSuffice(n: nat, m: nat) {
    forall acts: seq<Action>, g: nat ::
      Exec(Init(n, m), acts).Some? && g < |Exec(Init(n, m), acts).value.guards| ==>
        WakeOk(Exec(Init(n, m), acts).value, g)
  }

  lemma {:induction false} ExecShape(s: State, acts: seq<Action>)
    requires Exec(s, acts).Some?
    ensures |Exec(s, acts).value.guards| == |s.guards| && |Exec(s, acts).value.tasks| == |s.tasks|
    decreases |acts|
  {
    if acts != [] {
      StepFrame(s, acts[0]);
      ExecShape(Next(s, acts[0]).value, acts[1..]);
    }
  }

  lemma {:induction false} SingleGuardRun(s: State, acts: seq<Action>)
    requires Inv(s) && |s.guards| <= 1
    ensures AlwaysWaitOn(s, acts, 0)
    decreases |acts|
  {
    forall t | 0 <= t < |s.tasks| && InWait(s.tasks[t].pc) ensures s.tasks[t].pc.g == 0 {
      assert PcOk(s, t);
    }
    if acts != [] && Next(s, acts[0]).Some? {
      StepInv(s, acts[0]);
      StepFrame(s, acts[0]);
      SingleGuardRun(Next(s, acts[0]).value, acts[1..]);
    }
  }

  /** A task that runs alone waits only on guards it holds itself. */
  ghost predicate WaitsOnOwn(s: State) {
    forall t :: 0 <= t < |s.tasks| && InWait(s.tasks[t].pc) ==> Holds(s, t, s.tasks[t].pc.g)
  }

  lemma {:induction false} SingleTaskRun(s: State, acts: seq<Action>)
    requires Inv(s) && |s.tasks| <= 1 && WaitsOnOwn(s) && Exec(s, acts).Some?
    ensures WaitsOnOwn(Exec(s, acts).value)
    decreases |acts|
  {
    if acts != [] {
      var a := acts[0];
      StepInv(s, a);
      StepFrame(s, a);
      assert PcOk(s, a.t);
      if s.tasks[a.t].pc.AcqCheck? { assert GuardOk(s, s.tasks[a.t].pc.g); }
      SingleTaskRun(Next(s, a).value, acts[1..]);
    }
  }

  lemma WakeupsSufficeWhen(n: nat, m: nat)
    requires n <= SEM_MAX && (n <= 1 || m <= 1)
    ensures WakeupsSuffice(n, m)
  {
    forall acts: seq<Action>, g: nat |
      Exec(Init(n, m), acts).Some? && g < |Exec(Init(n, m), acts).value.guards|
      ensures WakeOk(Exec(Init(n, m), acts).value, g)
    {
      var s0, s := Init(n, m), Exec(Init(n, m), acts).value;
      InitInv(n, m);
      RunInv(s0, acts);
      ExecShape(s0, acts);
      if m <= 1 {
        SingleGuardRun(s0, acts);
        NoLostWakeup(n, m, acts, g);
      } else {
        SingleTaskRun(s0, acts);
        if !s.guards[g].pending {
          assert GuardOk(s, g);
          CountZero(s.tasks, BlockedOn(g));
        }
      }
    }
  }

  // A run of two tasks over two guards that loses a wake-up.

  lemma {:induction false} Extend(s0: State, acts: seq<Action>, a: Action)
    requires Exec(s0, acts).Some?
    ensures Exec(s0, acts + [a]) == Next(Exec(s0, acts).value, a)
    decreases |acts|
  {
    if acts == [] {
      assert [a][1..] == [];
      assert forall s :: Exec(s, []) == Some(s);
      assert acts + [a] == [a];
    } else {
      assert (acts + [a])[1..] == acts[1..] + [a];
      Extend(Next(s0, acts[0]).value, acts[1..], a);
    }
  }

  ghost predicate Reaches(s0: State, s: State) { exists acts :: Exec(s0, acts) == Some(s) }

  /** Extends a run by one action. */
  lemma Then(s0: State, s: State, a: Action, s': State)
    requires Reaches(s0, s) && Next(s, a) == Some(s')
    ensures Reaches(s0, s')
  {
    var acts :| Exec(s0, acts) == Some(s);
    Extend(s0, acts, a);
    assert Exec(s0, acts + [a]) == Some(s');
  }

  ghost predicate Quiet(s: State, t: nat, g: nat) {
    t < |s.tasks| && s.tasks[t].pc.Idle? && s.mutex.None? && g < |s.guards| == |s.releases|
  }

  /** An uncontended acquire, from call to return. */
  lemma AcquireRun(s0: State, s: State, t: nat, g: nat)
    requires Reaches(s0, s) && Quiet(s, t, g) && s.guards[g] == Guard(false, false)
    ensures Reaches(s0, s.(guards := s.guards[g := Guard(false, true)],
                           tasks := s.tasks[t := Task(Idle, s.tasks[t].held + {g})]))
  {
    var s1 := At(s, t, AcqLock(g));
    var s2 := At(s1, t, AcqCheck(g)).(mutex := Some(t));
    var s3 := At(s2, t, AcqDecide(g));
    var s4 := Decide(s3, t, g);
    var s5 := At(s4, t, Idle).(mutex := None);
    Then(s0, s, Acquire(t, g), s1);
    Then(s0, s1, Go(t), s2);
    Then(s0, s2, Go(t), s3);
    Then(s0, s3, Go(t), s4);
    Then(s0, s4, Go(t), s5);
    assert s5.tasks == s.tasks[t := Task(Idle, s.tasks[t].held + {g})];
  }

  /** An acquire of a pending guard, up to blocking on the semaphore. */
  lemma BlockRun(s0: State, s: State, t: nat, g: nat)
    requires Reaches(s0, s) && Quiet(s, t, g) && s.guards[g].pending
    ensures Reaches(s0, At(s, t, WaitTake(g)).(waiting := s.waiting + 1))
  {
    var s1 := At(s, t, AcqLock(g));
    var s2 := At(s1, t, AcqCheck(g)).(mutex := Some(t));
    var s3 := At(s2, t, WaitGive(g)).(waiting := s.waiting + 1);
    var s4 := At(s3, t, WaitTake(g)).(mutex := None);
    Then(s0, s, Acquire(t, g), s1);
    Then(s0, s1, Go(t), s2);
    Then(s0, s2, Go(t), s3);
    Then(s0, s3, Go(t), s4);
    assert s4.tasks == At(s, t, WaitTake(g)).tasks;
  }

  /** A waiter that holds the mutex again and finds its guard pending blocks once more. */
  lemma BlockAgain(s0: State, s: State, t: nat, g: nat)
    requires Reaches(s0, s) && t < |s.tasks| && s.tasks[t].pc == WaitCheck(g)
    requires s.mutex == Some(t) && g < |s.guards| == |s.releases| && s.guards[g].pending
    ensures Reaches(s0, At(s, t, WaitTake(g)).(mutex := None))
  {
    var s1 := At(s, t, WaitGive(g));
    var s2 := At(s1, t, WaitTake(g)).(mutex := None);
    Then(s0, s, Go(t), s1);
    Then(s0, s1, Go(t), s2);
    assert s2.tasks == At(s, t, WaitTake(g)).tasks;
  }

  /** A woken waiter whose guard is still pending takes a token and blocks again. */
  lemma ReloopRun(s0: State, s: State, t: nat, g: nat)
    requires Reaches(s0, s) && t < |s.tasks| && s.tasks[t].pc == WaitTake(g)
    requires s.mutex.None? && g < |s.guards| == |s.releases| && s.guards[g].pending && s.sem > 0
    ensures Reaches(s0, s.(sem := s.sem - 1))
  {
    var s1 := At(s, t, WaitLock(g)).(sem := s.sem - 1);
    var s2 := At(s1, t, WaitCheck(g)).(mutex := Some(t));
    Then(s0, s, Go(t), s1);
    Then(s0, s1, Go(t), s2);
    BlockAgain(s0, s2, t, g);
    assert At(s2, t, WaitTake(g)).tasks == s.tasks;
  }

  /** The first half of a release or an abort, up to the signalling loop. */
  lemma FinishRun(s0: State, s: State, t: nat, g: nat, ok: bool)
    requires Reaches(s0, s) && Quiet(s, t, g)
    requires g in s.tasks[t].held && s.guards[g] == Guard(false, true)
    ensures Reaches(s0, s.(mutex := Some(t), guards := s.guards[g := Guard(ok, false)],
                           releases := if ok then s.releases[g := s.releases[g] + 1] else s.releases,
                           tasks := s.tasks[t := Task(FinSignal(g, ok, s.waiting), s.tasks[t].held - {g})]))
  {
    var s1 := At(s, t, FinLock(g, ok));
    var s2 := At(s1, t, FinSet(g, ok)).(mutex := Some(t));
    var s3 := Finish(s2, t, g, ok);
    Then(s0, s, if ok then Release(t, g) else Abort(t, g), s1);
    Then(s0, s1, Go(t), s2);
    Then(s0, s2, Go(t), s3);
    assert s3.tasks == s.tasks[t := Task(FinSignal(g, ok, s.waiting), s.tasks[t].held - {g})];
  }

  /** The second half of a release with one give to make. */
  lemma SignalRun(s0: State, s: State, t: nat, g: nat)
    requires Reaches(s0, s) && t < |s.tasks| && g < |s.guards| == |s.releases|
    requires s.mutex == Some(t) && s.tasks[t].pc == FinSignal(g, true, 1) && s.sem == 0
    ensures Reaches(s0, At(s, t, Idle).(mutex := None, sem := 1))
  {
    var s1 := At(s, t, FinSignal(g, true, 0)).(sem := 1);
    var s2 := At(s1, t, FinReturn(g, true));
    var s3 := At(s2, t, Idle).(mutex := None);
    Then(s0, s, Go(t), s1);
    Then(s0, s1, Go(t), s2);
    Then(s0, s2, Go(t), s3);
    assert s3.tasks == At(s, t, Idle).tasks;
  }

  /** A release while one task is inside the wait routine and no token is left. */
  lemma ReleaseRun(s0: State, s: State, t: nat, g: nat)
    requires Reaches(s0, s) && Quiet(s, t, g)
    requires g in s.tasks[t].held && s.guards[g] == Guard(false, true) && s.waiting == 1 && s.sem == 0
    ensures Reaches(s0, s.(guards := s.guards[g := Guard(true, false)], sem := 1,
                           releases := s.releases[g := s.releases[g] + 1],
                           tasks := s.tasks[t := Task(Idle, s.tasks[t].held - {g})]))
  {
    FinishRun(s0, s, t, g, true);
    var s1 := s.(mutex := Some(t), guards := s.guards[g := Guard(true, false)],
                 releases := s.releases[g := s.releases[g] + 1],
                 tasks := s.tasks[t := Task(FinSignal(g, true, s.waiting), s.tasks[t].held - {g})]);
    SignalRun(s0, s1, t, g);
    assert At(s1, t, Idle).tasks == s.tasks[t := Task(Idle, s.tasks[t].held - {g})];
  }

  /** Task 1 holds guard 1 and is blocked on guard 0, which task 0 holds. */
  ghost function CrossedState(n: nat, m: nat): State
    requires n >= 2 && m >= 2
  {
    var s0 := Init(n, m);
    s0.(guards := s0.guards[1 := Guard(false, true)][0 := Guard(false, true)], waiting := 1,
        tasks := s0.tasks[1 := Task(WaitTake(0), {1})][0 := Task(Idle, {0})])
  }

  lemma CrossedRun(n: nat, m: nat)
    requires n >= 2 && m >= 2
    ensures Reaches(Init(n, m), CrossedState(n, m))
  {
    var s0 := Init(n, m);
    assert Exec(s0, []) == Some(s0);
    AcquireRun(s0, s0, 1, 1);
    var s1 := s0.(guards := s0.guards[1 := Guard(false, true)], tasks := s0.tasks[1 := Task(Idle, {1})]);
    assert {} + {1} == {1} && {} + {0} == {0};
    AcquireRun(s0, s1, 0, 0);
    var s2 := s1.(guards := s1.guards[0 := Guard(false, true)], tasks := s1.tasks[0 := Task(Idle, {0})]);
    BlockRun(s0, s2, 1, 0);
    assert s2.tasks[1 := Task(WaitTake(0), {1})] == CrossedState(n, m).tasks;
  }

  /** Task 0 releases guard 0, then waits on guard 1: it takes the token meant for task 1 and
      blocks again.  Guard 0 is ready, no token is left, and neither of the two tasks can take
      another step. */
  lemma LostWakeup(n: nat, m: nat) returns (acts: seq<Action>)
    requires n >= 2 && m >= 2
    ensures Exec(Init(n, m), acts).Some?
    ensures var s := Exec(Init(n, m), acts).value;
            && |s.tasks| == n && |s.guards| == m
            && s.guards[0].ready && !WakeOk(s, 0)
            && (forall a: Action :: a.t <= 1 ==> Next(s, a).None?)
  {
    var s0, s3 := Init(n, m), CrossedState(n, m);
    CrossedRun(n, m);
    assert {0} - {0} == {};
    ReleaseRun(s0, s3, 0, 0);
    var s4 := s3.(guards := s3.guards[0 := Guard(true, false)], sem := 1,
                  releases := s3.releases[0 := 1], tasks := s3.tasks[0 := Task(Idle, {})]);
    BlockRun(s0, s4, 0, 1);
    var s5 := At(s4, 0, WaitTake(1)).(waiting := 2);
    ReloopRun(s0, s5, 0, 1);
    CountPositive(s5.tasks, 1, BlockedOn(0));
    acts :| Exec(s0, acts) == Some(s5.(sem := 0));
  }

  /** Exactly when the promise of the waiting comment holds: one task or one guard at most. */
  lemma WakeupsSufficeIff(n: nat, m: nat)
    requires n <= SEM_MAX
    ensures WakeupsSuffice(n, m) <==> n <= 1 || m <= 1
  {
    if n <= 1 || m <= 1 {
      WakeupsSufficeWhen(n, m);
    } else {
      var acts := LostWakeup(n, m);
      assert !WakeOk(Exec(Init(n, m), acts).value, 0);
    }
  }

  // ------------------------------------------------------------------ an aborted guard is free

  /** An abort while nobody waits gives the guard up as if it had never been acquired. */
  lemma AbortRun(s0: State, s: State, t: nat, g: nat)
    requires Reaches(s0, s) && Quiet(s, t, g)
    requires g in s.tasks[t].held && s.guards[g] == Guard(false, true) && s.waiting == 0
    ensures Reaches(s0, s.(guards := s.guards[g := Guard(false, false)],
                           tasks := s.tasks[t := Task(Idle, s.tasks[t].held - {g})]))
  {
    FinishRun(s0, s, t, g, false);
    var s1 := s.(mutex := Some(t), guards := s.guards[g := Guard(false, false)],
                 tasks := s.tasks[t := Task(FinSignal(g, false, s.waiting), s.tasks[t].held - {g})]);
    var s2 := At(s1, t, FinReturn(g, false));
    var s3 := At(s2, t, Idle).(mutex := None);
    Then(s0, s1, Go(t), s2);
    Then(s0, s2, Go(t), s3);
    assert s3.tasks == s.tasks[t := Task(Idle, s.tasks[t].held - {g})];
  }

  /** Task 0 acquires guard 0 and aborts; task 1 acquires it again, with result 1. */
  lemma AbortedIsAcquiredAgain(n: nat, m: nat)
    requires n >= 2 && m >= 1
    ensures var s0 := Init(n, m);
            Reaches(s0, s0.(guards := s0.guards[0 := Guard(false, true)], tasks := s0.tasks[1 := Task(Idle, {0})]))
  {
    var s0 := Init(n, m);
    assert Exec(s0, []) == Some(s0);
    assert {} + {0} == {0} && {0} - {0} == {};
    AcquireRun(s0, s0, 0, 0);
    var s1 := s0.(guards := s0.guards[0 := Guard(false, true)], tasks := s0.tasks[0 := Task(Idle, {0})]);
    AbortRun(s0, s1, 0, 0);
    assert s0.guards[0 := Guard(false, true)][0 := Guard(false, false)] == s0.guards;
    assert s0.tasks[0 := Task(Idle, {0})][0 := Task(Idle, {})] == s0.tasks;
    AcquireRun(s0, s0, 1, 0);
  }
}
