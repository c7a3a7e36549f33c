/** The guards as one-time initialisation: in every interleaving the calls take effect one at a time,
    each at one moment inside the call, and what they return is what a sequential guard would return. */
module GuardHistory {
  import opened Basics
  import opened CxxGuards

  // ------------------------------------------------------------------ the sequential guard

  /** Nobody initialises the object, task `t` does, or it is done. */
  datatype Phase = Free | Busy(t: nat) | Done

  /** A call takes effect: acquire with its result, release, or abort. */
  datatype Event = Acquired(t: nat, g: nat, ret: bool) | Released(t: nat, g: nat) | Aborted(t: nat, g: nat)

  /** What a sequential guard allows, and the phase behind it. */
  function Apply(p: Phase, e: Event): Option<Phase> {
    match e
    case Acquired(t, _, ret) => if ret then (if p == Free then Some(Busy(t)) else None) else if p == Done then Some(Done) else None
    case Released(t, _) => if p == Busy(t) then Some(Done) else None
    case Aborted(t, _) => if p == Busy(t) then Some(Free) else None
  }

  /** The phase of guard `g` after a history; none when the history is not a sequential one. */
  function Replay(log: seq<Event>, g: nat): Option<Phase> {
    if log == [] then Some(Free)
    else
      var rest, e := Replay(log[..|log| - 1], g), log[|log| - 1];
      if rest.None? || e.g != g then rest else Apply(rest.value, e)
  }

  // ------------------------------------------------------------------ the history of a run

  /** The call of a task that is inside one, by the action that began it. */
  datatype Call = NoCall | InAcquire(g: nat) | InRelease(g: nat) | InAbort(g: nat)

  function CallAfter(c: Call, a: Action, pc: Pc): Call {
    match a
    case Acquire(_, g) => InAcquire(g)
    case Release(_, g) => InRelease(g)
    case Abort(_, g) => InAbort(g)
    case Go(_) => if pc.Idle? then NoCall else c
  }

  /** The moments at which calls take effect: acquire when its result is known, release and abort when
      they begin to signal. */
  function Effect(c: Call, t: nat, before: Pc, after: Pc): seq<Event> {
    if after.AcqReturn? && !before.AcqReturn? && c.InAcquire? then [Acquired(t, c.g, after.ret)]
    else if after.FinSignal? && !before.FinSignal? && c.InRelease? then [Released(t, c.g)]
    else if after.FinSignal? && !before.FinSignal? && c.InAbort? then [Aborted(t, c.g)]
    else []
  }

  /** A run with the calls the tasks are inside, how often each of them took effect, and the history. */
  datatype Trace = Trace(s: State, calls: seq<Call>, effects: seq<nat>, log: seq<Event>)

  function Start(n: nat, m: nat): Trace { Trace(Init(n, m), seq(n, _ => NoCall), seq(n, _ => 0), []) }

  function NextTrace(r: Trace, a: Action): Option<Trace> {
    match Next(r.s, a)
    case None => None
    case Some(s') =>
      if a.t >= |r.calls| || a.t >= |r.effects| || a.t >= |r.s.tasks| || a.t >= |s'.tasks| then None
      else
        var before, after := r.s.tasks[a.t].pc, s'.tasks[a.t].pc;
        var e, c := Effect(r.calls[a.t], a.t, before, after), CallAfter(r.calls[a.t], a, after);
        Some(Trace(s', r.calls[a.t := c], r.effects[a.t := if a.Go? && c.NoCall? then 0 else r.effects[a.t] + |e|], r.log + e))
  }

  function ExecTrace(r: Trace, acts: seq<Action>): Option<Trace>
    decreases |acts|
  {
    if acts == [] then Some(r)
    else match NextTrace(r, acts[0])
      case None => None
      case Some(r') => ExecTrace(r', acts[1..])
  }

  /** The step of its call that a task is at. */
  predicate AtCall(c: Call, pc: Pc) {
    match c
    case NoCall => pc.Idle?
    case InAcquire(g) => (InWait(pc) || pc.AcqLock? || pc.AcqCheck? || pc.AcqDecide? || pc.AcqReturn?) && pc.g == g
    case InRelease(g) => (pc.FinLock? || pc.FinSet? || pc.FinSignal? || pc.FinReturn?) && pc.g == g && pc.ok
    case InAbort(g) => (pc.FinLock? || pc.FinSet? || pc.FinSignal? || pc.FinReturn?) && pc.g == g && !pc.ok
  }

  /** The guard bytes and the holder are those of the phase. */
  ghost predicate Stands(s: State, g: nat, p: Phase)
    requires g < |s.guards|
  {
    && s.guards[g] == Guard(p == Done, p.Busy?)
    && forall t :: Holds(s, t, g) <==> p == Busy(t)
  }

  function Taken(pc: Pc): nat { if pc.AcqReturn? || pc.FinSignal? || pc.FinReturn? then 1 else 0 }

  /** A call has taken effect once when only signalling and returning are left, and not before. */
  ghost predicate CallsOk(r: Trace) {
    && |r.calls| == |r.effects| == |r.s.tasks|
    && forall t :: 0 <= t < |r.calls| ==>
         var pc := r.s.tasks[t].pc;
         AtCall(r.calls[t], pc) && r.effects[t] == Taken(pc)
  }

  ghost predicate TraceOk(r: Trace) {
    && Inv(r.s) && CallsOk(r)
    && (forall g :: 0 <= g < |r.s.guards| ==> Replay(r.log, g).Some? && Stands(r.s, g, Replay(r.log, g).value))
  }

  lemma ReplayNext(log: seq<Event>, e: Event, g: nat)
    ensures Replay(log + [e], g) == if Replay(log, g).None? || e.g != g then Replay(log, g) else Apply(Replay(log, g).value, e)
  {
    assert (log + [e])[..|log|] == log;
  }

  /** What a step does to guard `h`: acquire decides about it, release or abort gives it up, or nothing. */
  lemma GuardChange(s: State, a: Action, h: nat)
    requires Inv(s) && Next(s, a).Some? && h < |s.guards|
    ensures var s', t := Next(s, a).value, a.t;
            && |s'.guards| == |s.guards| && t < |s.tasks| == |s'.tasks|
            && (forall u :: u != t ==> (Holds(s', u, h) <==> Holds(s, u, h)))
            && var pc, pc' := s.tasks[t].pc, s'.tasks[t].pc;
               if a.Go? && pc.AcqDecide? && pc.g == h then
                 && !s.guards[h].pending && pc' == AcqReturn(h, !s.guards[h].ready)
                 && if pc'.ret then s'.guards[h] == Guard(false, true) && Holds(s', t, h)
                    else s'.guards[h] == s.guards[h] && (Holds(s', t, h) <==> Holds(s, t, h))
               else if a.Go? && pc.FinSet? && pc.g == h then
                 && pc'.FinSignal? && s.guards[h] == Guard(false, true) && Holds(s, t, h)
                 && s'.guards[h] == Guard(pc.ok, false) && !Holds(s', t, h)
               else s'.guards[h] == s.guards[h] && (Holds(s', t, h) <==> Holds(s, t, h))
  {
    StepFrame(s, a);
    assert PcOk(s, a.t) && GuardOk(s, h);
  }

  /** The call of the task that moves, and when it takes effect. */
  lemma CallSelf(s: State, a: Action, c: Call, k: nat)
    requires Inv(s) && Next(s, a).Some? && a.t < |s.tasks| && AtCall(c, s.tasks[a.t].pc) && k == Taken(s.tasks[a.t].pc)
    ensures var s', t := Next(s, a).value, a.t;
            && t < |s'.tasks|
            && var before, after := s.tasks[t].pc, s'.tasks[t].pc;
               var e, d := Effect(c, t, before, after), CallAfter(c, a, after);
               && AtCall(d, after) && Taken(after) == (if a.Go? && d.NoCall? then 0 else k + |e|)
               && (e != [] <==> a.Go? && (before.AcqDecide? || before.FinSet?))
               && (e != [] ==> e[0].t == t && e[0].g == before.g && (e[0].Acquired? <==> before.AcqDecide?)
                               && (before.AcqDecide? ==> after == AcqReturn(before.g, e[0].ret))
                               && (before.FinSet? ==> (e[0].Released? <==> before.ok)))
  {
    assert PcOk(s, a.t);
    if s.tasks[a.t].pc.FinSet? { assert GuardOk(s, s.tasks[a.t].pc.g); }
    CountPositive(s.tasks, a.t, InWait);
  }

  lemma CallStep(r: Trace, a: Action)
    requires TraceOk(r) && NextTrace(r, a).Some?
    ensures CallsOk(NextTrace(r, a).value)
  {
    StepFrame(r.s, a);
    assert AtCall(r.calls[a.t], r.s.tasks[a.t].pc);
    CallSelf(r.s, a, r.calls[a.t], r.effects[a.t]);
  }

  /** A step of task `t` with effect `e` on guard `g`. */
  ghost predicate Acts(s: State, s': State, t: nat, g: nat, e: seq<Event>)
    requires g < |s.guards| == |s'.guards|
  {
    && (forall u :: u != t ==> (Holds(s', u, g) <==> Holds(s, u, g)))
    && if e == [] || e[0].g != g then s'.guards[g] == s.guards[g] && (Holds(s', t, g) <==> Holds(s, t, g))
       else if e[0].Acquired? then
         && e[0].t == t && !s.guards[g].pending && (e[0].ret <==> !s.guards[g].ready)
         && (e[0].ret ==> s'.guards[g] == Guard(false, true) && Holds(s', t, g))
         && (!e[0].ret ==> s'.guards[g] == s.guards[g] && (Holds(s', t, g) <==> Holds(s, t, g)))
       else
         && e[0].t == t && s.guards[g] == Guard(false, true) && Holds(s, t, g)
         && s'.guards[g] == Guard(e[0].Released?, false) && !Holds(s', t, g)
  }

  lemma StepActs(s: State, a: Action, c: Call, g: nat)
    requires Inv(s) && Next(s, a).Some? && g < |s.guards| && a.t < |s.tasks| && AtCall(c, s.tasks[a.t].pc)
    ensures var s' := Next(s, a).value;
            && |s'.guards| == |s.guards| && a.t < |s'.tasks|
            && Acts(s, s', a.t, g, Effect(c, a.t, s.tasks[a.t].pc, s'.tasks[a.t].pc))
  {
    GuardChange(s, a, g);
    CallSelf(s, a, c, Taken(s.tasks[a.t].pc));
  }

  /** What a sequential guard does in such a step. */
  lemma PhaseStep(s: State, s': State, t: nat, g: nat, e: seq<Event>, p: Phase)
    requires g < |s.guards| == |s'.guards| && Acts(s, s', t, g, e) && Stands(s, g, p)
    ensures var q := if e == [] || e[0].g != g then Some(p) else Apply(p, e[0]);
            q.Some? && Stands(s', g, q.value)
  {
    assert Holds(s, t, g) <==> p == Busy(t);
  }

  /** One step takes effect on one guard at most, as the sequential guard would. */
  lemma EffectStep(r: Trace, a: Action, g: nat)
    requires TraceOk(r) && NextTrace(r, a).Some? && g < |r.s.guards|
    ensures var r' := NextTrace(r, a).value;
            g < |r'.s.guards| && Replay(r'.log, g).Some? && Stands(r'.s, g, Replay(r'.log, g).value)
  {
    var s', t := Next(r.s, a).value, a.t;
    assert AtCall(r.calls[t], r.s.tasks[t].pc);
    StepActs(r.s, a, r.calls[t], g);
    var e := Effect(r.calls[t], t, r.s.tasks[t].pc, s'.tasks[t].pc);
    PhaseStep(r.s, s', t, g, e, Replay(r.log, g).value);
    LogStep(r.log, e, g);
  }

  lemma LogStep(log: seq<Event>, e: seq<Event>, g: nat)
    requires |e| <= 1 && Replay(log, g).Some?
    ensures Replay(log + e, g) == if e == [] || e[0].g != g then Replay(log, g) else Apply(Replay(log, g).value, e[0])
  {
    if e == [] { assert log + e == log; } else { ReplayNext(log, e[0], g); assert e == [e[0]]; }
  }

  lemma TraceStep(r: Trace, a: Action)
    requires TraceOk(r) && NextTrace(r, a).Some?
    ensures TraceOk(NextTrace(r, a).value)
  {
    StepInv(r.s, a);
    StepFrame(r.s, a);
    CallStep(r, a);
    forall g | 0 <= g < |r.s.guards|
      ensures Replay(NextTrace(r, a).value.log, g).Some?
              && Stands(NextTrace(r, a).value.s, g, Replay(NextTrace(r, a).value.log, g).value)
    {
      EffectStep(r, a, g);
    }
  }

  lemma {:induction false} TraceRun(r: Trace, acts: seq<Action>)
    requires TraceOk(r) && ExecTrace(r, acts).Some?
    ensures TraceOk(ExecTrace(r, acts).value)
    decreases |acts|
  {
    if acts != [] {
      TraceStep(r, acts[0]);
      TraceRun(NextTrace(r, acts[0]).value, acts[1..]);
    }
  }

  /** Every run has a history. */
  lemma {:induction false} HistoryOfRun(r: Trace, acts: seq<Action>)
    requires Exec(r.s, acts).Some? && |r.calls| == |r.effects| == |r.s.tasks|
    ensures ExecTrace(r, acts).Some? && ExecTrace(r, acts).value.s == Exec(r.s, acts).value
    decreases |acts|
  {
    if acts != [] {
      StepFrame(r.s, acts[0]);
      HistoryOfRun(NextTrace(r, acts[0]).value, acts[1..]);
    }
  }

  /** In every interleaving of any number of tasks and guards the calls that took effect, in the order
      in which they did, are a run of the sequential guard: acquire returns 1 only on a free guard and
      0 only on one that is done, release makes it done, abort makes it free again.  Each call takes
      effect exactly once. */
  lemma EveryRunIsSequential(n: nat, m: nat, acts: seq<Action>)
    requires Exec(Init(n, m), acts).Some?
    ensures ExecTrace(Start(n, m), acts).Some?
    ensures var r := ExecTrace(Start(n, m), acts).value;
            && r.s == Exec(Init(n, m), acts).value
            && CallsOk(r)
            && forall g :: 0 <= g < |r.s.guards| ==> Replay(r.log, g).Some? && Stands(r.s, g, Replay(r.log, g).value)
  {
    InitInv(n, m);
    var r := Start(n, m);
    assert forall g, t :: !Holds(r.s, t, g);
    HistoryOfRun(r, acts);
    TraceRun(r, acts);
  }
}
