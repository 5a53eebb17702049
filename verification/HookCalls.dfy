/**
 * What becomes of a call, step by step and over whole runs, said of the states before and after: how it
 * begins, parks, goes on after its park and ends, and how transfers and connects differ.
 */
module HookCalls {
  import S = SchedulerSpec
  import I = IoSpec
  import R = IoReports
  import opened Wrappers
  import opened HookSpec

  /** Nothing excludes these steps: time passes, and anybody may cancel, close or delete. */
  lemma EnabledIs(s: State, step: Step)
    ensures step.Tick? || step.CancelOne? || step.CloseAll? || step.Delete? ==> Enabled(s, step)
    ensures step.Spawn? && step.f !in s.phases ==> Enabled(s, step)
    ensures step.Take? && W !in s.io.sched.held ==> Enabled(s, step)
    ensures step.Expire? && step.t < |s.timers| && s.timers[step.t].state == Set && s.timers[step.t].due <= s.clock ==>
              Enabled(s, step)
  {
  }

  // ----- One step -----

  /** A fiber begins a call: it is recorded as made, and tries. */
  lemma BeginIs(s: State, f: nat, kind: Kind, fd: nat, event: I.Event, timed: bool, ms: nat)
    requires Inv(s) && Enabled(s, Begin(f, kind, fd, event, timed, ms))
    ensures var to := Exec(s, Begin(f, kind, fd, event, timed, ms));
            && |to.calls| == |s.calls| + 1 && to.calls[..|s.calls|] == s.calls
            && var call := to.calls[|s.calls|];
            && call.kind == kind && call.fiber == f && call.fd == fd && call.event == event
            && call.timed == timed && call.to == ms
            && call.outcome == Pending && !call.cancelled && !call.lost && call.timer == None
            && to.phases == s.phases[f := Trying(|s.calls|)] && to.timers == s.timers && to.io == s.io
  {
    hide Inv;
  }

  /** The system call did not block: the call has returned, and nothing else has changed. */
  lemma ReturnIs(s: State, f: nat)
    requires Inv(s) && Enabled(s, Return(f))
    ensures var c, to := s.phases[f].call, Exec(s, Return(f));
            && c < |s.calls| && |to.calls| == |s.calls|
            && (forall d | 0 <= d < |s.calls| && d != c :: to.calls[d] == s.calls[d])
            && to.calls[c] == s.calls[c].(outcome := Returned)
            && to.phases == s.phases[f := Outside] && to.timers == s.timers && to.io == s.io
  {
    hide Inv;
    ReturnKnown(s, f);
  }

  /**
   * The system call would block. A timed call gets a timer of its timeout, from now. If addEvent works, the
   * fiber is parked on the new registration; if not, the timer is cancelled, a transfer has failed, and a
   * connect has returned.
   */
  lemma BlockIs(s: State, f: nat, works: bool)
    requires Inv(s) && Enabled(s, Block(f, works))
    ensures var c, to := s.phases[f].call, Exec(s, Block(f, works));
            && c < |s.calls| && |to.calls| == |s.calls|
            && (forall d | 0 <= d < |s.calls| && d != c :: to.calls[d] == s.calls[d])
            && to.phases == s.phases[f := if works then Parked(c, |s.io.regs|) else Outside]
            && |to.timers| == |s.timers| + (if s.calls[c].timed then 1 else 0) && to.timers[..|s.timers|] == s.timers
            && (s.calls[c].timed ==>
                  to.timers[|s.timers|] == Timer(c, s.clock + s.calls[c].to, if works then Set else Over))
            && var parked := s.calls[c].(timer := if s.calls[c].timed then Some(|s.timers|) else None);
            && if works then
                 && to.calls[c] == parked
                 && to.io.regs == s.io.regs + [I.Registration(s.calls[c].fd, s.calls[c].event, S.Fiber(f))]
                 && Running(to.io) == S.Empty
               else
                 && to.calls[c] == parked.(outcome := if s.calls[c].kind == Transfer then Failed else Returned)
                 && to.io.regs == s.io.regs && Running(to.io) == S.Fiber(f)
  {
    hide I.Inv, Agree, I.AddEvent, I.Waits, I.Grown;
    assert PhaseAgrees(s, f, s.phases[f]);
    BusyIsCounted(s);
    var call := s.calls[s.phases[f].call];
    I.AddIsExact(s.io, call.fd, call.event, None, f, works);
  }

  /**
   * The worker takes the first task. A new fiber runs. A parked one goes on: its timer is cancelled if that
   * is not too late; a marked call has timed out; a connect has returned; a transfer tries again.
   */
  lemma TakeIs(s: State)
    requires Inv(s) && Enabled(s, Take)
    ensures var to := Exec(s, Take);
            var run := Running(to.io);
            && (if s.io.sched.queue == [] then run == S.Empty && to.io.sched.queue == []
                else run == s.io.sched.queue[0].call && to.io.sched.queue == s.io.sched.queue[1..])
            && |to.calls| == |s.calls| && |to.timers| == |s.timers| && to.io.regs == s.io.regs
            && if run.Fiber? then
                 && run.fiber in s.phases
                 && match s.phases[run.fiber]
                    case New =>
                      to.phases == s.phases[run.fiber := Outside] && to.calls == s.calls && to.timers == s.timers
                    case Parked(c, n) =>
                      && c < |s.calls|
                      && (forall d | 0 <= d < |s.calls| && d != c :: to.calls[d] == s.calls[d])
                      && GoesOn(s, run.fiber, c, to) && TimerCancelled(s, c, to)
                    case _ => false
               else to.phases == s.phases && to.calls == s.calls && to.timers == s.timers
  {
    hide I.Inv, I.Waits, Agree, CallsAgree, S.DoTake, Took, Running, TimerCancelled, GoesOn, HookSpec.Resumed;
    var io := WithSched(s.io, S.DoTake(s.io.sched, W));
    TakesFirst(s.io, s.phases, s.timers);
    NotHeld(s.io);
    var run := Running(io);
    if run.Fiber? {
      TakenIsReady(s.io, io, s.phases, s.timers, run.fiber);
      if s.phases[run.fiber].Parked? {
        ParkedCall(s, run.fiber);
        ResumedIs(s, io, run.fiber, s.phases[run.fiber].call);
      }
    }
  }

  lemma NotHeld(io: I.Io)
    requires W !in io.sched.held
    ensures Running(io) == S.Empty
  {
  }

  /** The queue is served from its front. */
  lemma TakesFirst(io: I.Io, phases: map<nat, Phase>, timers: seq<Timer>)
    requires I.Inv(io) && OneWorker(io) && W !in io.sched.held && Agree(io, phases, timers)
    ensures var to := WithSched(io, S.DoTake(io.sched, W));
            && to.regs == io.regs
            && (if io.sched.queue == [] then Running(to) == S.Empty && to.sched.queue == []
                else Running(to) == io.sched.queue[0].call && to.sched.queue == io.sched.queue[1..])
            && (Running(to) != S.Empty ==> Took(io, to, Running(to)))
  {
    hide I.Inv, I.Waits, InQueue, FiberAgrees, TimerAgrees, CallKnown, WaiterAgrees, S.DoTake, Took;
    TakeIsExact(io, phases, timers);
    Picked(io.sched);
    S.PickIs(io.sched.queue, W, 0);
    if io.sched.queue != [] { assert io.sched.queue[..0] + io.sched.queue[1..] == io.sched.queue[1..]; }
  }

  lemma ResumedIs(s: State, io: I.Io, f: nat, c: nat)
    requires c < |s.calls|
    ensures var to := HookSpec.Resumed(s.(io := io), f, c);
            && |to.calls| == |s.calls| && |to.timers| == |s.timers| && to.io == io
            && (forall d | 0 <= d < |s.calls| && d != c :: to.calls[d] == s.calls[d])
            && GoesOn(s, f, c, to) && TimerCancelled(s, c, to)
  {
  }

  /** How a fiber goes on after its park. */
  predicate GoesOn(s: State, f: nat, c: nat, to: State)
    requires c < |s.calls| == |to.calls|
  {
    if s.calls[c].cancelled then
      to.phases == s.phases[f := Outside] && to.calls[c] == s.calls[c].(outcome := TimedOut)
    else
      match s.calls[c].kind
      case Connect => to.phases == s.phases[f := Outside] && to.calls[c] == s.calls[c].(outcome := Returned)
      case Transfer => to.phases == s.phases[f := Trying(c)] && to.calls[c] == s.calls[c]
  }

  /** The timer of the park is over if it was in the set; no other has changed. */
  predicate TimerCancelled(s: State, c: nat, to: State)
    requires c < |s.calls| && |s.timers| == |to.timers|
  {
    forall t | 0 <= t < |s.timers| ::
      to.timers[t] == if s.calls[c].timer == Some(t) && s.timers[t].state == Set then s.timers[t].(state := Over)
                      else s.timers[t]
  }

  /**
   * The callback of a timer: its call, if it is still in progress and not marked, is marked as timed out, and
   * whoever waits for the event of the call is scheduled if epoll_ctl works; nobody else is.
   */
  lemma RunTimerIs(s: State, t: nat, works: bool)
    requires Inv(s) && Enabled(s, RunTimer(t, works))
    ensures t < |s.timers| && s.timers[t].call < |s.calls|
    ensures var c, to := s.timers[t].call, Exec(s, RunTimer(t, works));
            var call := s.calls[c];
            var marks := call.outcome == Pending && !call.cancelled;
            && to.phases == s.phases && to.timers == s.timers[t := s.timers[t].(state := Over)]
            && |to.calls| == |s.calls| && (forall d | 0 <= d < |s.calls| && d != c :: to.calls[d] == s.calls[d])
            && to.calls[c] == call.(cancelled := marks || call.cancelled, lost := to.calls[c].lost)
            && to.io.regs == s.io.regs && Running(to.io) == S.Empty
            && forall n | 0 <= n < |s.io.regs| && I.Waits(s.io, n) ::
                 n in to.io.scheduled <==>
                 marks && works && s.io.regs[n].fd == call.fd && s.io.regs[n].event == call.event
  {
    hide I.Inv, Agree, CallsAgree, I.Waits, I.CancelEvent, S.DoFinish;
    BusyIsCounted(s);
    TimerKnown(s, t);
    var call := s.calls[s.timers[t].call];
    I.CancelIsExact(s.io, call.fd, call.event, works);
    CancelKeepsHeld(s.io, call.fd, call.event, works);
    FinishIsExact(s.io);
    FinishIsExact(I.CancelEvent(s.io, call.fd, call.event, works).io);
    InvIsCore(s.io);
    forall n | 0 <= n < |s.io.regs| && I.Waits(s.io, n)
      ensures n !in s.io.scheduled
    {
      ScheduledDoesNotWait(s.io, n);
    }
    forall n | 0 <= n < |s.io.regs| && I.Waits(s.io, n)
      ensures s.io.regs[n].fd < |s.io.ctxs| && s.io.regs[n].event in s.io.ctxs[s.io.regs[n].fd].events
    {
      WaiterIsArmed(s.io, n);
    }
  }

  lemma WaiterIsArmed(io: I.Io, n: nat)
    requires n < |io.regs| && I.Waits(io, n)
    ensures io.regs[n].fd < |io.ctxs| && io.regs[n].event in io.ctxs[io.regs[n].fd].events
  {
  }

  /** A step of the manager, the clock, or a fiber outside its calls. */
  predicate IsOther(step: Step) {
    !step.Begin? && !step.Return? && !step.Block? && !step.Take? && !step.RunTimer?
  }

  /** These leave the calls as they are; only a fiber that is spawned or ends changes its phase. */
  lemma OtherIs(s: State, step: Step)
    requires Inv(s) && Enabled(s, step) && IsOther(step)
    ensures var to := Exec(s, step);
            && to.calls == s.calls
            && to.phases == (match step
                             case Spawn(f) => s.phases[f := New]
                             case End(f) => s.phases[f := Ended]
                             case _ => s.phases)
            && to.timers == (match step
                             case Expire(t) => s.timers[t := s.timers[t].(state := Queued)]
                             case _ => s.timers)
            && to.clock == (match step case Tick(ms) => s.clock + ms case _ => s.clock)
  {
    hide I.Inv, Agree, CallsAgree, I.CancelEvent, I.CancelAll, I.DelEvent, I.DeliverEach, S.DoFinish, S.DoSchedule;
    match step
    case End(f) => BusyIsCounted(s);
    case _ =>
  }

  /** The step cancels, closes, deletes or delivers. */
  predicate IsManager(step: Step) { step.CancelOne? || step.CloseAll? || step.Delete? || step.Reports? }

  /** Who is scheduled by it, of those who wait. */
  predicate Wakes(step: Step, r: I.Registration)
    requires IsManager(step)
  {
    match step
    case CancelOne(fd, event, works) => works && r.fd == fd && r.event == event
    case CloseAll(fd, works) => works && r.fd == fd
    case Delete(_, _, _) => false
    case Reports(reports) => R.Reported(reports, r)
  }

  /** Nobody else is, and who is deleted is neither scheduled nor waits any more. */
  lemma ManagerIs(s: State, step: Step)
    requires Inv(s) && Enabled(s, step) && IsManager(step)
    ensures var to := Exec(s, step);
            && to.io.regs == s.io.regs
            && forall n | 0 <= n < |s.io.regs| && I.Waits(s.io, n) ::
                 var r := s.io.regs[n];
                 var deletes := step.Delete? && step.works && r.fd == step.fd && r.event == step.event;
                 && (n in to.io.scheduled <==> Wakes(step, r)) && (n in to.io.deleted <==> deletes)
                 && (I.Waits(to.io, n) <==> !Wakes(step, r) && !deletes)
  {
    hide I.Inv, Agree, CallsAgree, I.Waits, I.CancelEvent, I.CancelAll, I.DelEvent, I.DeliverEach, R.Reported;
    forall n | 0 <= n < |s.io.regs| && I.Waits(s.io, n)
      ensures s.io.regs[n].fd < |s.io.ctxs| && s.io.regs[n].event in s.io.ctxs[s.io.regs[n].fd].events
      ensures n !in s.io.scheduled && n !in s.io.deleted && s.io.regs[n].event in {I.READ, I.WRITE}
    {
      WaiterIsArmed(s.io, n);
      WaiterIsOnlyWaiting(s.io, n);
      match s.io.regs[n].event case READ => case WRITE =>
    }
    match step
    case CancelOne(fd, event, works) => I.CancelIsExact(s.io, fd, event, works);
    case CloseAll(fd, works) => I.CancelAllIsExact(s.io, fd, works);
    case Delete(fd, event, works) =>
      I.DelIsExact(s.io, fd, event, works);
      if works && fd < |s.io.ctxs| && event in s.io.ctxs[fd].events {
        DeletedIs(s.io, fd, event);
        I.SameContexts(I.Deleted(s.io, fd, event), Exec(s, step).io);
      }
    case Reports(reports) => R.ReportsWakeExactly(s.io, reports);
  }

  lemma WaiterIsOnlyWaiting(io: I.Io, n: nat)
    requires I.Inv(io) && n < |io.regs| && I.Waits(io, n)
    ensures n !in io.scheduled && n !in io.deleted
  {
    hide I.ContextsOk, I.Balanced, I.Woken, S.Inv, I.Mirrored, I.Waits;
  }

  lemma DeletedIs(io: I.Io, fd: nat, e: I.Event)
    requires I.Inv(io) && fd < |io.ctxs| && e in io.ctxs[fd].events
    ensures var to := I.Deleted(io, fd, e);
            && to.regs == io.regs && to.scheduled == io.scheduled
            && forall n | 0 <= n < |io.regs| && I.Waits(io, n) ::
                 var deletes := io.regs[n].fd == fd && io.regs[n].event == e;
                 (n in to.deleted <==> deletes) && (I.Waits(to, n) <==> !deletes)
  {
    hide I.Inv;
    ArmedNumber(io, fd, e);
    forall n | 0 <= n < |io.regs| && I.Waits(io, n)
      ensures n !in io.deleted
    {
      WaiterIsOnlyWaiting(io, n);
    }
  }

  lemma ArmedNumber(io: I.Io, fd: nat, e: I.Event)
    requires I.Inv(io) && fd < |io.ctxs| && e in io.ctxs[fd].events
    ensures var n := I.Context(io.ctxs[fd], e).number;
            n < |io.regs| && io.regs[n].fd == fd && io.regs[n].event == e
  {
    hide I.Balanced, I.Woken, S.Inv, I.Mirrored, I.Fates;
    assert I.ContextOk(io.regs, io.ctxs[fd], fd, e);
  }

  // ----- Whole runs -----

  /** The step parks the fiber of the call. */
  ghost predicate Parks(s: State, step: Step, c: nat)
    requires Inv(s) && Enabled(s, step)
  {
    step.Block? && s.phases[step.f].call == c && step.f in Exec(s, step).phases && Exec(s, step).phases[step.f].Parked?
  }

  /** How often the run parks the call. */
  ghost function ParksIn(s: State, steps: seq<Step>, c: nat): nat
    requires Inv(s) && Runs(s, steps)
    decreases |steps|
  {
    if steps == [] then 0
    else
      ExecKeepsInv(s, steps[0]);
      (if Parks(s, steps[0], c) then 1 else 0) + ParksIn(Exec(s, steps[0]), steps[1..], c)
  }

  /** The fiber of the call may still find that it has to park: the call has not begun, or tries. */
  predicate MayPark(s: State, c: nat) {
    c >= |s.calls| || (s.calls[c].fiber in s.phases && s.phases[s.calls[c].fiber] == Trying(c))
  }

  /** What a call is made for never changes. */
  predicate SameCall(a: Call, b: Call) {
    b.kind == a.kind && b.fiber == a.fiber && b.fd == a.fd && b.event == a.event && b.timed == a.timed && b.to == a.to
  }

  lemma KindStays(s: State, step: Step, c: nat)
    requires Inv(s) && Enabled(s, step) && c < |s.calls|
    ensures c < |Exec(s, step).calls| && SameCall(s.calls[c], Exec(s, step).calls[c])
  {
    hide Inv, Enabled, Exec, GoesOn, TimerCancelled, Running, I.Waits;
    match step
    case Begin(f, kind, fd, event, timed, ms) =>
      BeginIs(s, f, kind, fd, event, timed, ms);
      assert s.calls[c] == Exec(s, step).calls[..|s.calls|][c];
    case Return(f) => ReturnIs(s, f);
    case Block(f, works) => BlockIs(s, f, works);
    case Take => TakeKeepsKind(s, c);
    case RunTimer(t, works) => RunTimerIs(s, t, works);
    case _ => OtherIs(s, step);
  }

  lemma TakeKeepsKind(s: State, c: nat)
    requires Inv(s) && Enabled(s, Take) && c < |s.calls|
    ensures var to := Exec(s, Take);
            c < |to.calls| && SameCall(s.calls[c], to.calls[c])
  {
    hide Inv, Enabled, Exec, TimerCancelled, Running;
    TakeIs(s);
  }

  /** A connect that has parked or ended never tries again. */
  lemma ConnectGoesOn(s: State, step: Step, c: nat)
    requires Inv(s) && Enabled(s, step)
    ensures var to := Exec(s, step);
            && (Parks(s, step, c) ==> MayPark(s, c) && !MayPark(to, c))
            && (c < |s.calls| && s.calls[c].kind == Connect && !MayPark(s, c) ==> !MayPark(to, c))
  {
    hide Inv, Exec, TimerCancelled, Running, I.Waits;
    if c < |s.calls| { KindStays(s, step, c); }
    match step
    case Begin(f, kind, fd, event, timed, ms) => BeginIs(s, f, kind, fd, event, timed, ms);
    case Return(f) => ReturnIs(s, f);
    case Block(f, works) =>
      BlockIs(s, f, works);
      TriesItsCall(s, f);
    case Take => TakeIs(s);
    case RunTimer(t, works) => RunTimerIs(s, t, works);
    case _ => OtherIs(s, step);
  }

  lemma TriesItsCall(s: State, f: nat)
    requires Inv(s) && f in s.phases && s.phases[f].Trying?
    ensures s.phases[f].call < |s.calls| && s.calls[s.phases[f].call].fiber == f
  {
    hide I.Inv, Agree;
    assert PhaseAgrees(s, f, s.phases[f]);
  }

  lemma {:induction false} KindStaysInRun(s: State, steps: seq<Step>, c: nat)
    requires Inv(s) && Runs(s, steps) && c < |s.calls|
    ensures c < |Run(s, steps).calls| && SameCall(s.calls[c], Run(s, steps).calls[c])
    decreases |steps|
  {
    hide Inv, Enabled, Exec;
    if steps != [] {
      ExecKeepsInv(s, steps[0]);
      KindStays(s, steps[0], c);
      KindStaysInRun(Exec(s, steps[0]), steps[1..], c);
    }
  }

  /** From any state on, a run parks a connect at most once, and not at all if it has parked or ended. */
  lemma {:induction false} ParksAtMost(s: State, steps: seq<Step>, c: nat)
    requires Inv(s) && Runs(s, steps)
    requires c < |Run(s, steps).calls| && Run(s, steps).calls[c].kind == Connect
    ensures ParksIn(s, steps, c) <= if MayPark(s, c) then 1 else 0
    decreases |steps|
  {
    hide Inv, Enabled, Exec, Parks, MayPark;
    if steps != [] {
      var to := Exec(s, steps[0]);
      ExecKeepsInv(s, steps[0]);
      ConnectGoesOn(s, steps[0], c);
      ParksAtMost(to, steps[1..], c);
      if c < |s.calls| { KindStaysInRun(s, steps, c); } else { Unbegun(s, c); }
    }
  }

  lemma Unbegun(s: State, c: nat)
    requires c >= |s.calls|
    ensures MayPark(s, c)
  {
  }

  /** Over every run a connect parks at most once. */
  lemma ConnectParksOnce(steps: seq<Step>, c: nat)
    requires Inv(Fresh()) && Runs(Fresh(), steps)
    requires c < |Run(Fresh(), steps).calls| && Run(Fresh(), steps).calls[c].kind == Connect
    ensures ParksIn(Fresh(), steps, c) <= 1
  {
    ParksAtMost(Fresh(), steps, c);
  }

  /** The step has addEvent fail for the call, a transfer. */
  predicate Fails(s: State, step: Step, c: nat) {
    && step.Block? && !step.works && step.f in s.phases && s.phases[step.f] == Trying(c)
    && c < |s.calls| && s.calls[c].kind == Transfer
  }

  predicate HasFailed(s: State, c: nat) { c < |s.calls| && s.calls[c].outcome == Failed }

  lemma FailsIsExact(s: State, step: Step, c: nat)
    requires Inv(s) && Enabled(s, step)
    ensures HasFailed(Exec(s, step), c) <==> HasFailed(s, c) || Fails(s, step, c)
  {
    hide Inv, Exec, TimerCancelled, Running, I.Waits;
    match step
    case Begin(f, kind, fd, event, timed, ms) =>
      BeginIs(s, f, kind, fd, event, timed, ms);
      if c < |s.calls| { assert s.calls[c] == Exec(s, step).calls[..|s.calls|][c]; }
    case Return(f) =>
      ReturnIs(s, f);
      IsPending(s, f);
    case Block(f, works) =>
      BlockIs(s, f, works);
      IsPending(s, f);
    case Take =>
      TakeIs(s);
      var run := Running(Exec(s, step).io);
      if run.Fiber? { IsPending(s, run.fiber); }
    case RunTimer(t, works) => RunTimerIs(s, t, works);
    case _ => OtherIs(s, step);
  }

  lemma IsPending(s: State, f: nat)
    requires Inv(s) && f in s.phases
    ensures s.phases[f].Trying? || s.phases[f].Parked? ==>
              s.phases[f].call < |s.calls| && s.calls[s.phases[f].call].outcome == Pending
  {
    hide I.Inv, Agree;
    assert PhaseAgrees(s, f, s.phases[f]);
  }

  ghost predicate FailsIn(s: State, steps: seq<Step>, c: nat)
    requires Inv(s) && Runs(s, steps)
    decreases |steps|
  {
    steps != [] &&
    (|| Fails(s, steps[0], c)
     || (ExecKeepsInv(s, steps[0]); FailsIn(Exec(s, steps[0]), steps[1..], c)))
  }

  lemma {:induction false} FailedIn(s: State, steps: seq<Step>, c: nat)
    requires Inv(s) && Runs(s, steps)
    ensures HasFailed(Run(s, steps), c) <==> HasFailed(s, c) || FailsIn(s, steps, c)
    decreases |steps|
  {
    hide Inv, Enabled, Exec, HasFailed, Fails;
    if steps != [] {
      ExecKeepsInv(s, steps[0]);
      FailsIsExact(s, steps[0], c);
      FailedIn(Exec(s, steps[0]), steps[1..], c);
    }
  }

  /** Over every run a call has failed if and only if it is a transfer for which addEvent has failed. */
  lemma FailedIsExact(steps: seq<Step>, c: nat)
    requires Inv(Fresh()) && Runs(Fresh(), steps)
    ensures HasFailed(Run(Fresh(), steps), c) <==> FailsIn(Fresh(), steps, c)
  {
    hide Runs, Run, FailsIn, Inv;
    FailedIn(Fresh(), steps, c);
  }

  lemma {:induction false} WritesFrom(s: State, steps: seq<Step>, c: nat)
    requires Inv(s) && Runs(s, steps)
    requires c < |s.calls| && s.calls[c].kind == Connect ==> s.calls[c].event == I.WRITE
    ensures c < |Run(s, steps).calls| && Run(s, steps).calls[c].kind == Connect ==>
              Run(s, steps).calls[c].event == I.WRITE
    decreases |steps|
  {
    hide Inv, Enabled, Exec;
    if steps != [] {
      ExecKeepsInv(s, steps[0]);
      MadeForWriting(s, steps[0], c);
      WritesFrom(Exec(s, steps[0]), steps[1..], c);
    }
  }

  lemma MadeForWriting(s: State, step: Step, c: nat)
    requires Inv(s) && Enabled(s, step)
    requires c < |s.calls| && s.calls[c].kind == Connect ==> s.calls[c].event == I.WRITE
    ensures c < |Exec(s, step).calls| && Exec(s, step).calls[c].kind == Connect ==>
              Exec(s, step).calls[c].event == I.WRITE
  {
    hide Inv, Exec, GoesOn, TimerCancelled, Running, I.Waits;
    if c < |s.calls| {
      KindStays(s, step, c);
    } else {
      match step
      case Begin(f, kind, fd, event, timed, ms) => BeginIs(s, f, kind, fd, event, timed, ms);
      case Return(f) => ReturnIs(s, f);
      case Block(f, works) => BlockIs(s, f, works);
      case Take => TakeIs(s);
      case RunTimer(t, works) => RunTimerIs(s, t, works);
      case _ => OtherIs(s, step);
    }
  }

  /** Over every run a connect waits until its socket can be written. */
  lemma ConnectWaitsToWrite(steps: seq<Step>, c: nat)
    requires Inv(Fresh()) && Runs(Fresh(), steps)
    requires c < |Run(Fresh(), steps).calls| && Run(Fresh(), steps).calls[c].kind == Connect
    ensures Run(Fresh(), steps).calls[c].event == I.WRITE
  {
    hide Inv, Runs, Run;
    WritesFrom(Fresh(), steps, c);
  }
}
