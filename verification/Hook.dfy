/**
 * Blocking calls of fibers: do_io and connect_with_timeout park the calling fiber on an event, with
 * a timer if the socket has a timeout, and the fiber goes on when the event fires, when the timer
 * cancels the event, or when somebody else does. One worker runs the fibers and the timers'
 * callbacks; the state machine below has a step for everything that happens between two yields.
 */
module HookSpec {
  import S = SchedulerSpec
  import I = IoSpec
  import opened Wrappers

  /** Where a fiber is: queued for the first time, running, inside a call, waiting, or at its end. */
  datatype Phase = New | Outside | Trying(call: nat) | Parked(call: nat, number: nat) | Ended

  datatype Kind = Transfer | Connect

  datatype Outcome = Pending | TimedOut | Failed | Returned

  /**
   * A call and the TimerInfo it shares with its timers. timer is the timer of its last park; lost
   * says that a timer of the call found the event armed but epoll_ctl failed to disarm it.
   */
  datatype Call = Call(
    kind: Kind,
    fiber: nat,
    fd: nat,
    event: I.Event,
    timed: bool,
    to: nat,
    cancelled: bool,
    lost: bool,
    timer: Option<nat>,
    outcome: Outcome)

  /** A timer is in the set, or expired with its callback queued, or over: cancelled or run. */
  datatype TimerState = Set | Queued | Over

  datatype Timer = Timer(call: nat, due: nat, state: TimerState)

  datatype State = State(io: I.Io, phases: map<nat, Phase>, calls: seq<Call>, timers: seq<Timer>, clock: nat)

  /** The only worker. */
  const W := 0

  function Running(io: I.Io): S.Callable {
    if W in io.sched.held then io.sched.held[W].call else S.Empty
  }

  predicate InQueue(queue: seq<S.Task>, call: S.Callable) {
    exists i :: 0 <= i < |queue| && queue[i].call == call
  }

  // ----- What ties the fibers to the queue and the registrations -----

  /** No task is queued twice, and the worker may take each. */
  predicate Plain(queue: seq<S.Task>) {
    && (forall i, j | 0 <= i < j < |queue| :: queue[i].call != queue[j].call)
    && forall i | 0 <= i < |queue| :: queue[i].thread == S.ANY
  }

  /** A fiber is in the queue exactly if it is new or the registration it waits for was scheduled. */
  predicate FiberAgrees(io: I.Io, f: nat, p: Phase) {
    var queued, running := InQueue(io.sched.queue, S.Fiber(f)), Running(io) == S.Fiber(f);
    match p
    case New => queued && !running
    case Outside => running && !queued
    case Trying(_) => running && !queued
    case Ended => !running && !queued
    case Parked(_, n) =>
      !running && n < |io.regs| && io.regs[n].call == S.Fiber(f) && (queued <==> n in io.scheduled)
  }

  /** Whoever waits is parked there. */
  predicate WaiterAgrees(io: I.Io, phases: map<nat, Phase>, n: nat)
    requires n < |io.regs|
  {
    && io.regs[n].call.Fiber? && io.regs[n].call.fiber in phases
    && phases[io.regs[n].call.fiber].Parked? && phases[io.regs[n].call.fiber].number == n
  }

  /** A timer's callback is queued or running exactly if the timer has expired and is not over. */
  predicate TimerAgrees(io: I.Io, t: nat, state: TimerState) {
    var queued, running := InQueue(io.sched.queue, S.Callback(t)), Running(io) == S.Callback(t);
    (queued || running <==> state == Queued) && !(queued && running)
  }

  predicate CallKnown(phases: map<nat, Phase>, timers: seq<Timer>, call: S.Callable) {
    match call
    case Fiber(f) => f in phases
    case Callback(t) => t < |timers|
    case Empty => true
  }

  predicate Agree(io: I.Io, phases: map<nat, Phase>, timers: seq<Timer>) {
    && Plain(io.sched.queue)
    && (forall f | f in phases :: FiberAgrees(io, f, phases[f]))
    && (forall t | 0 <= t < |timers| :: TimerAgrees(io, t, timers[t].state))
    && (forall n | 0 <= n < |io.regs| && I.Waits(io, n) :: WaiterAgrees(io, phases, n))
    && (forall i | 0 <= i < |io.sched.queue| :: CallKnown(phases, timers, io.sched.queue[i].call))
    && CallKnown(phases, timers, Running(io))
  }

  lemma Pushed(queue: seq<S.Task>, task: S.Task)
    ensures forall c :: InQueue(queue + [task], c) <==> InQueue(queue, c) || c == task.call
    ensures Plain(queue) && !InQueue(queue, task.call) && task.thread == S.ANY ==> Plain(queue + [task])
  {
    var q := queue + [task];
    assert q[|queue|] == task;
    forall c
      ensures InQueue(q, c) <==> InQueue(queue, c) || c == task.call
    {
      if InQueue(queue, c) {
        var i :| 0 <= i < |queue| && queue[i].call == c;
        assert q[i].call == c;
      }
    }
  }

  /** An event that fires queues the fiber parked on it, which was not queued before. */
  lemma FireKeepsAgree(io: I.Io, phases: map<nat, Phase>, timers: seq<Timer>, fd: nat, e: I.Event)
    requires I.Core(io) && fd < |io.ctxs| && e in io.ctxs[fd].events && Agree(io, phases, timers)
    ensures Agree(I.Fire(io, fd, e), phases, timers)
  {
    hide I.Fire, I.Core, I.Waits, InQueue, I.Context, Plain;
    var to, n := I.Fire(io, fd, e), I.Context(io.ctxs[fd], e).number;
    I.FireIsExact(io, fd, e);
    assert WaiterAgrees(io, phases, n);
    Pushed(io.sched.queue, S.Task(io.regs[n].call, S.ANY, |io.sched.accepted|));
  }

  /** What the agreement looks at. */
  predicate SameForFibers(io: I.Io, to: I.Io) {
    && to.sched.queue == io.sched.queue && to.sched.held == io.sched.held
    && to.ctxs == io.ctxs && to.regs == io.regs && to.scheduled == io.scheduled
  }

  lemma SameAgree(io: I.Io, to: I.Io, phases: map<nat, Phase>, timers: seq<Timer>)
    requires Agree(io, phases, timers) && SameForFibers(io, to)
    ensures Agree(to, phases, timers)
  {
    hide InQueue;
    I.SameContexts(io, to);
  }

  lemma TriggerAllKeepsAgree(io: I.Io, phases: map<nat, Phase>, timers: seq<Timer>, fd: nat, events: set<I.Event>)
    requires I.Core(io) && fd < |io.ctxs| && events <= io.ctxs[fd].events && Agree(io, phases, timers)
    ensures I.TriggerAll(io, fd, events).Done? && Agree(I.TriggerAll(io, fd, events).io, phases, timers)
  {
    hide I.Fire, I.Core, Agree;
    I.TriggerAllIsExact(io, fd, events);
    if I.READ in events {
      FireKeepsAgree(io, phases, timers, fd, I.READ);
      I.FireKeepsCore(io, fd, I.READ);
      FireEvents(io, fd, I.READ);
    }
    if I.WRITE in events {
      FireKeepsAgree(if I.READ in events then I.Fire(io, fd, I.READ) else io, phases, timers, fd, I.WRITE);
    }
  }

  lemma FireEvents(io: I.Io, fd: nat, e: I.Event)
    requires fd < |io.ctxs|
    ensures var to := I.Fire(io, fd, e);
            |to.ctxs| == |io.ctxs| && to.ctxs[fd].events == io.ctxs[fd].events - {e}
  {
  }

  lemma InEpoll(io: I.Io, epoll: map<nat, set<I.Event>>, phases: map<nat, Phase>, timers: seq<Timer>)
    requires I.Inv(io) && Agree(io, phases, timers)
    ensures I.Core(io.(epoll := epoll)) && Agree(io.(epoll := epoll), phases, timers)
  {
    hide I.Core, Agree;
    I.EpollIsNotCore(io, epoll);
    SameAgree(io, io.(epoll := epoll), phases, timers);
  }

  lemma CancelKeepsAgree(io: I.Io, phases: map<nat, Phase>, timers: seq<Timer>, fd: nat, e: I.Event, works: bool)
    requires I.Inv(io) && Agree(io, phases, timers)
    ensures I.CancelEvent(io, fd, e, works).Done? && Agree(I.CancelEvent(io, fd, e, works).io, phases, timers)
  {
    hide I.Fire, I.Inv, I.CtlLeft, I.Core, Agree;
    if fd < |io.ctxs| && e in io.ctxs[fd].events {
      var epoll := I.CtlLeft(io, fd, io.ctxs[fd].events - {e}, works);
      if epoll.Some? {
        InEpoll(io, epoll.value, phases, timers);
        FireKeepsAgree(io.(epoll := epoll.value), phases, timers, fd, e);
      }
    }
  }

  lemma CancelAllKeepsAgree(io: I.Io, phases: map<nat, Phase>, timers: seq<Timer>, fd: nat, works: bool)
    requires I.Inv(io) && Agree(io, phases, timers)
    ensures I.CancelAll(io, fd, works).Done? && Agree(I.CancelAll(io, fd, works).io, phases, timers)
  {
    hide I.TriggerAll, I.Inv, I.Ctl, I.Core, Agree;
    I.CancelAllIsExact(io, fd, works);
    if fd < |io.ctxs| && io.ctxs[fd].events != {} {
      var epoll := I.Ctl(io.epoll, I.DEL, fd, {}, works);
      if epoll.Some? {
        InEpoll(io, epoll.value, phases, timers);
        TriggerAllKeepsAgree(io.(epoll := epoll.value), phases, timers, fd, io.ctxs[fd].events);
      }
    }
  }

  lemma DeliverKeepsAgree(io: I.Io, phases: map<nat, Phase>, timers: seq<Timer>,
                          fd: nat, flags: set<I.Flag>, works: bool)
    requires I.Inv(io) && Agree(io, phases, timers) && fd < |io.ctxs|
    requires I.Meant(flags, io.ctxs[fd].events) <= io.ctxs[fd].events
    ensures I.Deliver(io, fd, flags, works).Done? && Agree(I.Deliver(io, fd, flags, works).io, phases, timers)
  {
    hide I.TriggerAll, I.Inv, I.CtlLeft, I.Core, I.Meant, Agree;
    I.DeliverIsExact(io, fd, flags, works);
    var armed := io.ctxs[fd].events;
    var meant := I.Meant(flags, armed);
    if armed * meant != {} {
      var epoll := I.CtlLeft(io, fd, armed - meant, works);
      if epoll.Some? {
        InEpoll(io, epoll.value, phases, timers);
        TriggerAllKeepsAgree(io.(epoll := epoll.value), phases, timers, fd, meant);
      }
    }
  }

  lemma {:induction false} ReportsKeepAgree(io: I.Io, phases: map<nat, Phase>, timers: seq<Timer>,
                                            reports: seq<I.Report>)
    requires I.Inv(io) && Agree(io, phases, timers)
    requires forall i | 0 <= i < |reports| :: reports[i].fd < |io.ctxs|
    requires forall i | 0 <= i < |reports| ::
               I.Meant(reports[i].flags, io.ctxs[reports[i].fd].events) <= io.ctxs[reports[i].fd].events
    requires forall i, j | 0 <= i < j < |reports| :: reports[i].fd != reports[j].fd
    ensures I.DeliverEach(io, reports).Done? && Agree(I.DeliverEach(io, reports).io, phases, timers)
    decreases |reports|
  {
    hide I.Inv, I.Deliver, I.Meant, Agree;
    if reports != [] {
      var first := reports[0];
      DeliverKeepsAgree(io, phases, timers, first.fd, first.flags, first.works);
      I.DeliverIsExact(io, first.fd, first.flags, first.works);
      I.DeliverKeepsSize(io, first.fd, first.flags, first.works);
      var r := I.Deliver(io, first.fd, first.flags, first.works);
      I.OthersStay(io, first.fd, r.io);
      assert forall i | 0 <= i < |reports[1..]| :: reports[1..][i] == reports[i + 1];
      ReportsKeepAgree(r.io, phases, timers, reports[1..]);
    }
  }

  // ----- The steps -----

  datatype Step =
    | Spawn(f: nat)
    | Take
    | Begin(f: nat, kind: Kind, fd: nat, event: I.Event, timed: bool, to: nat)
    | Return(f: nat)
    | Block(f: nat, works: bool)
    | End(f: nat)
    | Tick(ms: nat)
    | Expire(t: nat)
    | RunTimer(t: nat, works: bool)
    | Reports(reports: seq<I.Report>)
    | CancelOne(fd: nat, event: I.Event, works: bool)
    | CloseAll(fd: nat, works: bool)
    | Delete(fd: nat, event: I.Event, works: bool)

  function WithSched(io: I.Io, sched: S.State): I.Io { io.(sched := sched) }

  /** A new fiber is scheduled. */
  function DoSpawn(s: State, f: nat): State {
    s.(io := WithSched(s.io, S.DoSchedule(s.io.sched, S.Fiber(f), S.ANY)), phases := s.phases[f := New])
  }

  /** timer->cancel(): it takes a timer out of the set, but comes too late for one that has expired. */
  function CancelTimer(timers: seq<Timer>, timer: Option<nat>): seq<Timer> {
    if timer.Some? && timer.value < |timers| && timers[timer.value].state == Set
    then timers[timer.value := timers[timer.value].(state := Over)]
    else timers
  }

  /** The worker takes a task. A parked fiber goes on after its yield: the timer, then the verdict. */
  function DoTake(s: State): State {
    var io := WithSched(s.io, S.DoTake(s.io.sched, W));
    var t := s.(io := io);
    match Running(io)
    case Fiber(f) =>
      if f !in s.phases then t
      else (match s.phases[f]
            case New => t.(phases := s.phases[f := Outside])
            case Parked(c, _) => if c < |s.calls| then Resumed(t, f, c) else t
            case _ => t)
    case _ => t
  }

  function Resumed(s: State, f: nat, c: nat): State
    requires c < |s.calls|
  {
    var call := s.calls[c];
    var t := s.(timers := CancelTimer(s.timers, call.timer));
    if call.cancelled then EndCall(t, f, c, TimedOut)
    else if call.kind == Connect then EndCall(t, f, c, Returned)
    else t.(phases := t.phases[f := Trying(c)])
  }

  /** The call returns to its fiber. */
  function EndCall(s: State, f: nat, c: nat, outcome: Outcome): State
    requires c < |s.calls|
  {
    s.(calls := s.calls[c := s.calls[c].(outcome := outcome)], phases := s.phases[f := Outside])
  }

  function DoBegin(s: State, f: nat, kind: Kind, fd: nat, event: I.Event, timed: bool, to: nat): State {
    s.(calls := s.calls + [Call(kind, f, fd, event, timed, to, false, false, None, Pending)],
       phases := s.phases[f := Trying(|s.calls|)])
  }

  /** The system call would block: the timer, if the call is timed, the event, and the yield. */
  function DoBlock(s: State, f: nat, c: nat, works: bool): State
    requires c < |s.calls| && |s.io.ctxs| >= 32 && W in s.io.sched.held && s.io.sched.active > 0
  {
    var call := s.calls[c];
    var r := I.AddEvent(s.io, call.fd, call.event, None, f, works);
    if r == I.Aborted then s
    else
      var timer := if call.timed then Some(|s.timers|) else None;
      var made := Timer(c, s.clock + call.to, if r.ok then Set else Over);
      var timers := if call.timed then s.timers + [made] else s.timers;
      var t := s.(timers := timers, calls := s.calls[c := call.(timer := timer)]);
      if !r.ok then EndCall(t.(io := r.io), f, c, if call.kind == Connect then Returned else Failed)
      else t.(io := WithSched(r.io, S.DoFinish(s.io.sched, W)), phases := s.phases[f := Parked(c, |s.io.regs|)])
  }

  /** listExpiredCb hands the callback of a due timer to the scheduler. */
  function DoExpire(s: State, t: nat): State
    requires t < |s.timers|
  {
    s.(timers := s.timers[t := s.timers[t].(state := Queued)],
       io := WithSched(s.io, S.DoSchedule(s.io.sched, S.Callback(t), S.ANY)))
  }

  /** The timer's callback: unless the call is over or cancelled already, it marks it and cancels its event. */
  function DoRunTimer(s: State, t: nat, works: bool): State
    requires t < |s.timers| && s.timers[t].call < |s.calls| && W in s.io.sched.held && s.io.sched.active > 0
  {
    var c := s.timers[t].call;
    var call := s.calls[c];
    var over := s.timers[t := s.timers[t].(state := Over)];
    if call.outcome != Pending || call.cancelled then
      s.(timers := over, io := WithSched(s.io, S.DoFinish(s.io.sched, W)))
    else
      var r := I.CancelEvent(s.io, call.fd, call.event, works);
      var lost := call.fd < |s.io.ctxs| && call.event in s.io.ctxs[call.fd].events && !works;
      CancelKeepsHeld(s.io, call.fd, call.event, works);
      if r == I.Aborted then s
      else State(WithSched(r.io, S.DoFinish(r.io.sched, W)), s.phases,
                 s.calls[c := call.(cancelled := true, lost := lost)], over, s.clock)
  }

  lemma CancelKeepsHeld(io: I.Io, fd: nat, e: I.Event, works: bool)
    ensures var r := I.CancelEvent(io, fd, e, works);
            r.Done? ==> r.io.sched.held == io.sched.held && r.io.sched.active == io.sched.active
  {
    hide I.CtlLeft;
  }

  // ----- The invariant -----

  /** A fiber inside a call is the one that made it; a parked one has the timer of this park. */
  predicate PhaseAgrees(s: State, f: nat, p: Phase) {
    match p
    case Trying(c) =>
      c < |s.calls| && s.calls[c].fiber == f && s.calls[c].outcome == Pending && !s.calls[c].cancelled
    case Parked(c, n) =>
      && c < |s.calls| && s.calls[c].fiber == f && s.calls[c].outcome == Pending
      && (s.calls[c].timed <==> s.calls[c].timer.Some?)
      && (s.calls[c].timed ==> ParkTimer(s, c, s.calls[c].timer.value))
      && n < |s.io.regs| && s.io.regs[n] == I.Registration(s.calls[c].fd, s.calls[c].event, S.Fiber(f))
      && (s.calls[c].cancelled && I.Waits(s.io, n) ==> s.calls[c].lost)
    case _ => true
  }

  /** The timer of the park has not run, or it has cancelled the call. */
  predicate ParkTimer(s: State, c: nat, t: nat)
    requires c < |s.calls|
  {
    t < |s.timers| && s.timers[t].call == c && (s.timers[t].state == Over ==> s.calls[c].cancelled)
  }

  /** A call in progress has its fiber inside; one that is over timed out exactly if it was cancelled. */
  predicate CallAgrees(s: State, c: nat)
    requires c < |s.calls|
  {
    var call := s.calls[c];
    if call.outcome == Pending then
      && call.fiber in s.phases
      && (s.phases[call.fiber] == Trying(c) || (s.phases[call.fiber].Parked? && s.phases[call.fiber].call == c))
    else call.outcome == TimedOut <==> call.cancelled
  }

  /** Timers are for timed calls; one in the set belongs to a fiber that is parked, and is the timer of that park. */
  predicate TimerOwned(s: State, t: nat)
    requires t < |s.timers|
  {
    var c := s.timers[t].call;
    c < |s.calls| && s.calls[c].timed &&
    (s.timers[t].state == Set ==>
       && s.calls[c].outcome == Pending && s.calls[c].timer == Some(t)
       && s.calls[c].fiber in s.phases && s.phases[s.calls[c].fiber].Parked?)
    && (s.timers[t].state == Queued ==> s.timers[t].due <= s.clock)
  }

  predicate OneWorker(io: I.Io) { forall w | w in io.sched.held :: w == W }

  predicate CallsAgree(s: State) {
    && (forall f | f in s.phases :: PhaseAgrees(s, f, s.phases[f]))
    && (forall c | 0 <= c < |s.calls| :: CallAgrees(s, c))
    && forall t | 0 <= t < |s.timers| :: TimerOwned(s, t)
  }

  ghost predicate Inv(s: State) {
    I.Inv(s.io) && OneWorker(s.io) && Agree(s.io, s.phases, s.timers) && CallsAgree(s)
  }

  ghost predicate Enabled(s: State, step: Step) {
    match step
    case Spawn(f) => f !in s.phases
    case Take => W !in s.io.sched.held
    case Begin(f, kind, _, event, _, _) =>
      Running(s.io) == S.Fiber(f) && f in s.phases && s.phases[f] == Outside && (kind == Connect ==> event == I.WRITE)
    case Return(f) => Running(s.io) == S.Fiber(f) && f in s.phases && s.phases[f].Trying?
    case Block(f, _) =>
      Running(s.io) == S.Fiber(f) && f in s.phases && s.phases[f].Trying? && s.phases[f].call < |s.calls|
      && var call := s.calls[s.phases[f].call];
      (call.fd < |s.io.ctxs| ==> call.event !in s.io.ctxs[call.fd].events)
    case End(f) => Running(s.io) == S.Fiber(f) && f in s.phases && s.phases[f] == Outside
    case Expire(t) => t < |s.timers| && s.timers[t].state == Set && s.timers[t].due <= s.clock
    case RunTimer(t, _) => Running(s.io) == S.Callback(t)
    case Reports(reports) => I.Enabled(s.io, I.Wait(reports))
    case _ => true
  }

  lemma BusyIsCounted(s: State)
    requires Inv(s) && Running(s.io) != S.Empty
    ensures W in s.io.sched.held && s.io.sched.active > 0 && |s.io.ctxs| >= 32
  {
    hide Agree, CallsAgree;
    S.FinishCounted(s.io.sched, W);
  }

  ghost function Exec(s: State, step: Step): State
    requires Inv(s) && Enabled(s, step)
  {
    hide I.Inv, Agree, CallsAgree, S.DoTake, I.DeliverEach;
    match step
    case Spawn(f) => DoSpawn(s, f)
    case Take => DoTake(s)
    case Begin(f, kind, fd, event, timed, to) => DoBegin(s, f, kind, fd, event, timed, to)
    case Return(f) => ReturnKnown(s, f); EndCall(s, f, s.phases[f].call, Returned)
    case Block(f, works) => BusyIsCounted(s); DoBlock(s, f, s.phases[f].call, works)
    case End(f) =>
      BusyIsCounted(s);
      s.(io := WithSched(s.io, S.DoFinish(s.io.sched, W)), phases := s.phases[f := Ended])
    case Tick(ms) => s.(clock := s.clock + ms)
    case Expire(t) => DoExpire(s, t)
    case RunTimer(t, works) => BusyIsCounted(s); TimerKnown(s, t); DoRunTimer(s, t, works)
    case Reports(reports) => I.WaitKeepsInv(s.io, reports); s.(io := I.DeliverEach(s.io, reports).io)
    case CancelOne(fd, event, works) =>
      I.CancelIsExact(s.io, fd, event, works);
      s.(io := I.CancelEvent(s.io, fd, event, works).io)
    case CloseAll(fd, works) => I.CancelAllIsExact(s.io, fd, works); s.(io := I.CancelAll(s.io, fd, works).io)
    case Delete(fd, event, works) =>
      I.DelIsExact(s.io, fd, event, works);
      s.(io := I.DelEvent(s.io, fd, event, works).io)
  }

  lemma ReturnKnown(s: State, f: nat)
    requires Inv(s) && f in s.phases && s.phases[f].Trying?
    ensures s.phases[f].call < |s.calls|
  {
    hide Agree;
    assert PhaseAgrees(s, f, s.phases[f]);
  }

  lemma TimerKnown(s: State, t: nat)
    requires Inv(s) && Running(s.io) == S.Callback(t)
    ensures t < |s.timers| && s.timers[t].call < |s.calls| && s.timers[t].state == Queued
  {
    assert TimerOwned(s, t);
    assert TimerAgrees(s.io, t, s.timers[t].state);
  }

  // ----- Steps of the manager -----

  /** Nobody starts to wait, and the worker goes on with what it does. */
  predicate Shrinks(io: I.Io, to: I.Io) {
    && to.regs == io.regs && to.sched.held == io.sched.held
    && forall n | 0 <= n < |io.regs| && I.Waits(to, n) :: I.Waits(io, n)
  }

  lemma FiredShrinks(io: I.Io, fd: nat, events: set<I.Event>, to: I.Io)
    requires I.FiredAll(io, fd, events, to)
    ensures Shrinks(io, to)
  {
    hide I.Waits;
  }

  lemma ShrinksKeepsInv(s: State, io: I.Io)
    requires Inv(s) && I.Inv(io) && Agree(io, s.phases, s.timers) && Shrinks(s.io, io)
    ensures Inv(s.(io := io))
  {
    hide I.Inv, Agree, I.Waits;
    var to := s.(io := io);
    forall f | f in to.phases
      ensures PhaseAgrees(to, f, to.phases[f])
    {
      assert PhaseAgrees(s, f, s.phases[f]);
    }
    assert forall c | 0 <= c < |s.calls| :: CallAgrees(s, c) ==> CallAgrees(to, c);
    assert forall t | 0 <= t < |s.timers| :: TimerOwned(s, t) ==> TimerOwned(to, t);
  }

  lemma {:induction false} ReportsShrink(io: I.Io, reports: seq<I.Report>)
    requires I.Inv(io)
    requires forall i | 0 <= i < |reports| :: reports[i].fd < |io.ctxs|
    ensures I.DeliverEach(io, reports).Done? ==> Shrinks(io, I.DeliverEach(io, reports).io)
    decreases |reports|
  {
    hide I.Inv, I.Deliver, I.Meant, I.Waits, I.FiredAll;
    if reports != [] {
      var first := reports[0];
      I.DeliverIsExact(io, first.fd, first.flags, first.works);
      var r := I.Deliver(io, first.fd, first.flags, first.works);
      if r.Done? {
        I.DeliverKeepsSize(io, first.fd, first.flags, first.works);
        if r.ok { FiredShrinks(io, first.fd, I.Meant(first.flags, io.ctxs[first.fd].events), r.io); }
        ReportsShrink(r.io, reports[1..]);
      }
    }
  }

  lemma ReportsKeepInv(s: State, reports: seq<I.Report>)
    requires Inv(s) && Enabled(s, Reports(reports))
    ensures Inv(Exec(s, Reports(reports)))
  {
    hide I.Inv, Agree, CallsAgree, I.Deliver, I.Meant, I.Honest, I.DeliverEach, Shrinks;
    I.ArmedReports(s.io, reports);
    I.WaitKeepsInv(s.io, reports);
    ReportsShrink(s.io, reports);
    ReportsKeepAgree(s.io, s.phases, s.timers, reports);
    ShrinksKeepsInv(s, I.DeliverEach(s.io, reports).io);
  }

  lemma SameShrinks(io: I.Io)
    ensures Shrinks(io, io)
  {
  }

  lemma CancelOneKeepsInv(s: State, fd: nat, e: I.Event, works: bool)
    requires Inv(s)
    ensures I.CancelEvent(s.io, fd, e, works).Done? && Inv(s.(io := I.CancelEvent(s.io, fd, e, works).io))
    ensures Shrinks(s.io, I.CancelEvent(s.io, fd, e, works).io)
  {
    hide I.Inv, Agree, CallsAgree, I.CancelEvent, Shrinks, I.FiredAll;
    I.CancelIsExact(s.io, fd, e, works);
    CancelKeepsAgree(s.io, s.phases, s.timers, fd, e, works);
    var r := I.CancelEvent(s.io, fd, e, works);
    SameShrinks(s.io);
    if r.ok { FiredShrinks(s.io, fd, {e}, r.io); }
    ShrinksKeepsInv(s, r.io);
  }

  lemma CloseAllKeepsInv(s: State, fd: nat, works: bool)
    requires Inv(s)
    ensures I.CancelAll(s.io, fd, works).Done? && Inv(s.(io := I.CancelAll(s.io, fd, works).io))
  {
    hide I.Inv, Agree, CallsAgree, I.CancelAll, Shrinks, I.FiredAll;
    I.CancelAllIsExact(s.io, fd, works);
    CancelAllKeepsAgree(s.io, s.phases, s.timers, fd, works);
    var r := I.CancelAll(s.io, fd, works);
    SameShrinks(s.io);
    if r.ok { FiredShrinks(s.io, fd, {I.READ, I.WRITE}, r.io); }
    ShrinksKeepsInv(s, r.io);
  }

  /** Who is deleted stays parked, without anybody left to wake it. */
  lemma DeletedAgrees(io: I.Io, to: I.Io, phases: map<nat, Phase>, timers: seq<Timer>)
    requires Agree(io, phases, timers) && Shrinks(io, to)
    requires to.sched == io.sched && to.scheduled == io.scheduled
    ensures Agree(to, phases, timers)
  {
    hide InQueue, I.Waits, Plain;
    forall f | f in phases
      ensures FiberAgrees(to, f, phases[f])
    {
      assert FiberAgrees(io, f, phases[f]);
    }
    assert forall t | 0 <= t < |timers| :: TimerAgrees(io, t, timers[t].state) ==> TimerAgrees(to, t, timers[t].state);
    assert forall n | 0 <= n < |io.regs| && I.Waits(to, n) :: WaiterAgrees(io, phases, n);
  }

  lemma DeleteShrinks(io: I.Io, fd: nat, e: I.Event)
    requires I.Inv(io) && fd < |io.ctxs| && e in io.ctxs[fd].events
    ensures Shrinks(io, I.Deleted(io, fd, e))
  {
    hide I.Waits, I.Context, I.Disarmed;
    I.InvNumbers(io);
    var to := I.Deleted(io, fd, e);
    I.DisarmKeepsContexts(io, fd, e, to.ctxs);
    I.SameContexts(io.(ctxs := to.ctxs), to);
  }

  lemma DeleteKeepsInv(s: State, fd: nat, e: I.Event, works: bool)
    requires Inv(s)
    ensures I.DelEvent(s.io, fd, e, works).Done? && Inv(s.(io := I.DelEvent(s.io, fd, e, works).io))
  {
    hide I.Inv, Agree, CallsAgree, I.DelEvent, I.Waits;
    I.DelIsExact(s.io, fd, e, works);
    var r := I.DelEvent(s.io, fd, e, works);
    SameShrinks(s.io);
    if r.ok {
      DeleteShrinks(s.io, fd, e);
      I.SameContexts(I.Deleted(s.io, fd, e), r.io);
    }
    DeletedAgrees(s.io, r.io, s.phases, s.timers);
    ShrinksKeepsInv(s, r.io);
  }

  // ----- Steps of the fibers -----

  lemma SchedKeepsInv(io: I.Io, step: S.Step)
    requires I.Inv(io) && S.Enabled(io.sched, step)
    ensures S.Inv(io.sched) && I.Inv(WithSched(io, S.Exec(io.sched, step)))
    ensures forall n | 0 <= n < |io.regs| :: I.Waits(WithSched(io, S.Exec(io.sched, step)), n) <==> I.Waits(io, n)
  {
    hide S.Inv, S.Exec, S.Enabled, I.Waits, I.Inv;
    I.BelowIsValid(io);
    I.BelowKeepsInv(io, step);
    I.SameContexts(io, WithSched(io, S.Exec(io.sched, step)));
  }

  /** Queueing a call that is neither queued nor running. */
  lemma QueueKeepsInv(io: I.Io, call: S.Callable)
    requires I.Inv(io) && call != S.Empty
    ensures var to := WithSched(io, S.DoSchedule(io.sched, call, S.ANY));
            && I.Inv(to) && (forall n | 0 <= n < |io.regs| :: I.Waits(to, n) <==> I.Waits(io, n))
            && (forall c :: InQueue(to.sched.queue, c) <==> InQueue(io.sched.queue, c) || c == call)
            && (Plain(io.sched.queue) && !InQueue(io.sched.queue, call) ==> Plain(to.sched.queue))
            && to.sched.held == io.sched.held
            && to.sched.queue == io.sched.queue + [S.Task(call, S.ANY, |io.sched.accepted|)]
  {
    hide I.Inv, I.Waits, InQueue, S.Inv, Plain;
    SchedKeepsInv(io, S.Schedule(S.Outside, call, S.ANY));
    Pushed(io.sched.queue, S.Task(call, S.ANY, |io.sched.accepted|));
  }

  lemma SpawnKeepsAgree(s: State, f: nat)
    requires Inv(s) && f !in s.phases
    ensures Agree(DoSpawn(s, f).io, DoSpawn(s, f).phases, s.timers) && I.Inv(DoSpawn(s, f).io)
  {
    hide I.Inv, I.Waits, InQueue, Plain, CallsAgree, S.DoSchedule;
    var to := DoSpawn(s, f);
    QueueKeepsInv(s.io, S.Fiber(f));
    QueuedIsKnown(s.io, s.phases, s.timers, S.Fiber(f));
    forall g | g in to.phases
      ensures FiberAgrees(to.io, g, to.phases[g])
    {
      assert g != f ==> FiberAgrees(s.io, g, s.phases[g]);
    }
    forall t | 0 <= t < |s.timers|
      ensures TimerAgrees(to.io, t, s.timers[t].state)
    {
      assert TimerAgrees(s.io, t, s.timers[t].state);
    }
    forall n | 0 <= n < |s.io.regs| && I.Waits(to.io, n)
      ensures WaiterAgrees(to.io, to.phases, n)
    {
      assert WaiterAgrees(s.io, s.phases, n);
    }
  }

  /** What is queued or running is known. */
  lemma QueuedIsKnown(io: I.Io, phases: map<nat, Phase>, timers: seq<Timer>, call: S.Callable)
    requires Agree(io, phases, timers)
    ensures InQueue(io.sched.queue, call) ==> CallKnown(phases, timers, call)
    ensures Running(io) == call ==> CallKnown(phases, timers, call)
  {
    hide Plain, FiberAgrees, TimerAgrees, WaiterAgrees, I.Waits, CallKnown;
    if InQueue(io.sched.queue, call) {
      var i :| 0 <= i < |io.sched.queue| && io.sched.queue[i].call == call;
      assert CallKnown(phases, timers, io.sched.queue[i].call);
    }
  }

  lemma SpawnKeepsInv(s: State, f: nat)
    requires Inv(s) && f !in s.phases
    ensures Inv(DoSpawn(s, f))
  {
    hide I.Inv, Agree, I.Waits;
    SpawnKeepsAgree(s, f);
    QueueKeepsInv(s.io, S.Fiber(f));
    var to := DoSpawn(s, f);
    forall g | g in to.phases
      ensures PhaseAgrees(to, g, to.phases[g])
    {
      assert g != f ==> PhaseAgrees(s, g, s.phases[g]);
    }
    forall c | 0 <= c < |s.calls|
      ensures CallAgrees(to, c)
    {
      assert CallAgrees(s, c);
    }
    forall t | 0 <= t < |s.timers|
      ensures TimerOwned(to, t)
    {
      assert TimerOwned(s, t);
    }
  }

  lemma Dequeued(queue: seq<S.Task>, k: nat)
    requires Plain(queue) && k < |queue|
    ensures var q := queue[..k] + queue[k + 1..];
            && Plain(q)
            && (forall c :: InQueue(q, c) <==> InQueue(queue, c) && c != queue[k].call)
            && forall i | 0 <= i < |q| :: InQueue(queue, q[i].call)
  {
    var q := queue[..k] + queue[k + 1..];
    assert forall i | 0 <= i < |q| :: q[i] == queue[if i < k then i else i + 1];
    forall c
      ensures InQueue(q, c) <==> InQueue(queue, c) && c != queue[k].call
    {
      if InQueue(queue, c) && c != queue[k].call {
        var i :| 0 <= i < |queue| && queue[i].call == c;
        assert q[if i < k then i else i - 1].call == c;
      }
    }
  }

  /** The worker found a task: it runs, and nothing else about the queue has changed. */
  ghost predicate Took(io: I.Io, to: I.Io, call: S.Callable) {
    && InQueue(io.sched.queue, call) && Running(to) == call
    && (forall c :: InQueue(to.sched.queue, c) <==> InQueue(io.sched.queue, c) && c != call)
    && Plain(to.sched.queue)
    && (forall i | 0 <= i < |to.sched.queue| :: InQueue(to.sched.queue, to.sched.queue[i].call))
    && to.regs == io.regs && to.scheduled == io.scheduled
    && forall n | 0 <= n < |io.regs| :: I.Waits(to, n) <==> I.Waits(io, n)
  }

  lemma TakeIsExact(io: I.Io, phases: map<nat, Phase>, timers: seq<Timer>)
    requires I.Inv(io) && OneWorker(io) && W !in io.sched.held && Agree(io, phases, timers)
    ensures var to := WithSched(io, S.DoTake(io.sched, W));
            && I.Inv(to) && OneWorker(to)
            && (to.sched.held == io.sched.held ==> SameForFibers(io, to))
            && (to.sched.held != io.sched.held ==> Took(io, to, Running(to)))
  {
    hide I.Inv, I.Waits, InQueue, Plain, FiberAgrees, TimerAgrees, CallKnown, WaiterAgrees, S.DoTake, S.Inv;
    SchedKeepsInv(io, S.Take(W));
    Picked(io.sched);
    var k := S.Pick(io.sched.queue, W);
    if k < |io.sched.queue| {
      Dequeued(io.sched.queue, k);
      Members(io.sched.queue);
      Members(io.sched.queue[..k] + io.sched.queue[k + 1..]);
    }
  }

  lemma Picked(sched: S.State)
    requires W !in sched.held
    ensures var k, to := S.Pick(sched.queue, W), S.DoTake(sched, W);
            if k < |sched.queue| then
              && to.queue == sched.queue[..k] + sched.queue[k + 1..] && to.held == sched.held[W := sched.queue[k]]
              && to.held != sched.held
            else to.queue == sched.queue && to.held == sched.held
  {
  }

  lemma Members(queue: seq<S.Task>)
    ensures forall i | 0 <= i < |queue| :: InQueue(queue, queue[i].call)
  {
  }

  /** A fiber that is taken was new or parked on a registration that was scheduled: it is ready to run. */
  lemma TakenIsReady(io: I.Io, to: I.Io, phases: map<nat, Phase>, timers: seq<Timer>, f: nat)
    requires Agree(io, phases, timers) && Took(io, to, S.Fiber(f))
    ensures f in phases
    ensures phases[f] == New || (phases[f].Parked? && phases[f].number in io.scheduled)
    ensures !InQueue(to.sched.queue, S.Fiber(f))
  {
    hide Plain, InQueue, I.Waits, TimerAgrees, WaiterAgrees;
    QueuedIsKnown(io, phases, timers, S.Fiber(f));
    assert FiberAgrees(io, f, phases[f]);
  }

  /** Taking a fiber's task while nothing ran: the fiber is the one that runs. */
  lemma TookFiberAgrees(io: I.Io, to: I.Io, phases: map<nat, Phase>, timers: seq<Timer>, f: nat, p: Phase)
    requires Agree(io, phases, timers) && Took(io, to, S.Fiber(f)) && Running(io) == S.Empty && I.Core(io)
    requires p == Outside || p.Trying?
    ensures Agree(to, phases[f := p], timers)
  {
    hide I.Waits, InQueue, Plain, I.Core;
    TakenIsReady(io, to, phases, timers, f);
    var phases' := phases[f := p];
    forall g | g in phases'
      ensures FiberAgrees(to, g, phases'[g])
    {
      assert g != f ==> FiberAgrees(io, g, phases[g]);
    }
    forall t | 0 <= t < |timers|
      ensures TimerAgrees(to, t, timers[t].state)
    {
      assert TimerAgrees(io, t, timers[t].state);
    }
    forall n | 0 <= n < |to.regs| && I.Waits(to, n)
      ensures WaiterAgrees(to, phases', n)
    {
      assert WaiterAgrees(io, phases, n);
      ScheduledDoesNotWait(io, n);
    }
    forall i | 0 <= i < |to.sched.queue|
      ensures CallKnown(phases', timers, to.sched.queue[i].call)
    {
      QueuedIsKnown(io, phases, timers, to.sched.queue[i].call);
    }
  }

  lemma ScheduledDoesNotWait(io: I.Io, n: nat)
    requires I.Core(io) && n < |io.regs| && I.Waits(io, n)
    ensures n !in io.scheduled
  {
    hide I.Waits, I.ContextsOk, I.Balanced, I.Woken, S.Inv;
  }

  lemma TookTimerAgrees(io: I.Io, to: I.Io, phases: map<nat, Phase>, timers: seq<Timer>)
    requires Agree(io, phases, timers) && Took(io, to, Running(to)) && !Running(to).Fiber? && Running(io) == S.Empty
    ensures Agree(to, phases, timers)
  {
    hide I.Waits, InQueue, Plain;
    forall g | g in phases
      ensures FiberAgrees(to, g, phases[g])
    {
      assert FiberAgrees(io, g, phases[g]);
    }
    forall t | 0 <= t < |timers|
      ensures TimerAgrees(to, t, timers[t].state)
    {
      assert TimerAgrees(io, t, timers[t].state);
    }
    forall n | 0 <= n < |to.regs| && I.Waits(to, n)
      ensures WaiterAgrees(to, phases, n)
    {
      assert WaiterAgrees(io, phases, n);
    }
    forall i | 0 <= i < |to.sched.queue|
      ensures CallKnown(phases, timers, to.sched.queue[i].call)
    {
      QueuedIsKnown(io, phases, timers, to.sched.queue[i].call);
    }
    QueuedIsKnown(io, phases, timers, Running(to));
  }

  /** The calls' side looks at the registrations and at who waits. */
  lemma SameCalls(s: State, io: I.Io)
    requires CallsAgree(s) && io.regs == s.io.regs
    requires forall n | 0 <= n < |io.regs| && I.Waits(io, n) :: I.Waits(s.io, n)
    ensures CallsAgree(s.(io := io))
  {
    hide I.Waits;
    var to := s.(io := io);
    forall f | f in to.phases
      ensures PhaseAgrees(to, f, to.phases[f])
    {
      assert PhaseAgrees(s, f, s.phases[f]);
    }
    assert forall c | 0 <= c < |s.calls| :: CallAgrees(s, c) ==> CallAgrees(to, c);
    assert forall t | 0 <= t < |s.timers| :: TimerOwned(s, t) ==> TimerOwned(to, t);
  }

  /** A fiber that was in no call comes into none. */
  lemma NewKeepsCalls(s: State, f: nat, p: Phase)
    requires CallsAgree(s) && f in s.phases && !s.phases[f].Trying? && !s.phases[f].Parked?
    requires !p.Trying? && !p.Parked?
    ensures CallsAgree(s.(phases := s.phases[f := p]))
  {
    hide I.Waits;
    var to := s.(phases := s.phases[f := p]);
    forall g | g in to.phases
      ensures PhaseAgrees(to, g, to.phases[g])
    {
      assert PhaseAgrees(s, g, s.phases[g]);
    }
    forall c | 0 <= c < |s.calls|
      ensures CallAgrees(to, c)
    {
      assert CallAgrees(s, c);
    }
    forall t | 0 <= t < |s.timers|
      ensures TimerOwned(to, t)
    {
      assert TimerOwned(s, t);
      assert CallAgrees(s, s.timers[t].call);
    }
  }

  /** Going on after the yield. */
  lemma ResumedPhases(s: State, f: nat, c: nat, n: nat)
    requires CallsAgree(s) && f in s.phases && s.phases[f] == Parked(c, n) && c < |s.calls|
    ensures var to := Resumed(s, f, c);
            forall g | g in to.phases :: PhaseAgrees(to, g, to.phases[g])
  {
    hide I.Waits, CallAgrees, TimerOwned;
    var to := Resumed(s, f, c);
    assert PhaseAgrees(s, f, s.phases[f]);
    forall g | g in to.phases
      ensures PhaseAgrees(to, g, to.phases[g])
    {
      assert PhaseAgrees(s, g, s.phases[g]);
    }
  }

  lemma ResumedKeepsCalls(s: State, f: nat, c: nat, n: nat)
    requires CallsAgree(s) && f in s.phases && s.phases[f] == Parked(c, n) && c < |s.calls|
    ensures CallsAgree(Resumed(s, f, c))
  {
    hide I.Waits;
    var to := Resumed(s, f, c);
    ResumedPhases(s, f, c, n);
    assert PhaseAgrees(s, f, s.phases[f]);
    forall d | 0 <= d < |to.calls|
      ensures CallAgrees(to, d)
    {
      assert CallAgrees(s, d);
    }
    forall t | 0 <= t < |to.timers|
      ensures TimerOwned(to, t)
    {
      assert TimerOwned(s, t);
      assert CallAgrees(s, s.timers[t].call);
    }
  }

  lemma ResumedTimers(io: I.Io, phases: map<nat, Phase>, timers: seq<Timer>, timer: Option<nat>)
    requires Agree(io, phases, timers)
    ensures Agree(io, phases, CancelTimer(timers, timer))
  {
    hide I.Waits, InQueue, Plain;
    var to := CancelTimer(timers, timer);
    forall t | 0 <= t < |to|
      ensures TimerAgrees(io, t, to[t].state)
    {
      assert TimerAgrees(io, t, timers[t].state);
    }
    assert forall c :: CallKnown(phases, timers, c) ==> CallKnown(phases, to, c);
  }

  lemma TakeKeepsInv(s: State)
    requires Inv(s) && W !in s.io.sched.held
    ensures Inv(DoTake(s))
  {
    hide I.Inv, I.Waits, Agree, CallsAgree, S.DoTake, Resumed, Took, SameForFibers;
    var io := WithSched(s.io, S.DoTake(s.io.sched, W));
    TakeIsExact(s.io, s.phases, s.timers);
    InvIsCore(s.io);
    if io.sched.held == s.io.sched.held {
      SameAgree(s.io, io, s.phases, s.timers);
      SameForCalls(s, io);
    } else {
      TookForCalls(s, io);
      if Running(io).Fiber? {
        var f := Running(io).fiber;
        TakenIsReady(s.io, io, s.phases, s.timers, f);
        if s.phases[f].Parked? { ParkedCall(s, f); }
        TakenFiberKeepsInv(s, io, f);
      } else {
        TookTimerAgrees(s.io, io, s.phases, s.timers);
      }
    }
  }

  lemma ParkedCall(s: State, f: nat)
    requires CallsAgree(s) && f in s.phases && s.phases[f].Parked?
    ensures s.phases[f].call < |s.calls|
  {
    assert PhaseAgrees(s, f, s.phases[f]);
  }

  lemma InvIsCore(io: I.Io)
    requires I.Inv(io)
    ensures I.Core(io)
  {
  }

  lemma SameForCalls(s: State, io: I.Io)
    requires CallsAgree(s) && SameForFibers(s.io, io)
    ensures CallsAgree(s.(io := io))
  {
    hide CallsAgree, I.Waits;
    I.SameContexts(s.io, io);
    SameCalls(s, io);
  }

  lemma TookForCalls(s: State, io: I.Io)
    requires CallsAgree(s) && Took(s.io, io, Running(io))
    ensures CallsAgree(s.(io := io))
  {
    hide CallsAgree, I.Waits;
    SameCalls(s, io);
  }

  lemma TakenFiberKeepsInv(s: State, io: I.Io, f: nat)
    requires Inv(s) && I.Inv(io) && OneWorker(io) && CallsAgree(s.(io := io)) && Took(s.io, io, S.Fiber(f))
    requires Running(s.io) == S.Empty && f in s.phases && (s.phases[f] == New || s.phases[f].Parked?)
    requires s.phases[f].Parked? ==> s.phases[f].call < |s.calls|
    ensures s.phases[f] == New ==> Inv(s.(io := io, phases := s.phases[f := Outside]))
    ensures s.phases[f].Parked? ==> Inv(Resumed(s.(io := io), f, s.phases[f].call))
  {
    hide I.Inv, I.Waits, Agree, CallsAgree, Took, I.Core;
    InvIsCore(s.io);
    if s.phases[f] == New {
      TookFiberAgrees(s.io, io, s.phases, s.timers, f, Outside);
      NewKeepsCalls(s.(io := io), f, Outside);
    } else {
      var c := s.phases[f].call;
      var to := Resumed(s.(io := io), f, c);
      ResumedKeepsCalls(s.(io := io), f, c, s.phases[f].number);
      TookFiberAgrees(s.io, io, s.phases, s.timers, f, to.phases[f]);
      ResumedTimers(io, to.phases, s.timers, s.calls[c].timer);
    }
  }

  /** The end of a task: nothing runs, and nothing else has changed. */
  predicate Idle(io: I.Io, to: I.Io) {
    && to.sched.queue == io.sched.queue && Running(to) == S.Empty && OneWorker(to)
    && to.regs == io.regs && to.scheduled == io.scheduled
    && forall n | 0 <= n < |io.regs| :: I.Waits(to, n) <==> I.Waits(io, n)
  }

  lemma FinishIsExact(io: I.Io)
    requires I.Inv(io) && OneWorker(io) && W in io.sched.held && io.sched.active > 0
    ensures var to := WithSched(io, S.DoFinish(io.sched, W));
            I.Inv(to) && Idle(io, to)
  {
    hide I.Inv, I.Waits, S.Inv;
    SchedKeepsInv(io, S.Finish(W));
  }

  /** Between two yields a fiber may enter and leave calls without anybody noticing. */
  lemma InsideKeepsAgree(io: I.Io, phases: map<nat, Phase>, timers: seq<Timer>, f: nat, p: Phase)
    requires Agree(io, phases, timers) && f in phases && Inside(phases[f]) && Inside(p)
    ensures Agree(io, phases[f := p], timers)
  {
    hide I.Waits, InQueue, Plain;
    forall g | g in phases
      ensures FiberAgrees(io, g, phases[f := p][g])
    {
      assert FiberAgrees(io, g, phases[g]);
    }
    forall n | 0 <= n < |io.regs| && I.Waits(io, n)
      ensures WaiterAgrees(io, phases[f := p], n)
    {
      assert WaiterAgrees(io, phases, n);
    }
    assert forall c :: CallKnown(phases, timers, c) ==> CallKnown(phases[f := p], timers, c);
  }

  predicate Inside(p: Phase) { p == Outside || p.Trying? }

  lemma BeginKeepsInv(s: State, f: nat, kind: Kind, fd: nat, event: I.Event, timed: bool, to: nat)
    requires Inv(s) && f in s.phases && s.phases[f] == Outside
    ensures Inv(DoBegin(s, f, kind, fd, event, timed, to))
  {
    hide I.Inv, I.Waits, Agree;
    var t := DoBegin(s, f, kind, fd, event, timed, to);
    InsideKeepsAgree(s.io, s.phases, s.timers, f, Trying(|s.calls|));
    forall g | g in t.phases
      ensures PhaseAgrees(t, g, t.phases[g])
    {
      assert PhaseAgrees(s, g, s.phases[g]);
    }
    forall c | 0 <= c < |t.calls|
      ensures CallAgrees(t, c)
    {
      assert c < |s.calls| ==> CallAgrees(s, c);
    }
    forall u | 0 <= u < |s.timers|
      ensures TimerOwned(t, u)
    {
      assert TimerOwned(s, u);
    }
  }

  /** A call that ends without having been cancelled. */
  lemma EndCallKeepsCalls(s: State, f: nat, c: nat, outcome: Outcome)
    requires CallsAgree(s) && f in s.phases && s.phases[f] == Trying(c) && c < |s.calls|
    requires outcome == Returned || outcome == Failed
    ensures CallsAgree(EndCall(s, f, c, outcome))
  {
    hide I.Waits;
    var to := EndCall(s, f, c, outcome);
    assert PhaseAgrees(s, f, s.phases[f]);
    forall g | g in to.phases
      ensures PhaseAgrees(to, g, to.phases[g])
    {
      assert PhaseAgrees(s, g, s.phases[g]);
    }
    forall d | 0 <= d < |to.calls|
      ensures CallAgrees(to, d)
    {
      assert CallAgrees(s, d);
    }
    forall t | 0 <= t < |s.timers|
      ensures TimerOwned(to, t)
    {
      assert TimerOwned(s, t);
      assert CallAgrees(s, s.timers[t].call);
    }
  }

  lemma ReturnKeepsInv(s: State, f: nat)
    requires Inv(s) && f in s.phases && s.phases[f].Trying? && s.phases[f].call < |s.calls|
    ensures Inv(EndCall(s, f, s.phases[f].call, Returned))
  {
    hide I.Inv, Agree, CallsAgree;
    InsideKeepsAgree(s.io, s.phases, s.timers, f, Outside);
    EndCallKeepsCalls(s, f, s.phases[f].call, Returned);
  }

  /** A running fiber that stops running, having ended or parked. */
  lemma IdleKeepsAgree(io: I.Io, to: I.Io, phases: map<nat, Phase>, timers: seq<Timer>, f: nat)
    requires Agree(io, phases, timers) && Idle(io, to) && Running(io) == S.Fiber(f) && f in phases && Inside(phases[f])
    ensures Agree(to, phases[f := Ended], timers)
  {
    hide I.Waits, InQueue, Plain;
    forall g | g in phases
      ensures FiberAgrees(to, g, phases[f := Ended][g])
    {
      assert FiberAgrees(io, g, phases[g]);
      assert FiberAgrees(io, f, phases[f]);
    }
    forall t | 0 <= t < |timers|
      ensures TimerAgrees(to, t, timers[t].state)
    {
      assert TimerAgrees(io, t, timers[t].state);
    }
    forall n | 0 <= n < |to.regs| && I.Waits(to, n)
      ensures WaiterAgrees(to, phases[f := Ended], n)
    {
      assert WaiterAgrees(io, phases, n);
    }
    assert forall c :: CallKnown(phases, timers, c) ==> CallKnown(phases[f := Ended], timers, c);
  }

  lemma EndKeepsInv(s: State, f: nat)
    requires Inv(s) && Running(s.io) == S.Fiber(f) && f in s.phases && s.phases[f] == Outside && s.io.sched.active > 0
    ensures Inv(s.(io := WithSched(s.io, S.DoFinish(s.io.sched, W)), phases := s.phases[f := Ended]))
  {
    hide I.Inv, Agree, CallsAgree, I.Waits, S.DoFinish;
    var io := WithSched(s.io, S.DoFinish(s.io.sched, W));
    FinishIsExact(s.io);
    IdleKeepsAgree(s.io, io, s.phases, s.timers, f);
    IdleForCalls(s, io);
    NewKeepsCalls(s.(io := io), f, Ended);
  }

  lemma IdleForCalls(s: State, io: I.Io)
    requires CallsAgree(s) && Idle(s.io, io)
    ensures CallsAgree(s.(io := io))
  {
    hide CallsAgree, I.Waits;
    SameCalls(s, io);
  }

  lemma TickKeepsInv(s: State, ms: nat)
    requires Inv(s)
    ensures Inv(s.(clock := s.clock + ms))
  {
    hide I.Inv, Agree, I.Waits;
    var to := s.(clock := s.clock + ms);
    assert forall f | f in s.phases :: PhaseAgrees(s, f, s.phases[f]) ==> PhaseAgrees(to, f, to.phases[f]);
    assert forall c | 0 <= c < |s.calls| :: CallAgrees(s, c) ==> CallAgrees(to, c);
    assert forall t | 0 <= t < |s.timers| :: TimerOwned(s, t) ==> TimerOwned(to, t);
  }

  lemma ExpireKeepsInv(s: State, t: nat)
    requires Inv(s) && t < |s.timers| && s.timers[t].state == Set && s.timers[t].due <= s.clock
    ensures Inv(DoExpire(s, t))
  {
    hide I.Inv, Agree, CallsAgree, I.Waits, S.DoSchedule;
    var io := WithSched(s.io, S.DoSchedule(s.io.sched, S.Callback(t), S.ANY));
    QueueKeepsInv(s.io, S.Callback(t));
    SameCalls(s, io);
    ExpireKeepsAgree(s.io, io, s.phases, s.timers, t);
    ExpireKeepsCalls(s.(io := io), t);
  }

  lemma ExpireKeepsAgree(io: I.Io, to: I.Io, phases: map<nat, Phase>, timers: seq<Timer>, t: nat)
    requires Agree(io, phases, timers) && t < |timers| && timers[t].state == Set
    requires to == WithSched(io, to.sched) && to.sched.held == io.sched.held
    requires to.sched.queue == io.sched.queue + [S.Task(S.Callback(t), S.ANY, |io.sched.accepted|)]
    requires forall n | 0 <= n < |io.regs| :: I.Waits(to, n) <==> I.Waits(io, n)
    ensures Agree(to, phases, timers[t := timers[t].(state := Queued)])
  {
    hide I.Waits, InQueue, Plain;
    var timers' := timers[t := timers[t].(state := Queued)];
    Pushed(io.sched.queue, S.Task(S.Callback(t), S.ANY, |io.sched.accepted|));
    assert TimerAgrees(io, t, timers[t].state);
    forall f | f in phases
      ensures FiberAgrees(to, f, phases[f])
    {
      assert FiberAgrees(io, f, phases[f]);
    }
    forall u | 0 <= u < |timers'|
      ensures TimerAgrees(to, u, timers'[u].state)
    {
      assert TimerAgrees(io, u, timers[u].state);
    }
    forall n | 0 <= n < |to.regs| && I.Waits(to, n)
      ensures WaiterAgrees(to, phases, n)
    {
      assert WaiterAgrees(io, phases, n);
    }
    assert forall c :: CallKnown(phases, timers, c) ==> CallKnown(phases, timers', c);
  }

  lemma ExpireKeepsCalls(s: State, t: nat)
    requires CallsAgree(s) && t < |s.timers| && s.timers[t].state == Set && s.timers[t].due <= s.clock
    ensures CallsAgree(s.(timers := s.timers[t := s.timers[t].(state := Queued)]))
  {
    hide I.Waits;
    var to := s.(timers := s.timers[t := s.timers[t].(state := Queued)]);
    forall g | g in to.phases
      ensures PhaseAgrees(to, g, to.phases[g])
    {
      assert PhaseAgrees(s, g, s.phases[g]);
    }
    assert forall c | 0 <= c < |s.calls| :: CallAgrees(s, c) ==> CallAgrees(to, c);
    forall u | 0 <= u < |to.timers|
      ensures TimerOwned(to, u)
    {
      assert TimerOwned(s, u);
    }
  }

  /** A timer's callback that has run: the timer is over. */
  lemma CallbackEnds(io: I.Io, to: I.Io, phases: map<nat, Phase>, timers: seq<Timer>, t: nat)
    requires Agree(io, phases, timers) && Idle(io, to) && Running(io) == S.Callback(t) && t < |timers|
    ensures Agree(to, phases, timers[t := timers[t].(state := Over)])
  {
    hide I.Waits, InQueue, Plain;
    var timers' := timers[t := timers[t].(state := Over)];
    assert TimerAgrees(io, t, timers[t].state);
    forall f | f in phases
      ensures FiberAgrees(to, f, phases[f])
    {
      assert FiberAgrees(io, f, phases[f]);
    }
    forall u | 0 <= u < |timers'|
      ensures TimerAgrees(to, u, timers'[u].state)
    {
      assert TimerAgrees(io, u, timers[u].state);
    }
    forall n | 0 <= n < |to.regs| && I.Waits(to, n)
      ensures WaiterAgrees(to, phases, n)
    {
      assert WaiterAgrees(io, phases, n);
    }
    assert forall c :: CallKnown(phases, timers, c) ==> CallKnown(phases, timers', c);
  }

  /** A timer that is over has cancelled its call, or found it over or cancelled. */
  lemma OverKeepsCalls(s: State, t: nat, lost: bool)
    requires CallsAgree(s) && t < |s.timers| && s.timers[t].call < |s.calls|
    requires var c := s.timers[t].call;
             forall f | f in s.phases ::
               && s.phases[f] != Trying(c)
               && (s.phases[f].Parked? && s.phases[f].call == c && !lost ==>
                     s.phases[f].number < |s.io.regs| && !I.Waits(s.io, s.phases[f].number))
    requires s.timers[t].state != Set && s.calls[s.timers[t].call].outcome == Pending
    ensures var c := s.timers[t].call;
            CallsAgree(s.(timers := s.timers[t := s.timers[t].(state := Over)],
                          calls := s.calls[c := s.calls[c].(cancelled := true, lost := lost)]))
  {
    hide I.Waits;
    var c := s.timers[t].call;
    var to := s.(timers := s.timers[t := s.timers[t].(state := Over)],
                 calls := s.calls[c := s.calls[c].(cancelled := true, lost := lost)]);
    forall g | g in to.phases
      ensures PhaseAgrees(to, g, to.phases[g])
    {
      assert PhaseAgrees(s, g, s.phases[g]);
    }
    forall d | 0 <= d < |to.calls|
      ensures CallAgrees(to, d)
    {
      assert CallAgrees(s, d);
    }
    forall u | 0 <= u < |to.timers|
      ensures TimerOwned(to, u)
    {
      assert TimerOwned(s, u);
    }
  }

  lemma LateTimerKeepsCalls(s: State, t: nat)
    requires CallsAgree(s) && t < |s.timers| && s.timers[t].call < |s.calls|
    requires s.calls[s.timers[t].call].outcome != Pending || s.calls[s.timers[t].call].cancelled
    ensures CallsAgree(s.(timers := s.timers[t := s.timers[t].(state := Over)]))
  {
    hide I.Waits;
    var to := s.(timers := s.timers[t := s.timers[t].(state := Over)]);
    forall g | g in to.phases
      ensures PhaseAgrees(to, g, to.phases[g])
    {
      assert PhaseAgrees(s, g, s.phases[g]);
    }
    assert forall d | 0 <= d < |s.calls| :: CallAgrees(s, d) ==> CallAgrees(to, d);
    forall u | 0 <= u < |to.timers|
      ensures TimerOwned(to, u)
    {
      assert TimerOwned(s, u);
    }
  }

  /** Nobody tries while a callback runs. */
  lemma NobodyTries(s: State, t: nat, f: nat)
    requires Inv(s) && Running(s.io) == S.Callback(t) && f in s.phases
    ensures !s.phases[f].Trying?
  {
    hide I.Inv, CallsAgree, InQueue, Plain, I.Waits;
    assert FiberAgrees(s.io, f, s.phases[f]);
  }

  /** After the callback's cancelEvent the fiber of the call does not wait, unless epoll_ctl failed. */
  lemma CancelledDoesNotWait(s: State, c: nat, f: nat, works: bool)
    requires Inv(s) && c < |s.calls| && f in s.phases && s.phases[f].Parked? && s.phases[f].call == c
    ensures var call, n := s.calls[c], s.phases[f].number;
            var r := I.CancelEvent(s.io, call.fd, call.event, works);
            && r.Done? && n < |r.io.regs| && n < |s.io.regs|
            && (I.Waits(r.io, n) ==> call.fd < |s.io.ctxs| && call.event in s.io.ctxs[call.fd].events && !works)
  {
    hide I.Inv, Agree, I.CancelEvent, I.Context;
    var call := s.calls[c];
    I.CancelIsExact(s.io, call.fd, call.event, works);
    assert PhaseAgrees(s, f, s.phases[f]);
  }

  lemma RunTimerKeepsInv(s: State, t: nat, works: bool)
    requires Inv(s) && Running(s.io) == S.Callback(t) && t < |s.timers| && s.timers[t].call < |s.calls|
    requires s.timers[t].state == Queued && W in s.io.sched.held && s.io.sched.active > 0
    ensures Inv(DoRunTimer(s, t, works))
  {
    hide I.Inv, Agree, CallsAgree, I.Waits, I.CancelEvent, S.DoFinish, Shrinks, Idle;
    var c := s.timers[t].call;
    var call := s.calls[c];
    if call.outcome != Pending || call.cancelled {
      var io := WithSched(s.io, S.DoFinish(s.io.sched, W));
      FinishIsExact(s.io);
      CallbackEnds(s.io, io, s.phases, s.timers, t);
      IdleForCalls(s, io);
      LateTimerKeepsCalls(s.(io := io), t);
      IdleIsOne(s.io, io);
    } else {
      var r := I.CancelEvent(s.io, call.fd, call.event, works);
      var lost := call.fd < |s.io.ctxs| && call.event in s.io.ctxs[call.fd].events && !works;
      CancelOneKeepsInv(s, call.fd, call.event, works);
      CancelKeepsHeld(s.io, call.fd, call.event, works);
      var io := WithSched(r.io, S.DoFinish(r.io.sched, W));
      FinishIsExact(r.io);
      IdleIsOne(r.io, io);
      CallbackEnds(r.io, io, s.phases, s.timers, t);
      IdleForCalls(s.(io := r.io), io);
      forall f | f in s.phases
        ensures s.phases[f] != Trying(c)
        ensures s.phases[f].Parked? && s.phases[f].call == c && !lost ==>
                  s.phases[f].number < |io.regs| && !I.Waits(io, s.phases[f].number)
      {
        NobodyTries(s, t, f);
        if s.phases[f].Parked? && s.phases[f].call == c { CancelledDoesNotWait(s, c, f, works); }
      }
      OverKeepsCalls(s.(io := io), t, lost);
    }
  }

  lemma IdleIsOne(io: I.Io, to: I.Io)
    requires Idle(io, to)
    ensures OneWorker(to) && to.regs == io.regs
    ensures forall n | 0 <= n < |io.regs| :: I.Waits(to, n) <==> I.Waits(io, n)
  {
    hide I.Waits;
  }

  // ----- Parking -----

  /** The table and the registrations after a fiber has been registered as the last waiter and has yielded. */
  predicate Parks(io: I.Io, to: I.Io, f: nat) {
    && to.sched.queue == io.sched.queue && Running(to) == S.Empty && to.scheduled == io.scheduled
    && |to.regs| == |io.regs| + 1 && to.regs[..|io.regs|] == io.regs && to.regs[|io.regs|].call == S.Fiber(f)
    && |io.regs| !in io.scheduled
    && forall n | 0 <= n < |io.regs| :: I.Waits(to, n) <==> I.Waits(io, n)
  }

  lemma ParkKeepsAgree(io: I.Io, to: I.Io, phases: map<nat, Phase>, timers: seq<Timer>, f: nat, c: nat)
    requires Agree(io, phases, timers) && Parks(io, to, f)
    requires Running(io) == S.Fiber(f) && f in phases && Inside(phases[f])
    ensures Agree(to, phases[f := Parked(c, |io.regs|)], timers)
  {
    hide I.Waits, InQueue, Plain;
    var phases' := phases[f := Parked(c, |io.regs|)];
    assert forall n | 0 <= n < |io.regs| :: to.regs[n] == to.regs[..|io.regs|][n];
    forall g | g in phases'
      ensures FiberAgrees(to, g, phases'[g])
    {
      assert FiberAgrees(io, g, phases[g]);
      assert FiberAgrees(io, f, phases[f]);
    }
    forall t | 0 <= t < |timers|
      ensures TimerAgrees(to, t, timers[t].state)
    {
      assert TimerAgrees(io, t, timers[t].state);
    }
    forall n | 0 <= n < |to.regs| && I.Waits(to, n)
      ensures WaiterAgrees(to, phases', n)
    {
      if n < |io.regs| { assert WaiterAgrees(io, phases, n); }
    }
    assert forall call :: CallKnown(phases, timers, call) ==> CallKnown(phases', timers, call);
  }

  /** A new timer has no callback queued. */
  lemma NewTimerAgrees(io: I.Io, phases: map<nat, Phase>, timers: seq<Timer>, timer: Timer)
    requires Agree(io, phases, timers) && timer.state != Queued
    ensures Agree(io, phases, timers + [timer])
  {
    hide I.Waits, InQueue, Plain;
    var to := timers + [timer];
    QueuedIsKnown(io, phases, timers, S.Callback(|timers|));
    forall t | 0 <= t < |to|
      ensures TimerAgrees(io, t, to[t].state)
    {
      if t < |timers| { assert TimerAgrees(io, t, timers[t].state); }
    }
    assert forall c :: CallKnown(phases, timers, c) ==> CallKnown(phases, to, c);
  }

  /** The call's record and timers once its fiber has parked. */
  function ParkedState(s: State, io: I.Io, f: nat, c: nat): State
    requires c < |s.calls|
  {
    var call := s.calls[c];
    State(io, s.phases[f := Parked(c, |s.io.regs|)],
          s.calls[c := call.(timer := if call.timed then Some(|s.timers|) else None)],
          if call.timed then s.timers + [Timer(c, s.clock + call.to, Set)] else s.timers, s.clock)
  }

  lemma ParkKeepsCalls(s: State, io: I.Io, f: nat, c: nat)
    requires CallsAgree(s) && Parks(s.io, io, f) && f in s.phases && s.phases[f] == Trying(c) && c < |s.calls|
    requires io.regs[|s.io.regs|] == I.Registration(s.calls[c].fd, s.calls[c].event, S.Fiber(f))
    ensures CallsAgree(ParkedState(s, io, f, c))
  {
    hide I.Waits;
    var to := ParkedState(s, io, f, c);
    assert forall n | 0 <= n < |s.io.regs| :: io.regs[n] == io.regs[..|s.io.regs|][n];
    assert PhaseAgrees(s, f, s.phases[f]);
    forall g | g in to.phases
      ensures PhaseAgrees(to, g, to.phases[g])
    {
      assert PhaseAgrees(s, g, s.phases[g]);
    }
    forall d | 0 <= d < |to.calls|
      ensures CallAgrees(to, d)
    {
      assert CallAgrees(s, d);
    }
    forall t | 0 <= t < |to.timers|
      ensures TimerOwned(to, t)
    {
      if t < |s.timers| {
        assert TimerOwned(s, t);
        assert CallAgrees(s, s.timers[t].call);
      }
    }
  }

  /** A cancelled timer of a call that is over changes nothing. */
  lemma SpareTimerKeepsCalls(s: State, c: nat, timer: Option<nat>, timers: seq<Timer>)
    requires CallsAgree(s) && c < |s.calls| && s.calls[c].outcome != Pending
    requires timers == s.timers || (s.calls[c].timed && exists due :: timers == s.timers + [Timer(c, due, Over)])
    ensures CallsAgree(s.(timers := timers, calls := s.calls[c := s.calls[c].(timer := timer)]))
  {
    hide I.Waits;
    var to := s.(timers := timers, calls := s.calls[c := s.calls[c].(timer := timer)]);
    forall g | g in to.phases
      ensures PhaseAgrees(to, g, to.phases[g])
    {
      assert PhaseAgrees(s, g, s.phases[g]);
    }
    forall d | 0 <= d < |to.calls|
      ensures CallAgrees(to, d)
    {
      assert CallAgrees(s, d);
    }
    forall t | 0 <= t < |to.timers|
      ensures TimerOwned(to, t)
    {
      if t < |s.timers| { assert TimerOwned(s, t); }
    }
  }

  /** What addEvent leaves behind for the fibers, with and without success. */
  lemma BlockIo(s: State, f: nat, fd: nat, e: I.Event, works: bool)
    requires Inv(s) && Running(s.io) == S.Fiber(f) && |s.io.ctxs| >= 32 && W in s.io.sched.held && s.io.sched.active > 0
    requires fd < |s.io.ctxs| ==> e !in s.io.ctxs[fd].events
    ensures var r := I.AddEvent(s.io, fd, e, None, f, works);
            && r.Done? && r.ok == works && r.io.sched == s.io.sched && I.Inv(r.io) && OneWorker(r.io)
            && (!works ==> Shrinks(s.io, r.io) && r.io.scheduled == s.io.scheduled)
            && (works ==>
                  && var io := WithSched(r.io, S.DoFinish(s.io.sched, W));
                  && I.Inv(io) && OneWorker(io) && Parks(s.io, io, f)
                  && io.regs[|s.io.regs|] == I.Registration(fd, e, S.Fiber(f)))
  {
    hide I.Inv, Agree, CallsAgree, I.AddEvent, I.Waits, S.DoFinish, I.Grown;
    I.AddIsExact(s.io, fd, e, None, f, works);
    I.AddKeepsWaiters(s.io, fd, e, None, f, works);
    ScheduledIsKnown(s.io);
    if works { FinishIsExact(I.AddEvent(s.io, fd, e, None, f, works).io); }
  }

  lemma ScheduledIsKnown(io: I.Io)
    requires I.Inv(io)
    ensures |io.regs| !in io.scheduled
  {
    hide I.ContextsOk, I.Balanced, I.Woken, S.Inv, I.Mirrored, I.Waits;
  }

  lemma BlockKeepsInv(s: State, f: nat, works: bool)
    requires Inv(s) && Enabled(s, Block(f, works))
    requires |s.io.ctxs| >= 32 && W in s.io.sched.held && s.io.sched.active > 0
    ensures Inv(DoBlock(s, f, s.phases[f].call, works))
  {
    hide I.Inv, Agree, CallsAgree, I.AddEvent, S.DoFinish, Parks, Shrinks;
    var c := s.phases[f].call;
    var call := s.calls[c];
    BlockIo(s, f, call.fd, call.event, works);
    var io := I.AddEvent(s.io, call.fd, call.event, None, f, works).io;
    if works {
      var to := WithSched(io, S.DoFinish(s.io.sched, W));
      ParkKeepsAgree(s.io, to, s.phases, s.timers, f, c);
      NewTimerAgrees(to, s.phases[f := Parked(c, |s.io.regs|)], s.timers, Timer(c, s.clock + call.to, Set));
      ParkKeepsCalls(s, to, f, c);
    } else {
      var outcome := if call.kind == Connect then Returned else Failed;
      DeletedAgrees(s.io, io, s.phases, s.timers);
      InsideKeepsAgree(io, s.phases, s.timers, f, Outside);
      NewTimerAgrees(io, s.phases[f := Outside], s.timers, Timer(c, s.clock + call.to, Over));
      ShrinksForCalls(s, io);
      EndCallKeepsCalls(s.(io := io), f, c, outcome);
      SpareTimerKeepsCalls(EndCall(s.(io := io), f, c, outcome), c,
                           if call.timed then Some(|s.timers|) else None,
                           if call.timed then s.timers + [Timer(c, s.clock + call.to, Over)] else s.timers);
      var timer := if call.timed then Some(|s.timers|) else None;
      assert s.calls[c := call.(timer := timer)][c := call.(timer := timer, outcome := outcome)]
          == s.calls[c := call.(outcome := outcome)][c := call.(outcome := outcome, timer := timer)];
    }
  }

  lemma ShrinksForCalls(s: State, io: I.Io)
    requires CallsAgree(s) && Shrinks(s.io, io)
    ensures CallsAgree(s.(io := io))
  {
    hide CallsAgree, I.Waits;
    SameCalls(s, io);
  }

  // ----- Every run -----

  lemma ExecKeepsInv(s: State, step: Step)
    requires Inv(s) && Enabled(s, step)
    ensures Inv(Exec(s, step))
  {
    hide Inv, DoSpawn, DoTake, DoBegin, EndCall, DoBlock, DoExpire, DoRunTimer, Running;
    hide I.CancelEvent, I.CancelAll, I.DelEvent, I.DeliverEach, I.Enabled, S.DoFinish;
    match step
    case Spawn(f) => SpawnKeepsInv(s, f);
    case Take => TakeKeepsInv(s);
    case Begin(f, kind, fd, event, timed, to) => BeginKeepsInv(s, f, kind, fd, event, timed, to);
    case Return(f) => ReturnKnown(s, f); ReturnKeepsInv(s, f);
    case Block(f, works) => BusyIsCounted(s); BlockKeepsInv(s, f, works);
    case End(f) => BusyIsCounted(s); EndKeepsInv(s, f);
    case Tick(ms) => TickKeepsInv(s, ms);
    case Expire(t) => ExpireKeepsInv(s, t);
    case RunTimer(t, works) => BusyIsCounted(s); TimerKnown(s, t); RunTimerKeepsInv(s, t, works);
    case Reports(reports) => ReportsKeepInv(s, reports);
    case CancelOne(fd, event, works) => CancelOneKeepsInv(s, fd, event, works);
    case CloseAll(fd, works) => CloseAllKeepsInv(s, fd, works);
    case Delete(fd, event, works) => DeleteKeepsInv(s, fd, event, works);
  }

  ghost predicate Runs(s: State, steps: seq<Step>)
    requires Inv(s)
    decreases |steps|
  {
    steps == [] ||
    (&& Enabled(s, steps[0])
     && (ExecKeepsInv(s, steps[0]); Runs(Exec(s, steps[0]), steps[1..])))
  }

  ghost function Run(s: State, steps: seq<Step>): (to: State)
    requires Inv(s) && Runs(s, steps)
    ensures Inv(to)
    decreases |steps|
  {
    if steps == [] then s
    else
      ExecKeepsInv(s, steps[0]);
      Run(Exec(s, steps[0]), steps[1..])
  }

  function Fresh(): State { State(I.Fresh(), map[], [], [], 0) }

  lemma FreshIsValid()
    ensures Inv(Fresh())
  {
    hide I.Inv, I.Waits;
    I.FreshIsValid();
  }

  // ----- What the protocol promises -----

  /** A parked fiber is in exactly one place: waiting for its event, in the queue once, or forgotten by delEvent. */
  lemma ParkedOnce(s: State, f: nat)
    requires Inv(s) && f in s.phases && s.phases[f].Parked?
    ensures var n := s.phases[f].number;
            && n < |s.io.regs|
            && (if I.Waits(s.io, n) then 1 else 0) + (if n in s.io.deleted then 1 else 0)
               + (if InQueue(s.io.sched.queue, S.Fiber(f)) then 1 else 0) == 1
            && forall i, j | 0 <= i < j < |s.io.sched.queue| && s.io.sched.queue[i].call == S.Fiber(f) ::
                 s.io.sched.queue[j].call != S.Fiber(f)
  {
    hide I.ContextsOk, I.Balanced, I.Woken, I.Mirrored, S.Inv, I.Waits, InQueue, CallsAgree;
    assert FiberAgrees(s.io, f, s.phases[f]);
  }

  /**
   * A timed call that waits has a timer that will still cancel it: in the set, or expired with its
   * callback on the way; unless the callback ran and epoll_ctl failed it.
   */
  lemma TimeoutIsPending(s: State, f: nat)
    requires Inv(s) && f in s.phases && s.phases[f].Parked?
    ensures var c, n := s.phases[f].call, s.phases[f].number;
            c < |s.calls| && n < |s.io.regs| &&
            (s.calls[c].timed && I.Waits(s.io, n) && !s.calls[c].lost ==>
               && !s.calls[c].cancelled && s.calls[c].timer.Some?
               && s.calls[c].timer.value < |s.timers| && s.timers[s.calls[c].timer.value].state != Over)
  {
    hide I.Inv, Agree, I.Waits;
    assert PhaseAgrees(s, f, s.phases[f]);
  }

  /** When the callback runs in time, the call is marked and its fiber waits no longer. */
  lemma TimerWakes(s: State, t: nat, f: nat)
    requires Inv(s) && Running(s.io) == S.Callback(t) && t < |s.timers| && s.timers[t].call < |s.calls|
    requires f in s.phases && s.phases[f].Parked? && s.phases[f].call == s.timers[t].call
    requires !s.calls[s.timers[t].call].cancelled
    ensures Inv(Exec(s, RunTimer(t, true)))
    ensures var to, c := Exec(s, RunTimer(t, true)), s.timers[t].call;
            && to.phases == s.phases && c < |to.calls| && to.calls[c].cancelled && !to.calls[c].lost
            && s.phases[f].number < |to.io.regs| && !I.Waits(to.io, s.phases[f].number)
  {
    hide I.Inv, Agree, CallsAgree, I.Waits, I.CancelEvent, S.DoFinish, Shrinks, Idle;
    ExecKeepsInv(s, RunTimer(t, true));
    BusyIsCounted(s);
    TimerKnown(s, t);
    var c := s.timers[t].call;
    var call := s.calls[c];
    CallOfParked(s, f);
    CancelledDoesNotWait(s, c, f, true);
    CancelOneKeepsInv(s, call.fd, call.event, true);
    CancelKeepsHeld(s.io, call.fd, call.event, true);
    var r := I.CancelEvent(s.io, call.fd, call.event, true);
    FinishIsExact(r.io);
    IdleIsOne(r.io, WithSched(r.io, S.DoFinish(r.io.sched, W)));
  }

  lemma CallOfParked(s: State, f: nat)
    requires Inv(s) && f in s.phases && s.phases[f].Parked? && s.phases[f].call < |s.calls|
    ensures s.calls[s.phases[f].call].outcome == Pending && s.calls[s.phases[f].call].fiber == f
  {
    hide I.Inv, Agree;
    assert PhaseAgrees(s, f, s.phases[f]);
  }

  /** Only the callback of a timer made for the call, expired by now, marks a call. */
  lemma OnlyTimersCancel(s: State, step: Step, c: nat)
    requires Inv(s) && Enabled(s, step) && c < |s.calls| && !s.calls[c].cancelled
    ensures var to := Exec(s, step);
            c < |to.calls| && (to.calls[c].cancelled ==>
              step.RunTimer? && step.t < |s.timers| && s.timers[step.t].call == c && s.timers[step.t].state == Queued)
  {
    hide I.Inv, Agree, CallsAgree, I.CancelEvent, I.CancelAll, I.DelEvent, I.DeliverEach, I.AddEvent;
    hide S.DoTake, S.DoFinish, S.DoSchedule;
    match step
    case Spawn(_) =>
    case Take =>
    case Begin(_, _, _, _, _, _) =>
    case Return(f) => ReturnKnown(s, f);
    case Block(f, _) => BusyIsCounted(s);
    case End(_) =>
    case Tick(_) =>
    case Expire(_) =>
    case RunTimer(t, _) => BusyIsCounted(s); TimerKnown(s, t);
    case _ =>
  }

  /**
   * The timer of an earlier park of the same call, if it expired before it could be cancelled,
   * cancels the present park, whose own timer may have all its time left.
   */
  lemma StaleTimerCancels(s: State, t: nat, f: nat)
    requires Inv(s) && Running(s.io) == S.Callback(t) && t < |s.timers| && s.timers[t].call < |s.calls|
    requires f in s.phases && s.phases[f].Parked? && s.phases[f].call == s.timers[t].call
    requires var call := s.calls[s.timers[t].call];
             !call.cancelled && call.timer.Some? && call.timer.value != t && call.timer.value < |s.timers|
             && s.timers[call.timer.value].state == Set
    ensures Inv(Exec(s, RunTimer(t, true)))
    ensures var to, c := Exec(s, RunTimer(t, true)), s.timers[t].call;
            && c < |to.calls| && to.calls[c].cancelled && to.calls[c].timer == s.calls[c].timer
            && s.calls[c].timer.value < |to.timers| && to.timers[s.calls[c].timer.value].state == Set
            && s.phases[f].number < |to.io.regs| && !I.Waits(to.io, s.phases[f].number)
  {
    hide I.Inv, Agree, CallsAgree, I.CancelEvent, S.DoFinish, I.Waits;
    TimerWakes(s, t, f);
  }
}
