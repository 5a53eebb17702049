/** A run of the hooked calls in which a call times out before its time. */
module HookExample {
  import S = SchedulerSpec
  import I = IoSpec
  import opened Wrappers
  import opened HookSpec
  import opened HookTiming

  function Calls(queue: seq<S.Task>): seq<S.Callable> {
    seq(|queue|, i requires 0 <= i < |queue| => queue[i].call)
  }

  /** What the run looks at: one fiber and the reading event of descriptor 0. */
  datatype Scene = Scene(
    queue: seq<S.Callable>,
    running: S.Callable,
    phase: Phase,
    calls: seq<Call>,
    timers: seq<Timer>,
    armed: bool,
    clock: nat)

  predicate Shows(s: State, v: Scene) {
    && Calls(s.io.sched.queue) == v.queue
    && (forall i | 0 <= i < |s.io.sched.queue| :: s.io.sched.queue[i].thread == S.ANY)
    && Running(s.io) == v.running && (v.running == S.Empty <==> W !in s.io.sched.held)
    && s.phases == map[1 := v.phase] && s.calls == v.calls && s.timers == v.timers && s.clock == v.clock
    && |s.io.ctxs| >= 32
    && s.io.ctxs[0].events == (if v.armed then {I.READ} else {})
    && (v.armed ==> s.io.ctxs[0].read.cb == None && s.io.ctxs[0].read.fiber == Some(1))
  }

  const F := S.Fiber(1)
  const C := S.Callback(0)

  /** The call: a transfer with a timeout of five milliseconds, last parked with the given timer. */
  function TheCall(timer: Option<nat>): Call {
    Call(Transfer, 1, 0, I.READ, true, 5, false, false, timer, Pending)
  }

  // ----- Runs, step by step -----

  lemma {:induction false} Extended(s: State, steps: seq<Step>, step: Step)
    requires Inv(s) && Runs(s, steps) && Enabled(Run(s, steps), step)
    ensures Runs(s, steps + [step]) && Run(s, steps + [step]) == Exec(Run(s, steps), step)
    decreases |steps|
  {
    hide Inv, Exec, Enabled;
    if steps == [] {
      assert steps + [step] == [step];
      assert [step][1..] == [];
    } else {
      assert (steps + [step])[1..] == steps[1..] + [step];
      ExecKeepsInv(s, steps[0]);
      Extended(Exec(s, steps[0]), steps[1..], step);
    }
  }

  /** A reachable state, by the steps that lead to it. */
  ghost predicate Reached(s: State, steps: seq<Step>) {
    Inv(Fresh()) && Runs(Fresh(), steps) && Run(Fresh(), steps) == s
  }

  lemma FreshIsReached()
    ensures Reached(Fresh(), []) && Inv(Fresh())
  {
    hide Inv;
    FreshIsValid();
  }

  lemma Reach(s: State, steps: seq<Step>, step: Step) returns (to: State, all: seq<Step>)
    requires Reached(s, steps) && Inv(s) && Enabled(s, step)
    ensures to == Exec(s, step) && all == steps + [step] && Reached(to, all) && Inv(to)
  {
    hide Inv, Enabled, Exec;
    Extended(Fresh(), steps, step);
    ExecKeepsInv(s, step);
    to, all := Exec(s, step), steps + [step];
  }

  // ----- What each step shows -----

  lemma SpawnShows()
    ensures Shows(DoSpawn(Fresh(), 1), Scene([F], S.Empty, New, [], [], false, 0))
  {
  }

  /** The worker takes the first task. */
  lemma TakeShows(s: State, v: Scene)
    requires Shows(s, v) && v.running == S.Empty && v.queue != [] && v.queue[0] != S.Empty
    ensures var io := WithSched(s.io, S.DoTake(s.io.sched, W));
            Shows(s.(io := io), v.(queue := v.queue[1..], running := v.queue[0]))
  {
    var q := s.io.sched.queue;
    assert q[0].call == Calls(q)[0];
    assert S.Pick(q, W) == 0;
    assert q[..0] + q[1..] == q[1..];
    assert Calls(q[1..]) == Calls(q)[1..];
  }

  lemma FirstTakeShows(s: State)
    requires Shows(s, Scene([F], S.Empty, New, [], [], false, 0))
    ensures Shows(DoTake(s), Scene([], F, Outside, [], [], false, 0))
  {
    hide S.DoTake;
    TakeShows(s, Scene([F], S.Empty, New, [], [], false, 0));
    assert [F][1..] == [];
  }

  lemma BeginShows(s: State)
    requires Shows(s, Scene([], F, Outside, [], [], false, 0))
    ensures Shows(DoBegin(s, 1, Transfer, 0, I.READ, true, 5), Scene([], F, Trying(0), [TheCall(None)], [], false, 0))
  {
  }

  lemma BlockShows(s: State, v: Scene, timer: Option<nat>)
    requires Inv(s) && Shows(s, v) && v.running == F && v.phase == Trying(0) && v.calls == [TheCall(timer)] && !v.armed
    ensures |s.io.ctxs| >= 32 && W in s.io.sched.held && s.io.sched.active > 0
    ensures Shows(DoBlock(s, 1, 0, true),
                  Scene(v.queue, S.Empty, Parked(0, |s.io.regs|), [TheCall(Some(|v.timers|))],
                        v.timers + [Timer(0, v.clock + 5, Set)], true, v.clock))
  {
    hide I.Ctl, Agree, CallsAgree, I.Core;
    InvIsCore(s.io);
    BusyIsCounted(s);
    I.VacantIs(s.io, 0, I.READ);
    I.AddCtlWorks(s.io, 0, I.READ, true);
  }

  lemma Pushed(queue: seq<S.Task>, call: S.Callable, number: nat)
    ensures Calls(queue + [S.Task(call, S.ANY, number)]) == Calls(queue) + [call]
  {
  }

  lemma CancelShows(s: State, v: Scene)
    requires Inv(s) && Shows(s, v) && v.running == S.Empty && v.armed
    ensures var to := s.(io := I.CancelEvent(s.io, 0, I.READ, true).io);
            Shows(to, v.(queue := v.queue + [F], armed := false))
  {
    hide I.CtlLeft, Agree, CallsAgree, I.Core;
    InvIsCore(s.io);
    I.CtlLeftWorks(s.io, 0, {}, true);
    assert s.io.ctxs[0].events - {I.READ} == {};
    Pushed(s.io.sched.queue, F, |s.io.sched.accepted|);
  }

  lemma TickShows(s: State, v: Scene)
    requires Shows(s, v)
    ensures Shows(s.(clock := s.clock + 5), v.(clock := v.clock + 5))
  {
  }

  lemma ExpireShows(s: State, v: Scene)
    requires Shows(s, v) && v.running == S.Empty && v.timers == [Timer(0, 5, Set)]
    ensures Shows(DoExpire(s, 0), v.(queue := v.queue + [C], timers := [Timer(0, 5, Queued)]))
  {
    Pushed(s.io.sched.queue, C, |s.io.sched.accepted|);
  }

  /** The fiber goes on; its timer has expired, so that cancelling it has no effect. */
  lemma ResumeShows(s: State, v: Scene, n: nat)
    requires Shows(s, v)
    requires v == Scene([F, C], S.Empty, Parked(0, n), [TheCall(Some(0))], [Timer(0, 5, Queued)], false, 5)
    ensures Shows(DoTake(s), v.(queue := [C], running := F, phase := Trying(0)))
  {
    hide S.DoTake;
    TakeShows(s, v);
    assert v.queue[1..] == [C];
  }

  lemma TakeTimerShows(s: State, v: Scene)
    requires Shows(s, v) && v.queue == [C] && v.running == S.Empty
    ensures Shows(DoTake(s), v.(queue := [], running := C))
  {
    hide S.DoTake;
    TakeShows(s, v);
    assert [C][1..] == [];
  }

  /** The fiber parks, its park is cancelled by somebody, and its timer expires before the fiber can cancel it. */
  lemma FirstPark() returns (s: State, steps: seq<Step>, n: nat)
    ensures Inv(s) && Reached(s, steps)
    ensures Shows(s, Scene([F, C], S.Empty, Parked(0, n), [TheCall(Some(0))], [Timer(0, 5, Queued)], false, 5))
  {
    hide Inv, DoSpawn, DoTake, DoBegin, DoBlock, DoExpire, I.CancelEvent, Calls, Running, Reached;
    FreshIsReached();
    SpawnShows();
    s, steps := Reach(Fresh(), [], Spawn(1));
    FirstTakeShows(s);
    s, steps := Reach(s, steps, Take);
    BeginShows(s);
    s, steps := Reach(s, steps, Begin(1, Transfer, 0, I.READ, true, 5));
    n := |s.io.regs|;
    BlockShows(s, Scene([], F, Trying(0), [TheCall(None)], [], false, 0), None);
    assert [] + [Timer(0, 5, Set)] == [Timer(0, 5, Set)];
    s, steps := Reach(s, steps, Block(1, true));
    var v := Scene([], S.Empty, Parked(0, n), [TheCall(Some(0))], [Timer(0, 5, Set)], true, 0);
    CancelShows(s, v);
    assert [] + [F] == [F];
    s, steps := Reach(s, steps, CancelOne(0, I.READ, true));
    v := v.(queue := [F], armed := false);
    TickShows(s, v);
    s, steps := Reach(s, steps, Tick(5));
    v := v.(clock := 5);
    ExpireShows(s, v);
    s, steps := Reach(s, steps, Expire(0));
  }

  lemma RunTimerRest(s: State)
    requires Inv(s) && Enabled(s, RunTimer(0, true))
    ensures var to := Exec(s, RunTimer(0, true));
            && |to.calls| == |s.calls| && |to.timers| == |s.timers| && to.clock == s.clock
            && (forall t | 0 < t < |s.timers| :: to.timers[t] == s.timers[t])
            && forall c | 0 <= c < |s.calls| :: to.calls[c].outcome == s.calls[c].outcome
  {
    hide I.Inv, Agree, CallsAgree, I.CancelEvent;
    BusyIsCounted(s);
    TimerKnown(s, 0);
  }

  /** The fiber has gone on and parked again: the old timer's callback is queued, the new timer is in the set. */
  function SecondScene(n: nat): Scene {
    Scene([C], S.Empty, Parked(0, n), [TheCall(Some(1))], [Timer(0, 5, Queued), Timer(0, 10, Set)], true, 5)
  }

  lemma SecondPark() returns (s: State, steps: seq<Step>, n: nat)
    ensures Inv(s) && Reached(s, steps) && Shows(s, SecondScene(n))
  {
    hide Inv, DoTake, DoBlock, Calls, Running, Reached;
    s, steps, n := FirstPark();
    var v := Scene([F, C], S.Empty, Parked(0, n), [TheCall(Some(0))], [Timer(0, 5, Queued)], false, 5);
    ResumeShows(s, v, n);
    s, steps := Reach(s, steps, Take);
    n := |s.io.regs|;
    BlockShows(s, v.(queue := [C], running := F, phase := Trying(0)), Some(0));
    s, steps := Reach(s, steps, Block(1, true));
    assert [Timer(0, 5, Queued)] + [Timer(0, 10, Set)] == [Timer(0, 5, Queued), Timer(0, 10, Set)];
  }

  /** In such a state the early mark cannot be avoided any more. */
  lemma DoomedHappens() returns (s: State, steps: seq<Step>, n: nat)
    ensures Inv(s) && Reached(s, steps) && Doomed(s, 1, 0, n, 0)
  {
    hide Inv, Reached;
    s, steps, n := SecondPark();
    assert s.io.sched.queue[0].call == Calls(s.io.sched.queue)[0];
  }

  /**
   * A call can time out before its time: there is a run after which a call is marked as timed out at
   * time 5, although it was parked at time 5 for five milliseconds, and the timer of that park, due at
   * time 10, is still in the set.
   */
  lemma StaleTimerHappens() returns (s: State, steps: seq<Step>)
    ensures Reached(s, steps) && s.clock == 5
    ensures |s.calls| == 1 && s.calls[0].cancelled && s.calls[0].outcome == Pending && s.calls[0].timer == Some(1)
    ensures |s.timers| == 2 && s.timers[1] == Timer(0, 10, Set)
  {
    hide Inv, DoTake, Calls, Running, Reached;
    var n;
    s, steps, n := SecondPark();
    TakeTimerShows(s, SecondScene(n));
    s, steps := Reach(s, steps, Take);
    StaleTimerCancels(s, 0, 1);
    RunTimerRest(s);
    s, steps := Reach(s, steps, RunTimer(0, true));
  }
}
