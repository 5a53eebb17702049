/**
 * Which timer cancels a hooked call, over whole runs: a call is marked by the timer of its present park,
 * or early, by the timer of an earlier park that had expired when that park was resumed.
 */
module HookTiming {
  import S = SchedulerSpec
  import I = IoSpec
  import opened Wrappers
  import opened HookSpec

  // ----- Late timers -----

  /** The timer of the park that its call's fiber is in. */
  predicate IsParkTimer(s: State, t: nat)
    requires t < |s.timers|
  {
    var c := s.timers[t].call;
    && c < |s.calls| && s.calls[c].timer == Some(t)
    && s.calls[c].fiber in s.phases && s.phases[s.calls[c].fiber].Parked? && s.phases[s.calls[c].fiber].call == c
  }

  /** A timer of the call whose callback is on the way, although its park is over. */
  predicate IsLate(s: State, c: nat, t: nat) {
    t < |s.timers| && s.timers[t].call == c && s.timers[t].state == Queued && !IsParkTimer(s, t)
  }

  /** The worker takes the task of a fiber parked in the call. */
  predicate Resumes(s: State, step: Step, c: nat) {
    var run := Running(WithSched(s.io, S.DoTake(s.io.sched, W)));
    step.Take? && run.Fiber? && run.fiber in s.phases && s.phases[run.fiber].Parked? && s.phases[run.fiber].call == c
  }

  /** timer->cancel() comes too late: the step resumes the call while its timer has expired. */
  predicate ComesLate(s: State, step: Step, c: nat, t: nat) {
    && Resumes(s, step, c) && c < |s.calls| && s.calls[c].timer == Some(t)
    && t < |s.timers| && s.timers[t].state == Queued
  }

  predicate IsRun(step: Step, t: nat) { step.RunTimer? && step.t == t }

  /** Late timers come about exactly by cancelling too late, and go exactly by running. */
  predicate LateAfter(s: State, to: State, step: Step, c: nat, t: nat) {
    IsLate(to, c, t) <==> (IsLate(s, c, t) && !IsRun(step, t)) || ComesLate(s, step, c, t)
  }

  lemma KnownCalls(s: State, t: nat)
    requires Inv(s) && t < |s.timers|
    ensures s.timers[t].call < |s.calls|
    ensures s.timers[t].state == Set ==> IsParkTimer(s, t)
  {
    hide I.Inv, Agree;
    assert TimerOwned(s, t);
    var c := s.timers[t].call;
    assert CallAgrees(s, c);
  }

  lemma IoKeepsLate(s: State, io: I.Io, c: nat, t: nat)
    ensures IsLate(s.(io := io), c, t) <==> IsLate(s, c, t)
  {
  }

  lemma SpawnKeepsLate(s: State, f: nat, c: nat, t: nat)
    requires Inv(s) && f !in s.phases
    ensures IsLate(DoSpawn(s, f), c, t) <==> IsLate(s, c, t)
  {
    hide I.Inv, Agree, S.DoSchedule;
    if t < |s.timers| { KnownCalls(s, t); }
  }

  lemma InsideKeepsLate(s: State, f: nat, p: Phase, c: nat, t: nat)
    requires f in s.phases && !s.phases[f].Parked? && !p.Parked?
    ensures IsLate(s.(phases := s.phases[f := p]), c, t) <==> IsLate(s, c, t)
  {
  }

  lemma BeginKeepsLate(s: State, f: nat, kind: Kind, fd: nat, e: I.Event, timed: bool, to: nat, c: nat, t: nat)
    requires Inv(s) && f in s.phases && s.phases[f] == Outside
    ensures IsLate(DoBegin(s, f, kind, fd, e, timed, to), c, t) <==> IsLate(s, c, t)
  {
    hide I.Inv, Agree;
    if t < |s.timers| { KnownCalls(s, t); }
  }

  lemma EndCallKeepsLate(s: State, f: nat, d: nat, outcome: Outcome, c: nat, t: nat)
    requires f in s.phases && !s.phases[f].Parked? && d < |s.calls|
    ensures IsLate(EndCall(s, f, d, outcome), c, t) <==> IsLate(s, c, t)
  {
  }

  lemma ExpireKeepsLate(s: State, u: nat, c: nat, t: nat)
    requires Inv(s) && u < |s.timers| && s.timers[u].state == Set
    ensures IsLate(DoExpire(s, u), c, t) <==> IsLate(s, c, t)
  {
    hide I.Inv, Agree, CallsAgree, S.DoSchedule;
    KnownCalls(s, u);
  }

  lemma BlockKeepsLate(s: State, f: nat, works: bool, c: nat, t: nat)
    requires Inv(s) && Enabled(s, Block(f, works))
    requires |s.io.ctxs| >= 32 && W in s.io.sched.held && s.io.sched.active > 0
    ensures IsLate(DoBlock(s, f, s.phases[f].call, works), c, t) <==> IsLate(s, c, t)
  {
    hide I.Inv, Agree, I.AddEvent, S.DoFinish;
    assert PhaseAgrees(s, f, s.phases[f]);
    if t < |s.timers| { KnownCalls(s, t); }
  }

  lemma RunTimerDropsLate(s: State, u: nat, works: bool, c: nat, t: nat)
    requires Inv(s) && u < |s.timers| && s.timers[u].call < |s.calls| && W in s.io.sched.held && s.io.sched.active > 0
    ensures IsLate(DoRunTimer(s, u, works), c, t) <==> IsLate(s, c, t) && t != u
  {
    hide I.Inv, Agree, CallsAgree, I.CancelEvent, S.DoFinish;
    I.CancelIsExact(s.io, s.calls[s.timers[u].call].fd, s.calls[s.timers[u].call].event, works);
  }

  lemma TakeMakesLate(s: State, c: nat, t: nat)
    requires Inv(s) && W !in s.io.sched.held
    ensures LateAfter(s, DoTake(s), Take, c, t)
  {
    hide I.Inv, Agree, S.DoTake;
    var run := Running(WithSched(s.io, S.DoTake(s.io.sched, W)));
    if run.Fiber? && run.fiber in s.phases { assert PhaseAgrees(s, run.fiber, s.phases[run.fiber]); }
    if t < |s.timers| { KnownCalls(s, t); }
  }

  /**
   * After a resume the late timers of the call are all its timers that had expired at that moment, the
   * timer of the park and those of earlier ones: cancelling takes effect exactly on a timer in the set.
   */
  lemma LateAfterResume(s: State, c: nat, t: nat)
    requires Inv(s) && W !in s.io.sched.held && Resumes(s, Take, c)
    ensures IsLate(DoTake(s), c, t) <==> t < |s.timers| && s.timers[t].call == c && s.timers[t].state == Queued
  {
    hide I.Inv, Agree, S.DoTake, DoTake;
    TakeMakesLate(s, c, t);
    var run := Running(WithSched(s.io, S.DoTake(s.io.sched, W)));
    assert PhaseAgrees(s, run.fiber, s.phases[run.fiber]);
  }

  /** The late timers of every call after every step. */
  lemma LateIsExact(s: State, step: Step, c: nat, t: nat)
    requires Inv(s) && Enabled(s, step)
    ensures LateAfter(s, Exec(s, step), step, c, t)
  {
    hide I.Inv, Agree, CallsAgree, IsLate, DoSpawn, DoTake, DoBegin, EndCall, DoBlock, DoExpire, DoRunTimer;
    hide I.CancelEvent, I.CancelAll, I.DelEvent, I.DeliverEach, S.DoFinish;
    match step
    case Spawn(f) => SpawnKeepsLate(s, f, c, t);
    case Take => TakeMakesLate(s, c, t);
    case Begin(f, kind, fd, event, timed, to) => BeginKeepsLate(s, f, kind, fd, event, timed, to, c, t);
    case Return(f) => ReturnKnown(s, f); EndCallKeepsLate(s, f, s.phases[f].call, Returned, c, t);
    case Block(f, works) => BusyIsCounted(s); BlockKeepsLate(s, f, works, c, t);
    case End(f) => BusyIsCounted(s); EndKeepsLate(s, f, c, t);
    case Tick(ms) => TickKeepsLate(s, ms, c, t);
    case Expire(u) => ExpireKeepsLate(s, u, c, t);
    case RunTimer(u, works) => BusyIsCounted(s); TimerKnown(s, u); RunTimerDropsLate(s, u, works, c, t);
    case Reports(reports) => IoKeepsLate(s, Exec(s, step).io, c, t);
    case CancelOne(_, _, _) => IoKeepsLate(s, Exec(s, step).io, c, t);
    case CloseAll(_, _) => IoKeepsLate(s, Exec(s, step).io, c, t);
    case Delete(_, _, _) => IoKeepsLate(s, Exec(s, step).io, c, t);
  }

  lemma EndKeepsLate(s: State, f: nat, c: nat, t: nat)
    requires f in s.phases && s.phases[f] == Outside && W in s.io.sched.held && s.io.sched.active > 0
    ensures var to := s.(io := WithSched(s.io, S.DoFinish(s.io.sched, W)), phases := s.phases[f := Ended]);
            IsLate(to, c, t) <==> IsLate(s, c, t)
  {
    InsideKeepsLate(s, f, Ended, c, t);
  }

  lemma TickKeepsLate(s: State, ms: nat, c: nat, t: nat)
    ensures IsLate(s.(clock := s.clock + ms), c, t) <==> IsLate(s, c, t)
  {
  }

  // ----- Marks -----

  /** The callback of a timer of the call runs while the call is in progress. */
  predicate Hits(s: State, step: Step, c: nat) {
    && step.RunTimer? && step.t < |s.timers| && s.timers[step.t].call == c
    && c < |s.calls| && s.calls[c].outcome == Pending
  }

  /** The first such callback marks the call as timed out. */
  predicate Marks(s: State, step: Step, c: nat) { Hits(s, step, c) && !s.calls[c].cancelled }

  /** The call is marked, but not by the timer of its present park. */
  predicate MarksEarly(s: State, step: Step, c: nat) { Marks(s, step, c) && s.calls[c].timer != Some(step.t) }

  predicate Marked(s: State, c: nat) { c < |s.calls| && s.calls[c].cancelled }

  /** A call is marked by such a callback and by nothing else, for ever. */
  lemma MarkIsExact(s: State, step: Step, c: nat)
    requires Inv(s) && Enabled(s, step)
    ensures Marked(Exec(s, step), c) <==> Marked(s, c) || Hits(s, step, c)
  {
    hide I.Inv, Agree, CallsAgree, I.CancelEvent, I.CancelAll, I.DelEvent, I.DeliverEach, I.AddEvent;
    hide S.DoTake, S.DoFinish, S.DoSchedule;
    match step
    case Spawn(_) =>
    case Take =>
    case Begin(_, _, _, _, _, _) =>
    case Return(f) => ReturnKnown(s, f);
    case Block(f, _) => BusyIsCounted(s);
    case End(_) =>
    case Tick(_) =>
    case Expire(_) =>
    case RunTimer(t, works) =>
      BusyIsCounted(s);
      TimerKnown(s, t);
      I.CancelIsExact(s.io, s.calls[s.timers[t].call].fd, s.calls[s.timers[t].call].event, works);
    case _ =>
  }

  /** A call that is over stays over. */
  lemma OverStaysOver(s: State, step: Step, c: nat)
    requires Inv(s) && Enabled(s, step) && c < |s.calls|
    ensures c < |Exec(s, step).calls|
    ensures s.calls[c].outcome != Pending ==> Exec(s, step).calls[c].outcome == s.calls[c].outcome
  {
    hide I.Inv, Agree, I.CancelEvent, I.CancelAll, I.DelEvent, I.DeliverEach, I.AddEvent;
    hide S.DoTake, S.DoFinish, S.DoSchedule;
    match step
    case Spawn(_) =>
    case Take => TakeKeepsOutcome(s, c);
    case Begin(_, _, _, _, _, _) =>
    case Return(f) => ReturnKnown(s, f); assert PhaseAgrees(s, f, s.phases[f]);
    case Block(f, _) => BusyIsCounted(s); assert PhaseAgrees(s, f, s.phases[f]);
    case End(_) =>
    case Tick(_) =>
    case Expire(_) =>
    case RunTimer(t, works) => BusyIsCounted(s); TimerKnown(s, t);
    case _ =>
  }

  lemma TakeKeepsOutcome(s: State, c: nat)
    requires Inv(s) && c < |s.calls|
    ensures c < |DoTake(s).calls|
    ensures s.calls[c].outcome != Pending ==> DoTake(s).calls[c].outcome == s.calls[c].outcome
  {
    hide I.Inv, Agree, S.DoTake;
    var run := Running(WithSched(s.io, S.DoTake(s.io.sched, W)));
    if run.Fiber? && run.fiber in s.phases { assert PhaseAgrees(s, run.fiber, s.phases[run.fiber]); }
  }

  /** The run has a callback of a timer of the call while the call is in progress. */
  ghost predicate HitsIn(s: State, steps: seq<Step>, c: nat)
    requires Inv(s) && Runs(s, steps)
    decreases |steps|
  {
    steps != [] &&
    (|| Hits(s, steps[0], c)
     || (ExecKeepsInv(s, steps[0]); HitsIn(Exec(s, steps[0]), steps[1..], c)))
  }

  lemma {:induction false} MarkedIsExact(s: State, steps: seq<Step>, c: nat)
    requires Inv(s) && Runs(s, steps)
    ensures Marked(Run(s, steps), c) <==> Marked(s, c) || HitsIn(s, steps, c)
    decreases |steps|
  {
    hide Inv, Enabled, Exec, Marked, Hits;
    if steps != [] {
      ExecKeepsInv(s, steps[0]);
      MarkIsExact(s, steps[0], c);
      MarkedIsExact(Exec(s, steps[0]), steps[1..], c);
    }
  }

  /**
   * Over every run: a call has reported a timeout if and only if it is over and the callback of a timer of
   * it ran while it was in progress.
   */
  lemma TimedOutIsExact(steps: seq<Step>, c: nat)
    requires Inv(Fresh()) && Runs(Fresh(), steps) && c < |Run(Fresh(), steps).calls|
    ensures var call := Run(Fresh(), steps).calls[c];
            call.outcome == TimedOut <==> call.outcome != Pending && HitsIn(Fresh(), steps, c)
  {
    hide Runs, Run, I.Inv, Agree, HitsIn;
    MarkedIsExact(Fresh(), steps, c);
    var s := Run(Fresh(), steps);
    assert CallAgrees(s, c);
  }

  // ----- Early marks -----

  ghost predicate EarlyIn(s: State, steps: seq<Step>, c: nat)
    requires Inv(s) && Runs(s, steps)
    decreases |steps|
  {
    steps != [] &&
    (|| MarksEarly(s, steps[0], c)
     || (ExecKeepsInv(s, steps[0]); EarlyIn(Exec(s, steps[0]), steps[1..], c)))
  }

  /** The run has the callback of the timer mark the call. */
  ghost predicate MarksIn(s: State, steps: seq<Step>, c: nat, t: nat)
    requires Inv(s) && Runs(s, steps)
    decreases |steps|
  {
    steps != [] &&
    (|| (Marks(s, steps[0], c) && steps[0].t == t)
     || (ExecKeepsInv(s, steps[0]); MarksIn(Exec(s, steps[0]), steps[1..], c, t)))
  }

  /** The run cancels a timer of the call too late, and has that timer's callback mark the call afterwards. */
  ghost predicate LateIn(s: State, steps: seq<Step>, c: nat)
    requires Inv(s) && Runs(s, steps)
    decreases |steps|
  {
    steps != [] &&
    (ExecKeepsInv(s, steps[0]);
     || (exists t :: ComesLate(s, steps[0], c, t) && MarksIn(Exec(s, steps[0]), steps[1..], c, t))
     || LateIn(Exec(s, steps[0]), steps[1..], c))
  }

  /** The callback that marks a call is early exactly if its timer is late. */
  lemma EarlyIsLate(s: State, step: Step, c: nat)
    requires Inv(s) && Enabled(s, step) && Marks(s, step, c)
    ensures MarksEarly(s, step, c) <==> IsLate(s, c, step.t)
  {
    hide I.Inv, Agree;
    TimerKnown(s, step.t);
    assert CallAgrees(s, c);
    NobodyTries(s, step.t, s.calls[c].fiber);
  }

  lemma {:induction false} NoMoreMarks(s: State, steps: seq<Step>, c: nat, t: nat)
    requires Inv(s) && Runs(s, steps) && c < |s.calls| && (s.calls[c].outcome != Pending || s.calls[c].cancelled)
    ensures !MarksIn(s, steps, c, t)
    decreases |steps|
  {
    hide Inv, Enabled, Exec;
    if steps != [] {
      ExecKeepsInv(s, steps[0]);
      MarkIsExact(s, steps[0], c);
      OverStaysOver(s, steps[0], c);
      NoMoreMarks(Exec(s, steps[0]), steps[1..], c, t);
    }
  }

  /** Some late timer's callback marks the call in the run. */
  ghost predicate LateMarks(s: State, steps: seq<Step>, c: nat)
    requires Inv(s) && Runs(s, steps)
  {
    exists t :: IsLate(s, c, t) && MarksIn(s, steps, c, t)
  }

  /** One step more at the front of the run. */
  lemma LateMarksStep(s: State, steps: seq<Step>, c: nat)
    requires Inv(s) && Runs(s, steps) && steps != []
    ensures Inv(Exec(s, steps[0]))
    ensures var to, rest := Exec(s, steps[0]), steps[1..];
            LateMarks(s, steps, c) || (exists t :: ComesLate(s, steps[0], c, t) && MarksIn(to, rest, c, t))
            <==> MarksEarly(s, steps[0], c) || LateMarks(to, rest, c)
  {
    hide Inv, Enabled, Exec, IsLate, ComesLate, Marks, MarksEarly, IsRun;
    var step, rest := steps[0], steps[1..];
    ExecKeepsInv(s, step);
    var to := Exec(s, step);
    MarksAreEarly(s, step, c);
    forall t
      ensures IsLate(to, c, t) <==> (IsLate(s, c, t) && !IsRun(step, t)) || ComesLate(s, step, c, t)
      ensures IsLate(s, c, t) && IsRun(step, t) ==> !MarksIn(to, rest, c, t)
    {
      LateIsExact(s, step, c, t);
      LateAfterIs(s, to, step, c, t);
      if IsLate(s, c, t) && IsRun(step, t) { RanOnce(s, steps, c, t); }
    }
  }

  lemma LateAfterIs(s: State, to: State, step: Step, c: nat, t: nat)
    requires LateAfter(s, to, step, c, t)
    ensures IsLate(to, c, t) <==> (IsLate(s, c, t) && !IsRun(step, t)) || ComesLate(s, step, c, t)
  {
  }

  lemma MarksAreEarly(s: State, step: Step, c: nat)
    requires Inv(s) && Enabled(s, step)
    ensures MarksEarly(s, step, c) <==> step.RunTimer? && Marks(s, step, c) && IsLate(s, c, step.t)
    ensures Marks(s, step, c) ==> step.RunTimer? && IsRun(step, step.t)
  {
    hide Inv, Enabled, IsLate;
    if Marks(s, step, c) { EarlyIsLate(s, step, c); }
  }

  /** After a timer's callback has run, it never marks the call again. */
  lemma RanOnce(s: State, steps: seq<Step>, c: nat, t: nat)
    requires Inv(s) && Runs(s, steps) && steps != [] && IsLate(s, c, t) && IsRun(steps[0], t)
    ensures Inv(Exec(s, steps[0])) && !MarksIn(Exec(s, steps[0]), steps[1..], c, t)
  {
    hide I.Inv, Agree, CallsAgree, Exec, MarksIn, Runs;
    RunsRest(s, steps);
    KnownCalls(s, t);
    MarkIsExact(s, steps[0], c);
    OverStaysOver(s, steps[0], c);
    NoMoreMarks(Exec(s, steps[0]), steps[1..], c, t);
  }

  lemma RunsRest(s: State, steps: seq<Step>)
    requires Inv(s) && Runs(s, steps) && steps != []
    ensures Enabled(s, steps[0]) && Inv(Exec(s, steps[0])) && Runs(Exec(s, steps[0]), steps[1..])
  {
    hide Inv, Enabled, Exec;
    ExecKeepsInv(s, steps[0]);
  }

  /**
   * Over every run: a call is marked early if and only if the callback of a timer marks it whose cancelling
   * came too late: of one that was late to begin with, or of one that was cancelled too late on the way.
   */
  lemma {:induction false} EarlyIsExact(s: State, steps: seq<Step>, c: nat)
    requires Inv(s) && Runs(s, steps)
    ensures EarlyIn(s, steps, c) <==> LateMarks(s, steps, c) || LateIn(s, steps, c)
    decreases |steps|
  {
    hide Inv, Enabled, Exec, MarksEarly, IsLate, ComesLate, MarksIn, LateMarks;
    if steps != [] {
      RunsRest(s, steps);
      LateMarksStep(s, steps, c);
      EarlyIsExact(Exec(s, steps[0]), steps[1..], c);
    } else {
      NothingMarks(s, c);
    }
  }

  lemma NothingMarks(s: State, c: nat)
    requires Inv(s) && Runs(s, [])
    ensures !LateMarks(s, [], c)
  {
    hide Inv;
  }

  // ----- Within one park -----

  /** The fiber stays where it is, all along the run. */
  ghost predicate Stays(s: State, steps: seq<Step>, f: nat)
    requires Inv(s) && Runs(s, steps) && f in s.phases
    decreases |steps|
  {
    steps == [] ||
    (ExecKeepsInv(s, steps[0]);
     var to := Exec(s, steps[0]);
     f in to.phases && to.phases[f] == s.phases[f] && Stays(to, steps[1..], f))
  }

  /** The call of a parked fiber is in progress and remembers the timer of its park, as long as it is parked. */
  lemma ParkKeepsTimer(s: State, step: Step, f: nat)
    requires Inv(s) && Enabled(s, step) && f in s.phases && s.phases[f].Parked?
    requires f in Exec(s, step).phases && Exec(s, step).phases[f] == s.phases[f]
    ensures var c := s.phases[f].call;
            && c < |s.calls| && c < |Exec(s, step).calls|
            && s.calls[c].fiber == f && s.calls[c].outcome == Pending
            && Exec(s, step).calls[c].timer == s.calls[c].timer
            && !Resumes(s, step, c)
  {
    hide I.Inv, Agree, CallsAgree, I.CancelEvent, I.CancelAll, I.DelEvent, I.DeliverEach, I.AddEvent;
    hide S.DoTake, S.DoFinish, S.DoSchedule;
    ParkedIn(s, f);
    match step
    case Spawn(_) =>
    case Take => TakeLeavesOthers(s, f);
    case Begin(_, _, _, _, _, _) =>
    case Return(g) => ReturnKnown(s, g); InsideCall(s, g);
    case Block(g, _) => BusyIsCounted(s); InsideCall(s, g);
    case End(_) =>
    case Tick(_) =>
    case Expire(_) =>
    case RunTimer(t, _) => BusyIsCounted(s); TimerKnown(s, t);
    case _ =>
  }

  lemma ParkedIn(s: State, f: nat)
    requires Inv(s) && f in s.phases && s.phases[f].Parked?
    ensures s.phases[f].call < |s.calls|
    ensures s.calls[s.phases[f].call].fiber == f && s.calls[s.phases[f].call].outcome == Pending
  {
    hide I.Inv, Agree;
    assert PhaseAgrees(s, f, s.phases[f]);
  }

  lemma InsideCall(s: State, g: nat)
    requires Inv(s) && g in s.phases && s.phases[g].Trying?
    ensures s.phases[g].call < |s.calls| && s.calls[s.phases[g].call].fiber == g
  {
    hide I.Inv, Agree;
    assert PhaseAgrees(s, g, s.phases[g]);
  }

  lemma TakeLeavesOthers(s: State, f: nat)
    requires Inv(s) && f in s.phases && s.phases[f].Parked? && s.phases[f].call < |s.calls|
    requires f in DoTake(s).phases && DoTake(s).phases[f] == s.phases[f]
    ensures |DoTake(s).calls| == |s.calls| && DoTake(s).calls[s.phases[f].call].timer == s.calls[s.phases[f].call].timer
    ensures !Resumes(s, Take, s.phases[f].call)
  {
    hide I.Inv, Agree, S.DoTake;
    var run := Running(WithSched(s.io, S.DoTake(s.io.sched, W)));
    ParkedIn(s, f);
    if run.Fiber? && run.fiber in s.phases && s.phases[run.fiber].Parked? { ParkedIn(s, run.fiber); }
  }

  /**
   * While a fiber is parked and no timer of its call is late, the call stays unmarked until the timer of
   * the park runs.
   */
  lemma {:induction false} UnmarkedInPark(s: State, steps: seq<Step>, f: nat)
    requires Inv(s) && Runs(s, steps) && f in s.phases && s.phases[f].Parked? && Stays(s, steps, f)
    requires s.phases[f].call < |s.calls|
    requires !s.calls[s.phases[f].call].cancelled && forall t :: !IsLate(s, s.phases[f].call, t)
    requires forall i | 0 <= i < |steps| && steps[i].RunTimer? :: s.calls[s.phases[f].call].timer != Some(steps[i].t)
    ensures !Marked(Run(s, steps), s.phases[f].call)
    decreases |steps|
  {
    hide Inv, Enabled, Exec, IsLate, Resumes, Hits;
    if steps != [] {
      var c, step := s.phases[f].call, steps[0];
      RunsRest(s, steps);
      var to := Exec(s, step);
      ParkKeepsTimer(s, step, f);
      forall t
        ensures !IsLate(to, c, t)
      {
        LateIsExact(s, step, c, t);
        LateAfterIs(s, to, step, c, t);
      }
      MarkIsExact(s, step, c);
      HitIsMark(s, step, c);
      if Marks(s, step, c) { EarlyIsLate(s, step, c); }
      UnmarkedInPark(to, steps[1..], f);
    }
  }

  lemma HitIsMark(s: State, step: Step, c: nat)
    requires c < |s.calls| && !s.calls[c].cancelled
    ensures Hits(s, step, c) <==> Marks(s, step, c)
    ensures Marks(s, step, c) ==> step.RunTimer?
  {
  }

  // ----- Time -----

  /** The callback of a timer runs only when its time has come. */
  lemma RunsWhenDue(s: State, t: nat)
    requires Inv(s) && Running(s.io) == S.Callback(t)
    ensures t < |s.timers| && s.timers[t].due <= s.clock
  {
    TimerKnown(s, t);
    DueWhenQueued(s, t);
  }

  lemma DueWhenQueued(s: State, t: nat)
    requires Inv(s) && t < |s.timers| && s.timers[t].state == Queued
    ensures s.timers[t].due <= s.clock
  {
    hide I.Inv, Agree;
    assert TimerOwned(s, t);
  }

  /** A park that is timed sets its timer for the timeout from now. */
  lemma ParkSetsTimer(s: State, f: nat)
    requires Inv(s) && Enabled(s, Block(f, true)) && s.calls[s.phases[f].call].timed
    ensures var to, c := Exec(s, Block(f, true)), s.phases[f].call;
            && Inv(to) && f in to.phases && to.phases[f].Parked? && to.phases[f].call == c && c < |to.calls|
            && to.calls[c].timer == Some(|s.timers|) && |s.timers| < |to.timers|
            && to.timers[|s.timers|].due == s.clock + s.calls[c].to && to.clock == s.clock
            && !to.calls[c].cancelled
            && forall t :: IsLate(to, c, t) <==> IsLate(s, c, t)
  {
    hide I.Inv, Agree, I.AddEvent, S.DoFinish, IsLate;
    BusyIsCounted(s);
    ExecKeepsInv(s, Block(f, true));
    assert PhaseAgrees(s, f, s.phases[f]);
    var call := s.calls[s.phases[f].call];
    BlockIo(s, f, call.fd, call.event, true);
    forall t
      ensures IsLate(Exec(s, Block(f, true)), s.phases[f].call, t) <==> IsLate(s, s.phases[f].call, t)
    {
      BlockKeepsLate(s, f, true, s.phases[f].call, t);
    }
  }

  /** Timers keep their time, and the clock does not go back. */
  lemma DueStays(s: State, step: Step, t: nat)
    requires Inv(s) && Enabled(s, step)
    ensures s.clock <= Exec(s, step).clock
    ensures t < |s.timers| ==> t < |Exec(s, step).timers| && Exec(s, step).timers[t].due == s.timers[t].due
  {
    hide I.Inv, Agree, CallsAgree, I.CancelEvent, I.CancelAll, I.DelEvent, I.DeliverEach, I.AddEvent;
    hide S.DoTake, S.DoFinish, S.DoSchedule;
    match step
    case Spawn(_) =>
    case Take =>
    case Begin(_, _, _, _, _, _) =>
    case Return(g) => ReturnKnown(s, g);
    case Block(g, _) => BusyIsCounted(s);
    case End(_) =>
    case Tick(_) =>
    case Expire(_) =>
    case RunTimer(u, _) => BusyIsCounted(s); TimerKnown(s, u);
    case _ =>
  }

  lemma {:induction false} ClockGrows(s: State, steps: seq<Step>)
    requires Inv(s) && Runs(s, steps)
    ensures s.clock <= Run(s, steps).clock
    decreases |steps|
  {
    hide Inv, Enabled, Exec;
    if steps != [] {
      RunsRest(s, steps);
      DueStays(s, steps[0], 0);
      ClockGrows(Exec(s, steps[0]), steps[1..]);
    }
  }

  /**
   * While a fiber is parked and no timer of its call is late, the call is not marked before the timer of
   * the park is due.
   */
  lemma {:induction false} NotBeforeDue(s: State, steps: seq<Step>, f: nat, own: nat)
    requires Inv(s) && Runs(s, steps) && f in s.phases && s.phases[f].Parked? && Stays(s, steps, f)
    requires s.phases[f].call < |s.calls| && own < |s.timers| && s.calls[s.phases[f].call].timer == Some(own)
    requires !s.calls[s.phases[f].call].cancelled && forall t :: !IsLate(s, s.phases[f].call, t)
    ensures Marked(Run(s, steps), s.phases[f].call) ==> s.timers[own].due <= Run(s, steps).clock
    decreases |steps|
  {
    hide Inv, Enabled, Exec, IsLate, Resumes, Hits;
    if steps != [] {
      var c, step := s.phases[f].call, steps[0];
      RunsRest(s, steps);
      var to := Exec(s, step);
      ParkKeepsTimer(s, step, f);
      DueStays(s, step, own);
      forall t
        ensures !IsLate(to, c, t)
      {
        LateIsExact(s, step, c, t);
        LateAfterIs(s, to, step, c, t);
      }
      MarkIsExact(s, step, c);
      HitIsMark(s, step, c);
      if Marks(s, step, c) {
        EarlyIsLate(s, step, c);
        OwnIsDue(s, step, own);
        ClockGrows(s, steps);
      } else {
        NotBeforeDue(to, steps[1..], f, own);
      }
    }
  }

  lemma OwnIsDue(s: State, step: Step, t: nat)
    requires Inv(s) && Enabled(s, step) && step.RunTimer? && step.t == t
    ensures t < |s.timers| && s.timers[t].due <= s.clock
  {
    hide Inv;
    RunsWhenDue(s, t);
  }

  /**
   * A timed call waits its time: a fiber that parks while no timer of its call is late is not marked as
   * timed out, as long as it is parked, before the timeout has passed since.
   */
  lemma TimeoutTakesItsTime(s: State, f: nat, steps: seq<Step>)
    requires Inv(s) && Enabled(s, Block(f, true)) && s.calls[s.phases[f].call].timed
    requires forall t :: !IsLate(s, s.phases[f].call, t)
    requires Inv(Exec(s, Block(f, true))) && Runs(Exec(s, Block(f, true)), steps)
    requires f in Exec(s, Block(f, true)).phases && Stays(Exec(s, Block(f, true)), steps, f)
    ensures var end, c := Run(Exec(s, Block(f, true)), steps), s.phases[f].call;
            Marked(end, c) ==> s.clock + s.calls[c].to <= end.clock
  {
    hide I.Inv, Agree, CallsAgree, Exec, IsLate, Runs, Run, Stays;
    ParkSetsTimer(s, f);
    NotBeforeDue(Exec(s, Block(f, true)), steps, f, |s.timers|);
  }

  // ----- A late timer ahead of its fiber -----

  /** The first call stands in the queue before any place of the second. */
  predicate Ahead(queue: seq<S.Task>, a: S.Callable, b: S.Callable) {
    exists i | 0 <= i < |queue| :: queue[i].call == a && forall j | 0 <= j <= i :: queue[j].call != b
  }

  lemma AheadStays(queue: seq<S.Task>, longer: seq<S.Task>, a: S.Callable, b: S.Callable)
    requires Ahead(queue, a, b) && queue <= longer
    ensures Ahead(longer, a, b)
  {
    var i :| 0 <= i < |queue| && queue[i].call == a && forall j | 0 <= j <= i :: queue[j].call != b;
    assert longer[i].call == a;
  }

  lemma AheadMoves(queue: seq<S.Task>, a: S.Callable, b: S.Callable)
    requires Ahead(queue, a, b)
    ensures queue != [] && queue[0].call != b
    ensures queue[0].call != a ==> Ahead(queue[1..], a, b)
  {
    var i :| 0 <= i < |queue| && queue[i].call == a && forall j | 0 <= j <= i :: queue[j].call != b;
    if i > 0 {
      assert queue[1..][i - 1].call == a;
      assert forall j | 0 <= j <= i - 1 :: queue[1..][j] == queue[j + 1];
    }
  }

  // Every step but the worker's only appends to the queue.

  lemma TriggerAllAppends(io: I.Io, fd: nat, events: set<I.Event>)
    requires fd < |io.ctxs| && I.TriggerAll(io, fd, events).Done?
    ensures io.sched.queue <= I.TriggerAll(io, fd, events).io.sched.queue
  {
  }

  lemma DeliverAppends(io: I.Io, fd: nat, flags: set<I.Flag>, works: bool)
    requires fd < |io.ctxs| && I.Deliver(io, fd, flags, works).Done?
    ensures io.sched.queue <= I.Deliver(io, fd, flags, works).io.sched.queue
  {
    hide I.TriggerAll, I.CtlLeft, I.Meant;
    var armed := io.ctxs[fd].events;
    var meant := I.Meant(flags, armed);
    var epoll := I.CtlLeft(io, fd, armed - meant, works);
    if armed * meant != {} && epoll.Some? { TriggerAllAppends(io.(epoll := epoll.value), fd, meant); }
  }

  lemma {:induction false} ReportsAppend(io: I.Io, reports: seq<I.Report>)
    requires forall i | 0 <= i < |reports| :: reports[i].fd < |io.ctxs|
    requires I.DeliverEach(io, reports).Done?
    ensures io.sched.queue <= I.DeliverEach(io, reports).io.sched.queue
    decreases |reports|
  {
    hide I.Deliver;
    if reports != [] {
      var r := I.Deliver(io, reports[0].fd, reports[0].flags, reports[0].works);
      I.DeliverKeepsSize(io, reports[0].fd, reports[0].flags, reports[0].works);
      DeliverAppends(io, reports[0].fd, reports[0].flags, reports[0].works);
      ReportsAppend(r.io, reports[1..]);
    }
  }

  lemma CancelAppends(io: I.Io, fd: nat, e: I.Event, works: bool)
    requires I.CancelEvent(io, fd, e, works).Done?
    ensures io.sched.queue <= I.CancelEvent(io, fd, e, works).io.sched.queue
  {
    hide I.CtlLeft;
  }

  lemma CloseAppends(io: I.Io, fd: nat, works: bool)
    requires I.CancelAll(io, fd, works).Done?
    ensures io.sched.queue <= I.CancelAll(io, fd, works).io.sched.queue
  {
    hide I.TriggerAll, I.Ctl;
    if fd < |io.ctxs| && io.ctxs[fd].events != {} {
      var epoll := I.Ctl(io.epoll, I.DEL, fd, {}, works);
      if epoll.Some? { TriggerAllAppends(io.(epoll := epoll.value), fd, io.ctxs[fd].events); }
    }
  }

  lemma StepAppends(s: State, step: Step)
    requires Inv(s) && Enabled(s, step) && !step.Take?
    ensures s.io.sched.queue <= Exec(s, step).io.sched.queue
  {
    hide I.Inv, Agree, CallsAgree, I.CancelEvent, I.CancelAll, I.DelEvent, I.DeliverEach, I.AddEvent, S.DoTake;
    match step
    case Spawn(_) =>
    case Begin(_, _, _, _, _, _) =>
    case Return(g) => ReturnKnown(s, g);
    case Block(g, works) =>
      BusyIsCounted(s);
      var call := s.calls[s.phases[g].call];
      BlockIo(s, g, call.fd, call.event, works);
    case End(_) =>
    case Tick(_) =>
    case Expire(_) =>
    case RunTimer(u, works) =>
      BusyIsCounted(s);
      TimerKnown(s, u);
      var call := s.calls[s.timers[u].call];
      I.CancelIsExact(s.io, call.fd, call.event, works);
      CancelAppends(s.io, call.fd, call.event, works);
    case Reports(reports) => I.WaitKeepsInv(s.io, reports); ReportsAppend(s.io, reports);
    case CancelOne(fd, e, works) => I.CancelIsExact(s.io, fd, e, works); CancelAppends(s.io, fd, e, works);
    case CloseAll(fd, works) => I.CancelAllIsExact(s.io, fd, works); CloseAppends(s.io, fd, works);
    case Delete(fd, e, works) => DeleteAppends(s.io, fd, e, works);
  }

  lemma DeleteAppends(io: I.Io, fd: nat, e: I.Event, works: bool)
    requires I.Inv(io)
    ensures I.DelEvent(io, fd, e, works).Done? && io.sched == I.DelEvent(io, fd, e, works).io.sched
  {
    hide I.CtlLeft, I.Inv, I.Disarmed;
  }

  /** The worker goes on with what it does, or stops: the running fiber parks or ends, or the callback is over. */
  lemma RunningAfter(s: State, step: Step)
    requires Inv(s) && Enabled(s, step) && !step.Take?
    ensures Running(Exec(s, step).io) == Running(s.io)
         || (Running(Exec(s, step).io) == S.Empty && (Running(s.io).Fiber? || step.RunTimer?))
  {
    hide I.Inv, Agree, CallsAgree, I.CancelEvent, I.CancelAll, I.DelEvent, I.DeliverEach, I.AddEvent, I.Waits;
    match step
    case Spawn(_) =>
    case Begin(_, _, _, _, _, _) =>
    case Return(g) => ReturnKnown(s, g);
    case Block(g, works) =>
      BusyIsCounted(s);
      var call := s.calls[s.phases[g].call];
      BlockIo(s, g, call.fd, call.event, works);
    case End(_) => BusyIsCounted(s);
    case Tick(_) =>
    case Expire(_) =>
    case RunTimer(u, works) =>
      BusyIsCounted(s);
      TimerKnown(s, u);
      var call := s.calls[s.timers[u].call];
      I.CancelIsExact(s.io, call.fd, call.event, works);
    case Reports(reports) => I.ArmedReports(s.io, reports); I.WaitKeepsInv(s.io, reports); ReportsShrink(s.io, reports);
    case CancelOne(fd, e, works) => CancelOneKeepsInv(s, fd, e, works);
    case CloseAll(fd, works) => CloseKeepsHeld(s.io, fd, works);
    case Delete(fd, e, works) => DeleteAppends(s.io, fd, e, works);
  }

  lemma CloseKeepsHeld(io: I.Io, fd: nat, works: bool)
    requires I.Inv(io)
    ensures I.CancelAll(io, fd, works).Done? && I.CancelAll(io, fd, works).io.sched.held == io.sched.held
  {
    hide I.Inv, I.CancelAll, I.Waits;
    I.CancelAllIsExact(io, fd, works);
  }

  /**
   * The fiber is parked in the call, which is unmarked, and the callback of a timer of an earlier park runs
   * or stands ahead of the fiber and of the timer of this park.
   */
  predicate Doomed(s: State, f: nat, c: nat, n: nat, t: nat) {
    && f in s.phases && s.phases[f] == Parked(c, n) && c < |s.calls| && !s.calls[c].cancelled && IsLate(s, c, t)
    && (Running(s.io) == S.Callback(t) || Overtakes(s, f, c, t))
  }

  predicate Overtakes(s: State, f: nat, c: nat, t: nat)
    requires c < |s.calls|
  {
    var queue, own := s.io.sched.queue, s.calls[c].timer;
    && Ahead(queue, S.Callback(t), S.Fiber(f))
    && (own.Some? ==> Ahead(queue, S.Callback(t), S.Callback(own.value)) && Running(s.io) != S.Callback(own.value))
  }

  lemma FirstIsTaken(s: State)
    requires Inv(s) && W !in s.io.sched.held && s.io.sched.queue != []
    ensures var sched := S.DoTake(s.io.sched, W);
            && sched.queue == s.io.sched.queue[1..] && Running(WithSched(s.io, sched)) == s.io.sched.queue[0].call
            && Running(s.io) == S.Empty
  {
    hide I.Inv, CallsAgree, FiberAgrees, TimerAgrees, WaiterAgrees, CallKnown;
    assert S.Pick(s.io.sched.queue, W) == 0;
  }

  /** Taking another task leaves a parked fiber parked. */
  lemma TakeKeepsPhase(s: State, f: nat)
    requires f in s.phases && s.phases[f].Parked?
    requires Running(WithSched(s.io, S.DoTake(s.io.sched, W))) != S.Fiber(f)
    ensures f in DoTake(s).phases && DoTake(s).phases[f] == s.phases[f]
    ensures DoTake(s).io == WithSched(s.io, S.DoTake(s.io.sched, W))
  {
    hide S.DoTake;
  }

  lemma OthersKeepPhase(s: State, step: Step, f: nat)
    requires Inv(s) && Enabled(s, step) && !step.Take? && f in s.phases && s.phases[f].Parked?
    ensures f in Exec(s, step).phases && Exec(s, step).phases[f] == s.phases[f]
  {
    hide I.Inv, Agree, CallsAgree, I.CancelEvent, I.CancelAll, I.DelEvent, I.DeliverEach, I.AddEvent;
    hide S.DoFinish, S.DoSchedule;
    match step
    case Spawn(_) =>
    case Begin(_, _, _, _, _, _) =>
    case Return(g) => ReturnKnown(s, g);
    case Block(g, _) => BusyIsCounted(s);
    case End(_) =>
    case Tick(_) =>
    case Expire(_) =>
    case RunTimer(u, _) => BusyIsCounted(s); TimerKnown(s, u);
    case _ =>
  }

  lemma DoomedTake(s: State, f: nat, c: nat, n: nat, t: nat)
    requires Inv(s) && W !in s.io.sched.held && Doomed(s, f, c, n, t)
    ensures Doomed(DoTake(s), f, c, n, t)
  {
    hide I.Inv, Agree, CallsAgree, IsLate, Ahead, S.DoTake, DoTake, InQueue;
    var queue, own := s.io.sched.queue, s.calls[c].timer;
    AheadMoves(queue, S.Callback(t), S.Fiber(f));
    if own.Some? { AheadMoves(queue, S.Callback(t), S.Callback(own.value)); }
    FirstIsTaken(s);
    TakeKeepsPhase(s, f);
    ParkKeepsTimer(s, Take, f);
    LateIsExact(s, Take, c, t);
    LateAfterIs(s, DoTake(s), Take, c, t);
    MarkIsExact(s, Take, c);
  }

  lemma DoomedOther(s: State, step: Step, f: nat, c: nat, n: nat, t: nat)
    requires Inv(s) && Enabled(s, step) && !step.Take? && Doomed(s, f, c, n, t)
    ensures MarksEarly(s, step, c) || Doomed(Exec(s, step), f, c, n, t)
  {
    hide Inv, Enabled, IsLate, Ahead, Exec, InQueue;
    var to, own := Exec(s, step), s.calls[c].timer;
    OthersKeepPhase(s, step, f);
    ParkKeepsTimer(s, step, f);
    StepAppends(s, step);
    RunningAfter(s, step);
    LateIsExact(s, step, c, t);
    LateAfterIs(s, to, step, c, t);
    MarkIsExact(s, step, c);
    LateIsNotOwn(s, f, c, n, t);
    RunsItself(s, step, c);
    if Overtakes(s, f, c, t) {
      AheadStays(s.io.sched.queue, to.io.sched.queue, S.Callback(t), S.Fiber(f));
      if own.Some? { AheadStays(s.io.sched.queue, to.io.sched.queue, S.Callback(t), S.Callback(own.value)); }
    }
  }

  lemma LateIsNotOwn(s: State, f: nat, c: nat, n: nat, t: nat)
    requires Inv(s) && f in s.phases && s.phases[f] == Parked(c, n) && IsLate(s, c, t)
    ensures t < |s.timers| && s.timers[t].call == c && c < |s.calls| && s.calls[c].timer != Some(t)
  {
    hide I.Inv, Agree, CallsAgree;
    ParkedIn(s, f);
  }

  lemma RunsItself(s: State, step: Step, c: nat)
    requires Inv(s) && Enabled(s, step)
    ensures step.RunTimer? ==> Running(s.io) == S.Callback(step.t) && step.t < |s.timers| && IsRun(step, step.t)
    ensures Hits(s, step, c) ==> step.RunTimer?
  {
    hide Inv;
    if step.RunTimer? { TimerKnown(s, step.t); }
  }

  /**
   * An early mark that cannot be avoided: whatever happens, once the fiber is not in this park any more,
   * its call has been marked, and not by the timer of the park.
   */
  lemma {:induction false} DoomedIsMarkedEarly(s: State, steps: seq<Step>, f: nat, c: nat, n: nat, t: nat)
    requires Inv(s) && Runs(s, steps) && Doomed(s, f, c, n, t)
    ensures EarlyIn(s, steps, c) || Doomed(Run(s, steps), f, c, n, t)
    ensures f !in Run(s, steps).phases || Run(s, steps).phases[f] != Parked(c, n) ==> EarlyIn(s, steps, c)
    decreases |steps|
  {
    hide Inv, Enabled, Exec, MarksEarly, IsLate, Overtakes;
    if steps != [] {
      var step := steps[0];
      RunsRest(s, steps);
      DoomedStep(s, step, f, c, n, t);
      if !MarksEarly(s, step, c) { DoomedIsMarkedEarly(Exec(s, step), steps[1..], f, c, n, t); }
    }
  }

  lemma DoomedStep(s: State, step: Step, f: nat, c: nat, n: nat, t: nat)
    requires Inv(s) && Enabled(s, step) && Doomed(s, f, c, n, t)
    ensures MarksEarly(s, step, c) || Doomed(Exec(s, step), f, c, n, t)
  {
    hide Inv, DoTake, Doomed, IsLate;
    if step.Take? { DoomedTake(s, f, c, n, t); } else { DoomedOther(s, step, f, c, n, t); }
  }
}
