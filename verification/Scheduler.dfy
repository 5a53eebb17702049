/**
 * The task queue of the scheduler, worked on by any number of threads. Each critical section is
 * one step: schedule, a worker's selection of a task, the end of a task, and stop. The tasks
 * accepted so far are numbered in the order they were queued.
 */
module SchedulerSpec {
  /** What can be scheduled; an empty pointer or an empty function is dropped. */
  datatype Callable = Empty | Fiber(fiber: nat) | Callback(cb: nat)

  const ANY := -1

  /** A queued task; thread says which worker may take it, ANY for no restriction. */
  datatype Task = Task(call: Callable, thread: int, number: nat)

  /**
   * accepted: every task ever queued, by its number; held: the task each busy worker is running;
   * taker: who took each task that has left the queue; done: the tasks that have ended; tickles: how
   * often tickle was called.
   */
  datatype State = State(
    queue: seq<Task>,
    held: map<int, Task>,
    active: nat,
    stopping: bool,
    accepted: seq<Task>,
    taker: map<nat, int>,
    done: set<nat>,
    tickles: nat)

  predicate Eligible(t: Task, w: int) { t.thread == ANY || t.thread == w }

  /** The first task of the queue that the worker may take, or the end. */
  function Pick(queue: seq<Task>, w: int): (k: nat)
    ensures k <= |queue|
    ensures forall i | 0 <= i < k :: !Eligible(queue[i], w)
    ensures k < |queue| ==> Eligible(queue[k], w)
  {
    if queue == [] || Eligible(queue[0], w) then 0 else 1 + Pick(queue[1..], w)
  }

  lemma PickIs(queue: seq<Task>, w: int, k: nat)
    requires k <= |queue|
    requires forall i | 0 <= i < k :: !Eligible(queue[i], w)
    requires k < |queue| ==> Eligible(queue[k], w)
    ensures k == Pick(queue, w)
  {
  }

  // ----- The steps -----

  /** Who schedules: somebody outside, or a worker that is running a task. */
  datatype Author = Outside | Worker(w: int)

  datatype Step =
    | Schedule(author: Author, call: Callable, thread: int)
    | Take(w: int)
    | Finish(w: int)
    | Stop(workers: nat)

  /** Only a running task schedules from a worker, only an idle worker looks for a task. */
  predicate Enabled(s: State, step: Step) {
    match step
    case Schedule(author, _, _) => author.Worker? ==> author.w in s.held
    case Take(w) => w !in s.held && w != ANY
    case Finish(w) => w in s.held
    case Stop(_) => true
  }

  /** schedule: the waiting workers are woken exactly when the queue was empty. */
  function DoSchedule(s: State, call: Callable, thread: int): State {
    var t := s.(tickles := if s.queue == [] then s.tickles + 1 else s.tickles);
    if call == Empty then t
    else
      var task := Task(call, thread, |s.accepted|);
      t.(queue := s.queue + [task], accepted := s.accepted + [task])
  }

  /** The selection in run; a worker passes the signal on when it leaves something in the queue. */
  function DoTake(s: State, w: int): State {
    var k := Pick(s.queue, w);
    var t := if k == |s.queue| then s
             else s.(queue := s.queue[..k] + s.queue[k + 1..],
                     held := s.held[w := s.queue[k]],
                     active := s.active + 1,
                     taker := s.taker[s.queue[k].number := w]);
    if t.queue != [] then t.(tickles := t.tickles + 1) else t
  }

  function DoFinish(s: State, w: int): State
    requires w in s.held && s.active > 0
  {
    s.(held := s.held - {w}, active := s.active - 1, done := s.done + {s.held[w].number})
  }

  predicate Stopping(s: State) { s.stopping && s.queue == [] && s.active == 0 }

  /** stop: every worker is woken once, unless there is nothing left to do. */
  function DoStop(s: State, workers: nat): State {
    if Stopping(s) then s else s.(stopping := true, tickles := s.tickles + workers)
  }

  function Exec(s: State, step: Step): State
    requires Inv(s) && Enabled(s, step)
  {
    match step
    case Schedule(_, call, thread) => DoSchedule(s, call, thread)
    case Take(w) => DoTake(s, w)
    case Finish(w) => HeldIsCounted(s, w); DoFinish(s, w)
    case Stop(workers) => DoStop(s, workers)
  }

  // ----- What every step keeps -----

  predicate Queued(queue: seq<Task>, n: nat) { exists i :: 0 <= i < |queue| && queue[i].number == n }

  predicate Running(s: State, n: nat) {
    n in s.taker && s.taker[n] in s.held && s.held[s.taker[n]].number == n
  }

  /** The queue is in order of acceptance. */
  predicate QueueInOrder(s: State) {
    && (forall n | 0 <= n < |s.accepted| :: s.accepted[n].number == n && s.accepted[n].call != Empty)
    && (forall i | 0 <= i < |s.queue| :: IsAccepted(s, s.queue[i]))
    && (forall i, j | 0 <= i < j < |s.queue| :: s.queue[i].number < s.queue[j].number)
  }

  predicate IsAccepted(s: State, t: Task) { t.number < |s.accepted| && s.accepted[t.number] == t }

  /** Every accepted task is in exactly one place: the queue, its worker, or the finished ones. */
  predicate Conserved(s: State) {
    && (forall n | 0 <= n < |s.accepted| :: n in s.done || Queued(s.queue, n) || Running(s, n))
    && (forall n | n in s.done :: n < |s.accepted| && !Queued(s.queue, n) && !Running(s, n))
    && forall w | w in s.held ::
         IsAccepted(s, s.held[w]) && Running(s, s.held[w].number) && s.taker[s.held[w].number] == w
  }

  /** The active count is the number of running tasks. */
  predicate Counted(s: State) { s.active == |s.held| }

  /** A task has left the queue exactly if somebody took it, who may run it. */
  predicate Placed(s: State) {
    && (forall n | n in s.taker ::
          n < |s.accepted| && !Queued(s.queue, n) && s.taker[n] != ANY && Eligible(s.accepted[n], s.taker[n]))
    && forall n | 0 <= n < |s.accepted| && !Queued(s.queue, n) :: n in s.taker
  }

  /** Nothing that waits was passed over by a worker that could have taken it. */
  predicate Fair(s: State) {
    forall i, n | 0 <= i < |s.queue| && n in s.taker && s.queue[i].number < n :: !Eligible(s.queue[i], s.taker[n])
  }

  ghost predicate Inv(s: State) { QueueInOrder(s) && Conserved(s) && Counted(s) && Placed(s) && Fair(s) }

  lemma HeldIsCounted(s: State, w: int)
    requires Counted(s) && w in s.held
    ensures s.active > 0
  {
    assert |s.held| == |s.held.Keys|;
    assert s.held.Keys != {};
  }

  lemma QueuedPush(queue: seq<Task>, t: Task, n: nat)
    ensures Queued(queue + [t], n) <==> Queued(queue, n) || n == t.number
  {
    var q := queue + [t];
    assert q[|queue|] == t;
    if Queued(queue, n) {
      var i :| 0 <= i < |queue| && queue[i].number == n;
      assert q[i] == queue[i];
    }
  }

  lemma QueuedTake(queue: seq<Task>, k: nat, n: nat)
    requires k < |queue|
    requires forall i, j | 0 <= i < j < |queue| :: queue[i].number < queue[j].number
    ensures Queued(queue[..k] + queue[k + 1..], n) <==> Queued(queue, n) && n != queue[k].number
  {
    var q := queue[..k] + queue[k + 1..];
    assert forall i | 0 <= i < |q| :: q[i] == queue[if i < k then i else i + 1];
    if Queued(queue, n) && n != queue[k].number {
      var i :| 0 <= i < |queue| && queue[i].number == n;
      assert q[if i < k then i else i - 1] == queue[i];
    }
  }

  lemma ScheduleKeepsInv(s: State, call: Callable, thread: int)
    requires Inv(s)
    ensures Inv(DoSchedule(s, call, thread))
  {
    hide Queued, Eligible;
    if call != Empty {
      var t := DoSchedule(s, call, thread);
      forall n: nat
        ensures Queued(t.queue, n) <==> Queued(s.queue, n) || n == |s.accepted|
      {
        QueuedPush(s.queue, t.accepted[|s.accepted|], n);
      }
    }
  }

  /** A worker that finds a task takes it out of the queue and nothing else. */
  lemma TakeQueue(s: State, w: int)
    requires QueueInOrder(s) && Pick(s.queue, w) < |s.queue|
    ensures var t, k := DoTake(s, w), Pick(s.queue, w);
            && QueueInOrder(t)
            && (forall n: nat :: Queued(t.queue, n) <==> Queued(s.queue, n) && n != s.queue[k].number)
            && (forall i | 0 <= i < |t.queue| :: t.queue[i] == s.queue[if i < k then i else i + 1])
            && IsAccepted(s, s.queue[k]) && Queued(s.queue, s.queue[k].number) && Eligible(s.queue[k], w)
  {
    hide Queued, IsAccepted, Eligible;
    var k := Pick(s.queue, w);
    MemberIsQueued(s.queue, k);
    assert DoTake(s, w).accepted == s.accepted;
    SameAccepted(s, DoTake(s, w));
    forall n: nat
      ensures Queued(DoTake(s, w).queue, n) <==> Queued(s.queue, n) && n != s.queue[k].number
    {
      QueuedTake(s.queue, k, n);
    }
  }

  lemma SameAccepted(s: State, t: State)
    requires s.accepted == t.accepted
    ensures forall task :: IsAccepted(s, task) <==> IsAccepted(t, task)
  {
  }

  lemma MemberIsQueued(queue: seq<Task>, k: nat)
    requires k < |queue|
    ensures Queued(queue, queue[k].number)
  {
  }

  /** Where each task is after a worker has taken one. */
  lemma TakePlaces(s: State, w: int)
    requires QueueInOrder(s) && Conserved(s) && Placed(s) && w !in s.held && Pick(s.queue, w) < |s.queue|
    ensures var t, q := DoTake(s, w), s.queue[Pick(s.queue, w)].number;
            && Running(t, q) && !Running(s, q) && q !in s.done
            && forall n: nat | n != q :: Running(t, n) <==> Running(s, n)
  {
    hide Queued, QueueInOrder, Eligible, Pick;
    TakeQueue(s, w);
  }

  lemma TakeKeepsConserved(s: State, w: int)
    requires Inv(s) && w !in s.held && Pick(s.queue, w) < |s.queue|
    ensures Conserved(DoTake(s, w))
  {
    hide Queued, QueueInOrder, Eligible, Pick, Fair, Running, Placed;
    TakeQueue(s, w);
    TakePlaces(s, w);
    TakerStays(s, w);
    SameAccepted(s, DoTake(s, w));
  }

  lemma TakerStays(s: State, w: int)
    requires Inv(s) && w !in s.held && Pick(s.queue, w) < |s.queue|
    ensures var t, q := DoTake(s, w), s.queue[Pick(s.queue, w)];
            && (forall v | v in s.held :: s.held[v].number in s.taker && s.held[v].number != q.number
                                          && t.taker[s.held[v].number] == s.taker[s.held[v].number])
            && t.taker[q.number] == w && t.held == s.held[w := q]
  {
    hide Queued, QueueInOrder, Eligible, Pick, Fair;
    TakeQueue(s, w);
  }

  lemma TakeKeepsPlaced(s: State, w: int)
    requires Inv(s) && w != ANY && Pick(s.queue, w) < |s.queue|
    ensures Placed(DoTake(s, w))
  {
    hide Queued, QueueInOrder, Pick, Fair, Conserved;
    TakeQueue(s, w);
  }

  lemma TakeKeepsFair(s: State, w: int)
    requires Inv(s) && Pick(s.queue, w) < |s.queue|
    ensures Fair(DoTake(s, w))
  {
    hide Queued, Conserved, Placed, Eligible;
    TakeQueue(s, w);
  }

  lemma TakeKeepsInv(s: State, w: int)
    requires Inv(s) && w !in s.held && w != ANY
    ensures Inv(DoTake(s, w))
  {
    hide Queued, Conserved, Placed, QueueInOrder, Fair;
    var k := Pick(s.queue, w);
    if k < |s.queue| {
      TakeQueue(s, w);
      TakeKeepsConserved(s, w);
      TakeKeepsPlaced(s, w);
      TakeKeepsFair(s, w);
    } else {
      SignalKeepsInv(s, DoTake(s, w).tickles);
    }
  }

  /** The invariant does not depend on signals given. */
  lemma SignalKeepsInv(s: State, tickles: nat)
    requires Inv(s)
    ensures Inv(s.(tickles := tickles))
  {
    hide Queued, Eligible;
  }

  lemma FinishKeepsInv(s: State, w: int)
    requires Inv(s) && w in s.held && s.active > 0
    ensures Inv(DoFinish(s, w))
  {
    hide Queued;
    assert (s.held - {w}).Keys == s.held.Keys - {w};
    assert |s.held| == |s.held.Keys| && |s.held - {w}| == |(s.held - {w}).Keys|;
  }

  lemma ExecKeepsInv(s: State, step: Step)
    requires Inv(s) && Enabled(s, step)
    ensures Inv(Exec(s, step))
  {
    hide Inv, DoSchedule, DoTake, DoFinish;
    match step
    case Schedule(_, call, thread) => ScheduleKeepsInv(s, call, thread);
    case Take(w) => TakeKeepsInv(s, w);
    case Finish(w) => FinishCounted(s, w); FinishKeepsInv(s, w);
    case Stop(workers) => StopKeepsInv(s, workers);
  }

  lemma FinishCounted(s: State, w: int)
    requires Inv(s) && w in s.held
    ensures s.active > 0
  {
    HeldIsCounted(s, w);
  }

  lemma StopKeepsInv(s: State, workers: nat)
    requires Inv(s)
    ensures Inv(DoStop(s, workers))
  {
    hide Queued, Eligible;
  }

  // ----- Every run -----

  const Fresh: State := State([], map[], 0, false, [], map[], {}, 0)

  /** The states that some run of any number of workers reaches. */
  predicate Runs(s: State, steps: seq<Step>)
    requires Inv(s)
    decreases |steps|
  {
    steps == [] ||
    (&& Enabled(s, steps[0])
     && (ExecKeepsInv(s, steps[0]); Runs(Exec(s, steps[0]), steps[1..])))
  }

  function Run(s: State, steps: seq<Step>): (t: State)
    requires Inv(s) && Runs(s, steps)
    ensures Inv(t)
    decreases |steps|
  {
    if steps == [] then s
    else
      ExecKeepsInv(s, steps[0]);
      Run(Exec(s, steps[0]), steps[1..])
  }

  /** A step only adds to what happened: tasks keep their numbers, takers and ends. */
  predicate Extends(s: State, t: State) {
    && |s.accepted| <= |t.accepted| && t.accepted[..|s.accepted|] == s.accepted
    && (forall n | n in s.taker :: n in t.taker && t.taker[n] == s.taker[n])
    && s.done <= t.done
    && (s.stopping ==> t.stopping)
  }

  lemma ExecExtends(s: State, step: Step)
    requires Inv(s) && Enabled(s, step)
    ensures Extends(s, Exec(s, step))
  {
    hide Fair, Conserved, Queued, Eligible, Pick, QueueInOrder;
    if step.Take? && Pick(s.queue, step.w) < |s.queue| {
      TakeQueue(s, step.w);
    }
  }

  /**
   * Order of service over whole runs: once a task has been taken by a worker, every earlier task
   * that worker may run has been taken too. In particular a task for any worker is never overtaken.
   */
  lemma NeverOvertaken(s: State, m: nat, n: nat)
    requires Inv(s) && m < n && n in s.taker && Eligible(s.accepted[m], s.taker[n])
    ensures m in s.taker
  {
    hide Conserved, Queued;
    if Queued(s.queue, m) { WaitingIsIneligible(s, m, n); }
  }

  lemma WaitingIsIneligible(s: State, m: nat, n: nat)
    requires Inv(s) && m < n && n in s.taker && Queued(s.queue, m)
    ensures m < |s.accepted| && !Eligible(s.accepted[m], s.taker[n])
  {
    hide Conserved, Placed;
    var i :| 0 <= i < |s.queue| && s.queue[i].number == m;
    assert IsAccepted(s, s.queue[i]);
  }

  // ----- Signals -----

  /** The steps that give a signal while something is queued: a worker that looks, or a call of stop. */
  predicate Signals(step: Step) { step.Take? || (step.Stop? && step.workers > 0) }

  /** While a task stays queued, a step gives a signal exactly if it is one of those. */
  lemma StepSignals(s: State, step: Step, n: nat)
    requires Inv(s) && Enabled(s, step) && n < |s.accepted| && Queued(Exec(s, step).queue, n)
    ensures Queued(s.queue, n) && n < |Exec(s, step).accepted|
    ensures Exec(s, step).tickles >= s.tickles
    ensures Exec(s, step).tickles > s.tickles <==> Signals(step)
  {
    hide Fair, Conserved, Counted, Eligible, IsAccepted;
    ExecKeepsInv(s, step);
    ExecExtends(s, step);
    StillQueued(s, Exec(s, step), n);
    QueuedMeansSome(s.queue, n);
    QueuedMeansSome(Exec(s, step).queue, n);
  }

  lemma StillQueued(s: State, t: State, n: nat)
    requires Inv(s) && Inv(t) && Extends(s, t) && n < |s.accepted| && Queued(t.queue, n)
    ensures Queued(s.queue, n)
  {
    hide Fair, Conserved, Counted, Eligible, Queued;
  }

  lemma QueuedMeansSome(queue: seq<Task>, n: nat)
    requires Queued(queue, n)
    ensures queue != []
  {
  }

  lemma {:induction false} SignalledWhileQueued(s: State, steps: seq<Step>, n: nat)
    requires Inv(s) && Runs(s, steps) && n < |s.accepted| && Queued(Run(s, steps).queue, n)
    ensures Queued(s.queue, n)
    ensures Run(s, steps).tickles >= s.tickles
    ensures Run(s, steps).tickles > s.tickles <==> exists i | 0 <= i < |steps| :: Signals(steps[i])
    decreases |steps|
  {
    hide Inv, Queued, Signals, Exec;
    if steps != [] {
      ExecKeepsInv(s, steps[0]);
      ExecExtends(s, steps[0]);
      var t, rest := Exec(s, steps[0]), steps[1..];
      assert n < |t.accepted|;
      SignalledWhileQueued(t, rest, n);
      StepSignals(s, steps[0], n);
      if exists i | 0 <= i < |steps| :: Signals(steps[i]) {
        var i :| 0 <= i < |steps| && Signals(steps[i]);
        if i > 0 { assert Signals(rest[i - 1]); }
      }
      if exists i | 0 <= i < |rest| :: Signals(rest[i]) {
        var i :| 0 <= i < |rest| && Signals(rest[i]);
        assert Signals(steps[i + 1]);
      }
    }
  }

  /**
   * Signals for a queued task: for as long as it waits, the workers have been signalled since it was
   * queued if and only if the queue was empty then, or a worker has looked at it, or stop was called.
   * A task queued behind another one, whose worker is busy, by itself wakes nobody.
   */
  lemma SignalIsExact(s: State, author: Author, call: Callable, thread: int, steps: seq<Step>)
    requires Inv(s) && call != Empty && Runs(s, [Schedule(author, call, thread)] + steps)
    requires Queued(Run(s, [Schedule(author, call, thread)] + steps).queue, |s.accepted|)
    ensures Run(s, [Schedule(author, call, thread)] + steps).tickles > s.tickles
       <==> s.queue == [] || exists i | 0 <= i < |steps| :: Signals(steps[i])
  {
    hide Inv, Queued, Signals;
    var step := Schedule(author, call, thread);
    assert ([step] + steps)[1..] == steps;
    ExecKeepsInv(s, step);
    SignalledWhileQueued(Exec(s, step), steps, |s.accepted|);
  }

  /** Anybody may schedule from outside, an idle worker may look for a task, a busy one end it, and anybody stop. */
  lemma EnabledIs(s: State, step: Step)
    ensures (step.Schedule? && step.author == Outside) || step.Stop? ==> Enabled(s, step)
    ensures step.Schedule? && step.author.Worker? ==> (Enabled(s, step) <==> step.author.w in s.held)
    ensures step.Take? ==> (Enabled(s, step) <==> step.w !in s.held && step.w != -1)
    ensures step.Finish? ==> (Enabled(s, step) <==> step.w in s.held)
  {
  }

  /** How many signals a step gives. */
  lemma TicklesAre(s: State, step: Step)
    requires Inv(s) && Enabled(s, step)
    ensures var to := Exec(s, step);
            to.tickles - s.tickles ==
            match step
            case Schedule(_, _, _) => if s.queue == [] then 1 else 0
            case Take(_) => if to.queue == [] then 0 else 1
            case Finish(_) => 0
            case Stop(workers) => if s.stopping && s.queue == [] && s.active == 0 then 0 else workers
  {
    hide Inv;
  }

  /** What is scheduled goes to the end of the queue, for the worker named; an empty callable is dropped. */
  lemma ScheduledIs(s: State, author: Author, call: Callable, thread: int)
    requires Inv(s) && Enabled(s, Schedule(author, call, thread))
    ensures var to := Exec(s, Schedule(author, call, thread));
            && to == s.(queue := to.queue, accepted := to.accepted, tickles := to.tickles)
            && if call == Empty then to.queue == s.queue && to.accepted == s.accepted
               else
                 && |to.queue| == |s.queue| + 1 && to.queue[..|s.queue|] == s.queue
                 && to.queue[|s.queue|].call == call && to.queue[|s.queue|].thread == thread
                 && to.accepted == s.accepted + [to.queue[|s.queue|]]
  {
    hide Inv;
  }

  /**
   * A worker takes the first task that is for any worker or for it, and leaves the others in their order; if there
   * is none it takes nothing.
   */
  lemma TakenIs(s: State, w: int, k: nat)
    requires Inv(s) && Enabled(s, Take(w)) && k <= |s.queue|
    requires forall i | 0 <= i < k :: s.queue[i].thread != -1 && s.queue[i].thread != w
    requires k < |s.queue| ==> s.queue[k].thread == -1 || s.queue[k].thread == w
    ensures var to := Exec(s, Take(w));
            if k == |s.queue| then to == s.(tickles := to.tickles)
            else
              && to.queue == s.queue[..k] + s.queue[k + 1..] && to.held == s.held[w := s.queue[k]]
              && to.active == s.active + 1 && to.taker == s.taker[s.queue[k].number := w]
              && to.accepted == s.accepted && to.done == s.done && to.stopping == s.stopping
  {
    hide Inv;
    PickIs(s.queue, w, k);
  }

  /** A task ends, or the scheduler is told to stop; nothing else changes. */
  lemma EndsAre(s: State, step: Step)
    requires Inv(s) && Enabled(s, step) && (step.Finish? || step.Stop?)
    ensures var to := Exec(s, step);
            match step
            case Finish(w) =>
              w in s.held
              && to == s.(held := s.held - {w}, active := to.active, done := s.done + {s.held[w].number})
              && to.active == s.active - 1
            case _ =>
              to == s.(stopping := true, tickles := to.tickles)
  {
    hide Inv;
  }

  lemma FreshIsValid()
    ensures Inv(Fresh)
  {
  }

  lemma {:induction false} OneMoreStep(s: State, steps: seq<Step>, step: Step)
    requires Inv(s) && Runs(s, steps) && Enabled(Run(s, steps), step)
    ensures Runs(s, steps + [step]) && Run(s, steps + [step]) == Exec(Run(s, steps), step)
    decreases |steps|
  {
    hide Inv, Enabled, Exec;
    if steps == [] {
      assert steps + [step] == [step] && [step][1..] == [];
      ExecKeepsInv(s, step);
    } else {
      assert (steps + [step])[1..] == steps[1..] + [step];
      ExecKeepsInv(s, steps[0]);
      OneMoreStep(Exec(s, steps[0]), steps[1..], step);
    }
  }

  /** A reachable state, by the steps that lead to it. */
  ghost predicate Reached(s: State, steps: seq<Step>) {
    Inv(Fresh) && Inv(s) && Runs(Fresh, steps) && Run(Fresh, steps) == s
  }

  lemma Reach(s: State, steps: seq<Step>, step: Step)
    requires Reached(s, steps) && Enabled(s, step)
    ensures Reached(Exec(s, step), steps + [step])
  {
    hide Inv, Enabled, Exec;
    OneMoreStep(Fresh, steps, step);
    ExecKeepsInv(s, step);
  }

  lemma FreshIsReached()
    ensures Reached(Fresh, [])
  {
    hide Inv;
    FreshIsValid();
  }

  // Two tasks for worker 1, of which the first is run while the second waits.

  const FIRST := Task(Callback(0), 1, 0)
  const SECOND := Task(Callback(1), 1, 1)

  const WAITING: State := State([FIRST], map[], 0, false, [FIRST], map[], {}, 1)
  const RUNNING: State := State([], map[1 := FIRST], 1, false, [FIRST], map[0 := 1], {}, 1)
  const BUSY: State := State([SECOND], map[1 := FIRST], 1, false, [FIRST, SECOND], map[0 := 1], {}, 2)

  lemma FirstIsTaken()
    ensures DoTake(WAITING, 1) == RUNNING
  {
    assert Pick([FIRST], 1) == 0;
    assert [FIRST][..0] + [FIRST][1..] == [];
  }

  lemma SecondIsQueued()
    ensures DoSchedule(Fresh, FIRST.call, 1) == WAITING && DoSchedule(RUNNING, SECOND.call, 1) == BUSY
  {
    assert [] + [FIRST] == [FIRST] && [] + [SECOND] == [SECOND] && [FIRST] + [SECOND] == [FIRST, SECOND];
  }

  lemma BusyIsReached() returns (steps: seq<Step>)
    ensures Reached(BUSY, steps)
  {
    hide Inv, Reached, DoSchedule, DoTake;
    FreshIsReached();
    FirstIsTaken();
    SecondIsQueued();
    ReachedIsValid(Fresh, []);
    steps := [Schedule(Outside, FIRST.call, 1)];
    Reach(Fresh, [], steps[0]);
    assert [] + steps == steps;
    ReachedIsValid(WAITING, steps);
    Reach(WAITING, steps, Take(1));
    steps := steps + [Take(1)];
    ReachedIsValid(RUNNING, steps);
    Reach(RUNNING, steps, Schedule(Outside, SECOND.call, 1));
    steps := steps + [Schedule(Outside, SECOND.call, 1)];
  }

  lemma ReachedIsValid(s: State, steps: seq<Step>)
    requires Reached(s, steps)
    ensures Inv(s)
  {
  }

  /** In a reached state a task for any worker, queued behind one for a busy worker, signals nobody. */
  lemma NobodyIsWoken() returns (s: State, steps: seq<Step>)
    ensures Reached(s, steps) && 1 in s.held && s.queue != [] && s.queue[0].thread == 1
    ensures var to := DoSchedule(s, Callback(2), ANY);
            && to.queue == s.queue + [Task(Callback(2), ANY, |s.accepted|)] && to.tickles == s.tickles
  {
    hide Inv, Reached;
    s := BUSY;
    steps := BusyIsReached();
  }

  // ----- Quiescence -----

  lemma SomebodyRuns(s: State) returns (w: int)
    requires Conserved(s) && Counted(s) && s.active != 0
    ensures w in s.held && s.held[w].number < |s.accepted| && s.held[w].number !in s.done
  {
    assert (forall v: int :: v !in s.held) ==> s.held == map[];
    w :| w in s.held;
  }

  lemma FirstWaits(s: State)
    requires QueueInOrder(s) && Conserved(s) && s.queue != []
    ensures s.queue[0].number < |s.accepted| && s.queue[0].number !in s.done
  {
    MemberIsQueued(s.queue, 0);
    assert IsAccepted(s, s.queue[0]);
  }

  /** The scheduler is stopping exactly when it was told to and every accepted task has ended. */
  lemma StoppingIsExact(s: State)
    requires Inv(s)
    ensures Stopping(s) <==> s.stopping && forall n | 0 <= n < |s.accepted| :: n in s.done
  {
    if s.queue != [] {
      FirstWaits(s);
    } else if s.active != 0 {
      var w := SomebodyRuns(s);
    } else {
      assert |s.held| == |s.held.Keys|;
      assert s.held.Keys == {};
    }
  }

  /** Once stopping, nothing but a task scheduled from outside changes anything but signals. */
  lemma {:induction false} StoppingIsForever(s: State, steps: seq<Step>)
    requires Inv(s) && Runs(s, steps) && Stopping(s)
    requires forall i | 0 <= i < |steps| :: steps[i].Schedule? ==> steps[i].author.Worker?
    ensures Stopping(Run(s, steps))
    ensures Run(s, steps) == s.(tickles := Run(s, steps).tickles)
    decreases |steps|
  {
    hide Inv;
    if steps != [] {
      StoppingStep(s, steps[0]);
      ExecKeepsInv(s, steps[0]);
      StoppingIsForever(Exec(s, steps[0]), steps[1..]);
    }
  }

  lemma StoppingStep(s: State, step: Step)
    requires Inv(s) && Enabled(s, step) && Stopping(s) && (step.Schedule? ==> step.author.Worker?)
    ensures Exec(s, step) == s.(tickles := Exec(s, step).tickles)
  {
    assert |s.held| == |s.held.Keys|;
  }
}

/** The scheduler as an object: each critical section is a method that takes the state one step. */
module Schedulers {
  import opened SchedulerSpec

  datatype Choice = Nothing | Some(task: Task)

  class Scheduler {
    var tasks: seq<Task>
    var active: nat
    var stopFlag: bool
    var tickles: nat
    /** The history: every task queued so far, and below what became of it. */
    var accepted: seq<Task>
    ghost var held: map<int, Task>
    ghost var taker: map<nat, int>
    ghost var done: set<nat>

    ghost function View(): State
      reads this
    {
      State(tasks, held, active, stopFlag, accepted, taker, done, tickles)
    }

    ghost predicate Valid()
      reads this
    {
      Inv(View())
    }

    constructor ()
      ensures Valid() && View() == Fresh
    {
      tasks, active, stopFlag, tickles := [], 0, false, 0;
      held, accepted, taker, done := map[], [], map[], {};
    }

    method Tickle()
      modifies this`tickles
      ensures tickles == old(tickles) + 1
    {
      tickles := tickles + 1;
    }

    method ScheduleNoLock(call: Callable, thread: int) returns (needTickle: bool)
      modifies this`tasks, this`accepted
      ensures needTickle == (old(tasks) == [])
      ensures call == Empty ==> tasks == old(tasks) && accepted == old(accepted)
      ensures call != Empty ==> var task := Task(call, thread, |old(accepted)|);
              tasks == old(tasks) + [task] && accepted == old(accepted) + [task]
    {
      needTickle := tasks == [];
      if call != Empty {
        var task := Task(call, thread, |accepted|);
        tasks := tasks + [task];
        accepted := accepted + [task];
      }
    }

    method Schedule(call: Callable, thread: int)
      requires Valid()
      modifies this
      ensures Valid() && View() == DoSchedule(old(View()), call, thread)
    {
      hide Inv;
      ScheduleKeepsInv(View(), call, thread);
      var needTickle := ScheduleNoLock(call, thread);
      if needTickle {
        Tickle();
      }
    }

    /** One pass of the loop in run: the first task this worker may take, and the signal to the others. */
    method TakeTask(w: int) returns (choice: Choice)
      requires Valid() && w !in held && w != ANY
      modifies this
      ensures Valid() && View() == DoTake(old(View()), w)
      ensures var k := Pick(old(tasks), w);
              choice == if k < |old(tasks)| then Some(old(tasks)[k]) else Nothing
    {
      hide Inv, Pick;
      TakeKeepsInv(View(), w);
      choice := Nothing;
      var tickleMe := false;
      var it := 0;
      while it < |tasks| && !Eligible(tasks[it], w)
        invariant it <= |tasks|
        invariant forall i | 0 <= i < it :: !Eligible(tasks[i], w)
        invariant tickleMe == (it > 0)
      {
        it := it + 1;
        tickleMe := true;
      }
      PickIs(tasks, w, it);
      if it < |tasks| {
        choice := Some(tasks[it]);
        held := held[w := tasks[it]];
        taker := taker[tasks[it].number := w];
        tasks := tasks[..it] + tasks[it + 1..];
        active := active + 1;
      }
      tickleMe := tickleMe || it < |tasks|;
      if tickleMe {
        Tickle();
      }
    }

    /** The task has been run to its end or to its next yield. */
    method Finish(w: int)
      requires Valid() && w in held
      modifies this
      ensures Valid()
      ensures old(active) > 0 && View() == DoFinish(old(View()), w)
    {
      hide Inv;
      FinishCounted(View(), w);
      FinishKeepsInv(View(), w);
      done := done + {held[w].number};
      held := held - {w};
      active := active - 1;
    }

    method IsStopping() returns (b: bool)
      requires Valid()
      ensures b == Stopping(View())
      ensures b <==> stopFlag && forall n | 0 <= n < |accepted| :: n in done
    {
      StoppingIsExact(View());
      b := stopFlag && tasks == [] && active == 0;
    }

    method Stop(workers: nat)
      requires Valid()
      modifies this
      ensures Valid() && View() == DoStop(old(View()), workers)
    {
      StopKeepsInv(View(), workers);
      var b := IsStopping();
      if b {
        return;
      }
      stopFlag := true;
      var i := 0;
      while i < workers
        modifies this`tickles
        invariant i <= workers && tickles == old(tickles) + i
      {
        Tickle();
        i := i + 1;
      }
    }
  }
}
