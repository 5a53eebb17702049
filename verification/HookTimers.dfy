/**
 * The timers of the hooked calls are timers of a TimerManager: every step that makes, cancels or expires one
 * is what the manager does, under its clock.
 */
module HookTimers {
  import opened Bytes
  import opened Wrappers
  import T = TimerSpec
  import S = SchedulerSpec
  import I = IoSpec
  import opened HookSpec

  // ----- The tie -----

  /** A timer of a call, and the manager's: one-shot, of the same deadline, and armed exactly while it is in the set. */
  predicate SameTimer(h: Timer, t: nat, x: T.Timer) {
    x.next == h.due && !x.recurring && x.born && x.cb == if h.state == Set then Some(t) else None
  }

  /** The manager has just these timers, and has not looked later than now. */
  ghost predicate Tied(timers: seq<Timer>, clock: nat, m: T.Manager) {
    && T.Inv(m) && clock < TWO64 && m.previous <= clock
    && (forall t: nat :: t in m.all <==> t < |timers|)
    && forall t | 0 <= t < |timers| :: SameTimer(timers[t], t, m.all[t])
  }

  /** The set holds exactly the timers that are Set. */
  lemma SetIsOrder(timers: seq<Timer>, clock: nat, m: T.Manager, t: nat)
    requires Tied(timers, clock, m)
    ensures t in m.order <==> t < |timers| && timers[t].state == Set
  {
    if t in m.order { T.InvIsSorted(m); }
    if t < |timers| { assert SameTimer(timers[t], t, m.all[t]); }
  }

  lemma AddTies(timers: seq<Timer>, clock: nat, m: T.Manager, c: nat, to: nat)
    requires Tied(timers, clock, m) && clock + to < TWO64
    ensures T.Known(m.all, m.order)
    ensures Tied(timers + [Timer(c, clock + to, Set)], clock, T.AddTimer(m, |timers|, to, Some(|timers|), false, clock))
  {
    hide T.Inv, T.IsFirst, T.AddTimer;
    T.InvIsSorted(m);
    var a := |timers|;
    T.AddIsExact(m, a, to, Some(a), false, clock);
    assert T.Add64(clock, to) == clock + to;
    var all := T.AddTimer(m, a, to, Some(a), false, clock).all;
    forall t | 0 <= t < a + 1
      ensures SameTimer((timers + [Timer(c, clock + to, Set)])[t], t, all[t])
    {
      if t < a { assert SameTimer(timers[t], t, m.all[t]); }
    }
    AddPrevious(m, a, to, Some(a), clock);
  }

  lemma AddPrevious(m: T.Manager, a: nat, ms: u64, cb: Option<nat>, now: u64)
    requires T.Known(m.all, m.order)
    ensures T.AddTimer(m, a, ms, cb, false, now).previous == m.previous
  {
    hide T.Insert;
  }

  lemma CancelTies(timers: seq<Timer>, clock: nat, m: T.Manager, t: nat)
    requires Tied(timers, clock, m) && t < |timers|
    ensures T.Known(m.all, m.order) && t in m.all
    ensures Tied(CancelTimer(timers, Some(t)), clock, T.Cancel(m, t).0)
  {
    hide T.Inv, T.Cancel;
    T.InvIsSorted(m);
    T.CancelIsExact(m, t);
    var to, m' := CancelTimer(timers, Some(t)), T.Cancel(m, t).0;
    forall u | 0 <= u < |to|
      ensures SameTimer(to[u], u, m'.all[u])
    {
      assert SameTimer(timers[u], u, m.all[u]);
    }
    CancelPrevious(m, t);
  }

  lemma CancelPrevious(m: T.Manager, t: nat)
    requires T.Known(m.all, m.order) && t in m.all
    ensures T.Cancel(m, t).0.previous == m.previous
  {
    hide T.Find, T.Erase;
  }

  /** A timer whose callback has run was not in the set any more. */
  lemma RanTies(timers: seq<Timer>, clock: nat, m: T.Manager, t: nat)
    requires Tied(timers, clock, m) && t < |timers| && timers[t].state == Queued
    ensures Tied(timers[t := timers[t].(state := Over)], clock, m)
  {
    hide T.Inv;
    var to := timers[t := timers[t].(state := Over)];
    forall u | 0 <= u < |to|
      ensures SameTimer(to[u], u, m.all[u])
    {
      assert SameTimer(timers[u], u, m.all[u]);
    }
  }

  // ----- Looking at the set -----

  /** Exactly the timers that may expire are taken by listExpiredCb, and it hands over their callbacks. */
  lemma ExpireIsListed(s: State, m: T.Manager, probe: nat, t: nat)
    requires Inv(s) && Tied(s.timers, s.clock, m)
    ensures T.Known(m.all, m.order)
    ensures var k := T.Count(m, s.clock, probe);
            && (Enabled(s, Expire(t)) <==> t in m.order[..k])
            && |T.ListExpired(m, s.clock, probe).1| == k
            && forall i | 0 <= i < k :: T.ListExpired(m, s.clock, probe).1[i] == Some(m.order[i])
  {
    hide HookSpec.Inv, T.Inv, T.ListExpired, T.Rollover, T.Count;
    T.InvIsSorted(m);
    var k := T.Count(m, s.clock, probe);
    T.RolloverIsExact(m.previous, s.clock);
    T.CountIsExact(m, s.clock, probe);
    T.ExpiryIsExact(m, s.clock, probe);
    SetIsOrder(s.timers, s.clock, m, t);
    if t in m.order {
      var i :| 0 <= i < |m.order| && m.order[i] == t;
      assert SameTimer(s.timers[t], t, m.all[t]);
      if i < k { assert m.order[..k][i] == t; }
    }
    if t in m.order[..k] {
      var i :| 0 <= i < k && m.order[..k][i] == t;
      assert m.order[i] == t;
    }
    forall i | 0 <= i < k
      ensures m.all[m.order[i]].cb == Some(m.order[i])
    {
      SetIsOrder(s.timers, s.clock, m, m.order[i]);
      assert SameTimer(s.timers[m.order[i]], m.order[i], m.all[m.order[i]]);
    }
  }

  /** Expiring the timers of a list, one after the other. */
  function Expires(ts: seq<nat>): seq<Step> { seq(|ts|, i requires 0 <= i < |ts| => Expire(ts[i])) }

  function Expired(timers: seq<Timer>, ts: seq<nat>): (r: seq<Timer>)
    ensures |r| == |timers|
  {
    seq(|timers|, t requires 0 <= t < |timers| => if t in ts then timers[t].(state := Queued) else timers[t])
  }

  lemma OneExpired(s: State, t: nat)
    requires Inv(s) && Enabled(s, Expire(t))
    ensures var to := Exec(s, Expire(t));
            to.timers == s.timers[t := s.timers[t].(state := Queued)] && to.clock == s.clock
  {
    hide HookSpec.Inv, S.DoSchedule;
  }

  /** Distinct timers that may expire may all expire. */
  lemma {:induction false} ExpiresRun(s: State, ts: seq<nat>)
    requires Inv(s) && T.Distinct(ts) && forall i | 0 <= i < |ts| :: Enabled(s, Expire(ts[i]))
    ensures Runs(s, Expires(ts))
    ensures var to := Run(s, Expires(ts));
            to.timers == Expired(s.timers, ts) && to.clock == s.clock
    decreases |ts|
  {
    hide HookSpec.Inv, HookSpec.Exec;
    if ts != [] {
      var step, rest := Expire(ts[0]), ts[1..];
      ExecKeepsInv(s, step);
      var to := Exec(s, step);
      OneExpired(s, ts[0]);
      assert Expires(ts)[0] == step && Expires(ts)[1..] == Expires(rest);
      assert forall i | 0 <= i < |rest| :: rest[i] == ts[i + 1];
      ExpiresRun(to, rest);
      assert ts == [ts[0]] + rest;
      assert Expired(to.timers, rest) == Expired(s.timers, ts);
    } else {
      assert Expired(s.timers, ts) == s.timers;
    }
  }

  /** What listExpiredCb takes. */
  function Taken(m: T.Manager, now: u64, probe: nat): seq<nat>
    requires T.Known(m.all, m.order)
  {
    m.order[..T.Count(m, now, probe)]
  }

  /** A look at the set is the expiry of all timers that may expire, in deadline order. */
  lemma LookTies(s: State, m: T.Manager, probe: nat)
    requires Inv(s) && Tied(s.timers, s.clock, m)
    ensures T.Known(m.all, m.order)
    ensures var ts := Taken(m, s.clock, probe);
            && Runs(s, Expires(ts))
            && var to := Run(s, Expires(ts));
            to.clock == s.clock && Tied(to.timers, to.clock, T.ListExpired(m, s.clock, probe).0)
  {
    hide HookSpec.Inv, T.Inv, T.ListExpired, T.Count, Enabled;
    T.InvIsSorted(m);
    var ts := Taken(m, s.clock, probe);
    T.CutIsClean(m.all, m.order, T.Count(m, s.clock, probe));
    forall i | 0 <= i < |ts|
      ensures Enabled(s, Expire(ts[i]))
    {
      assert ts[i] in ts;
      ExpireIsListed(s, m, probe, ts[i]);
    }
    ExpiresRun(s, ts);
    ListTies(s.timers, s.clock, m, probe);
  }

  lemma ListTies(timers: seq<Timer>, clock: nat, m: T.Manager, probe: nat)
    requires Tied(timers, clock, m)
    ensures T.Known(m.all, m.order)
    ensures Tied(Expired(timers, Taken(m, clock, probe)), clock, T.ListExpired(m, clock, probe).0)
  {
    hide T.Inv, T.ListExpired, T.Count;
    T.InvIsSorted(m);
    var k := T.Count(m, clock, probe);
    T.ExpiryIsExact(m, clock, probe);
    T.ExecKeepsInv(m, T.ExpireOp(probe), clock);
    var to, m' := Expired(timers, m.order[..k]), T.ListExpired(m, clock, probe).0;
    forall t | 0 <= t < |to|
      ensures SameTimer(to[t], t, m'.all[t])
    {
      assert SameTimer(timers[t], t, m.all[t]);
      if t in m.order[..k] { SetIsOrder(timers, clock, m, t); }
    }
  }

  // ----- Every other step -----

  /** The timer that the fiber taken next cancels after its yield. */
  function ResumedTimer(s: State): Option<nat> {
    var run := Running(WithSched(s.io, S.DoTake(s.io.sched, W)));
    if run.Fiber? && run.fiber in s.phases && s.phases[run.fiber].Parked? && s.phases[run.fiber].call < |s.calls|
    then s.calls[s.phases[run.fiber].call].timer
    else None
  }

  /** How long the timer of the call that is about to park lasts, if the call is timed. */
  function NewTimer(s: State, f: nat): Option<nat> {
    if f in s.phases && s.phases[f].Trying? && s.phases[f].call < |s.calls| && s.calls[s.phases[f].call].timed
    then Some(s.calls[s.phases[f].call].to)
    else None
  }

  /** The clock and the deadline that the step computes do not wrap around. */
  predicate InTime(s: State, step: Step) {
    match step
    case Tick(ms) => s.clock + ms < TWO64
    case Block(f, _) => NewTimer(s, f).Some? ==> s.clock + NewTimer(s, f).value < TWO64
    case _ => true
  }

  /** What the step calls on the manager. */
  function OpsOf(s: State, step: Step): seq<(T.Op, u64)>
    requires s.clock < TWO64 && InTime(s, step)
  {
    match step
    case Take =>
      if ResumedTimer(s).Some? then [(T.CancelOp(ResumedTimer(s).value), s.clock)] else []
    case Block(f, works) =>
      if NewTimer(s, f) == None then []
      else
        var t := |s.timers|;
        [(T.Add(t, NewTimer(s, f).value, Some(t), false), s.clock)]
        + if works then [] else [(T.CancelOp(t), s.clock)]
    case _ => []
  }

  /** What the step leaves of the timers. */
  function TimersAfter(s: State, step: Step): seq<Timer> {
    match step
    case Take => CancelTimer(s.timers, ResumedTimer(s))
    case Block(f, works) =>
      if NewTimer(s, f) == None then s.timers
      else
        var more := s.timers + [Timer(s.phases[f].call, s.clock + NewTimer(s, f).value, Set)];
        if works then more else CancelTimer(more, Some(|s.timers|))
    case RunTimer(t, _) => if t < |s.timers| then s.timers[t := s.timers[t].(state := Over)] else s.timers
    case _ => s.timers
  }

  lemma StepTimers(s: State, step: Step)
    requires Inv(s) && Enabled(s, step) && !step.Expire?
    ensures Exec(s, step).timers == TimersAfter(s, step)
    ensures Exec(s, step).clock == s.clock + if step.Tick? then step.ms else 0
  {
    hide I.Inv, Agree, CallsAgree, S.DoTake, S.DoFinish, I.AddEvent, I.CancelEvent, I.DeliverEach;
    match step
    case Block(f, works) => BlockTimers(s, f, works);
    case RunTimer(t, works) => RunTimers(s, t, works);
    case _ =>
  }

  lemma BlockTimers(s: State, f: nat, works: bool)
    requires Inv(s) && Enabled(s, Block(f, works))
    ensures var to := Exec(s, Block(f, works));
            to.timers == TimersAfter(s, Block(f, works)) && to.clock == s.clock
  {
    hide I.Inv, Agree, CallsAgree, S.DoFinish, I.AddEvent;
    BusyIsCounted(s);
    var call := s.calls[s.phases[f].call];
    I.AddIsExact(s.io, call.fd, call.event, None, f, works);
  }

  lemma RunTimers(s: State, t: nat, works: bool)
    requires Inv(s) && Enabled(s, RunTimer(t, works))
    ensures var to := Exec(s, RunTimer(t, works));
            to.timers == TimersAfter(s, RunTimer(t, works)) && to.clock == s.clock
  {
    hide I.Inv, Agree, CallsAgree, S.DoFinish, I.CancelEvent;
    BusyIsCounted(s);
    TimerKnown(s, t);
    var call := s.calls[s.timers[t].call];
    I.CancelIsExact(s.io, call.fd, call.event, works);
  }

  /** The timer that a resumed fiber cancels exists. */
  lemma ResumedIsKnown(s: State)
    requires Inv(s)
    ensures ResumedTimer(s).Some? ==> ResumedTimer(s).value < |s.timers|
  {
    hide I.Inv, Agree, S.DoTake, Running;
    var run := Running(WithSched(s.io, S.DoTake(s.io.sched, W)));
    if run.Fiber? && run.fiber in s.phases { assert PhaseAgrees(s, run.fiber, s.phases[run.fiber]); }
  }

  lemma OneOp(m: T.Manager, op: T.Op, now: u64, before: u64)
    requires T.Inv(m) && before <= now && T.NoWrap(m, op, now)
    ensures T.Steady(m, [(op, now)], before) && T.EndClock([(op, now)], before) == now
    ensures T.Run(m, [(op, now)]) == T.Exec(m, op, now)
  {
    hide T.Inv, T.Exec, T.NoWrap;
    T.ExecKeepsInv(m, op, now);
    assert [(op, now)][1..] == [];
  }

  /** Two operations at the same time. */
  lemma TwoOps(m: T.Manager, op: T.Op, op': T.Op, now: u64, before: u64)
    requires T.Inv(m) && before <= now && T.NoWrap(m, op, now) && op'.CancelOp?
    ensures var ops := [(op, now)] + [(op', now)];
            && T.Steady(m, ops, before) && T.EndClock(ops, before) == now
            && T.Inv(T.Exec(m, op, now)) && T.Run(m, ops) == T.Exec(T.Exec(m, op, now), op', now)
  {
    hide T.Inv, T.Exec, T.Steady, T.Run;
    T.InvIsSorted(m);
    T.ExecKeepsInv(m, op, now);
    OneOp(m, op, now, before);
    OneOp(T.Exec(m, op, now), op', now, now);
    T.RunTwice(m, [(op, now)], [(op', now)]);
    T.SteadyParts(m, [(op, now)], [(op', now)], before);
    var ops := [(op, now)] + [(op', now)];
    assert ops[1..] == [(op', now)];
  }

  /** Every step but an expiry leaves the timers that the manager's operations leave. */
  lemma StepTies(s: State, step: Step, m: T.Manager, before: u64)
    requires Inv(s) && Enabled(s, step) && !step.Expire?
    requires Tied(s.timers, s.clock, m) && InTime(s, step) && before <= s.clock
    ensures var ops, to := OpsOf(s, step), Exec(s, step);
            && T.Steady(m, ops, before) && T.EndClock(ops, before) <= to.clock
            && Tied(to.timers, to.clock, T.Run(m, ops))
  {
    hide HookSpec.Inv, T.Inv, Enabled, Exec, T.Run, T.Steady, T.EndClock, T.AddTimer, T.Cancel, ResumedTimer, NewTimer,
         SameTimer;
    StepTimers(s, step);
    NoOps(m, before);
    match step
    case Take =>
      ResumedIsKnown(s);
      if ResumedTimer(s).Some? {
        var t := ResumedTimer(s).value;
        CancelTies(s.timers, s.clock, m, t);
        OneOp(m, T.CancelOp(t), s.clock, before);
      }
    case Block(f, works) =>
      if NewTimer(s, f).Some? {
        NewIsKnown(s, f);
        BlockTies(s.timers, s.clock, m, s.phases[f].call, NewTimer(s, f).value, works, before);
      }
    case RunTimer(t, _) =>
      RunsQueued(s, step);
      RanTies(s.timers, s.clock, m, t);
    case _ =>
  }

  lemma NoOps(m: T.Manager, before: u64)
    requires T.Inv(m)
    ensures T.Steady(m, [], before) && T.EndClock([], before) == before && T.Run(m, []) == m
  {
    hide T.Inv;
  }

  lemma NewIsKnown(s: State, f: nat)
    requires NewTimer(s, f).Some?
    ensures f in s.phases && s.phases[f].Trying?
  {
  }

  lemma RunsQueued(s: State, step: Step)
    requires Inv(s) && Enabled(s, step) && step.RunTimer?
    ensures step.t < |s.timers| && s.timers[step.t].state == Queued
  {
    hide HookSpec.Inv;
    TimerKnown(s, step.t);
  }

  lemma BlockTies(timers: seq<Timer>, clock: u64, m: T.Manager, c: nat, to: nat, works: bool, before: u64)
    requires Tied(timers, clock, m) && clock + to < TWO64 && before <= clock
    ensures var t, more := |timers|, timers + [Timer(c, clock + to, Set)];
            var add := [(T.Add(t, to, Some(t), false), clock)];
            var ops := add + if works then [] else [(T.CancelOp(t), clock)];
            && T.Steady(m, ops, before) && T.EndClock(ops, before) == clock
            && Tied(if works then more else CancelTimer(more, Some(t)), clock, T.Run(m, ops))
  {
    hide T.Inv, T.Run, T.Steady, T.EndClock, T.AddTimer, T.Cancel, SameTimer;
    var t, more := |timers|, timers + [Timer(c, clock + to, Set)];
    var op := T.Add(t, to, Some(t), false);
    AddTies(timers, clock, m, c, to);
    if works {
      OneOp(m, op, clock, before);
      assert [(op, clock)] + [] == [(op, clock)];
    } else {
      CancelTies(more, clock, T.Exec(m, op, clock), t);
      TwoOps(m, op, T.CancelOp(t), clock, before);
    }
  }

  // ----- Every run -----

  /** What happens to both: a step of the calls, a look at the set, or idle's question how long to wait. */
  datatype Move = Do(step: Step) | Look(probe: nat) | Ask

  datatype World = World(s: State, m: T.Manager)

  ghost predicate Valid(w: World) { Inv(w.s) && Tied(w.s.timers, w.s.clock, w.m) }

  ghost predicate May(w: World, move: Move) {
    move.Do? ==> !move.step.Expire? && Enabled(w.s, move.step) && InTime(w.s, move.step)
  }

  /** The move as steps of the calls, a look being the expiry of what it takes. */
  ghost function StepsOf(w: World, move: Move): seq<Step>
    requires Valid(w)
  {
    match move
    case Do(step) => [step]
    case Look(probe) => Expires(Taken(w.m, w.s.clock, probe))
    case Ask => []
  }

  /** The move as operations of the manager. */
  ghost function ManagerOps(w: World, move: Move): seq<(T.Op, u64)>
    requires Valid(w) && May(w, move)
  {
    match move
    case Do(step) => OpsOf(w.s, step)
    case Look(probe) => [(T.ExpireOp(probe), w.s.clock)]
    case Ask => [(T.NextOp, w.s.clock)]
  }

  lemma MoveTies(w: World, move: Move, before: u64)
    requires Valid(w) && May(w, move) && before <= w.s.clock
    ensures var steps, ops := StepsOf(w, move), ManagerOps(w, move);
            && Runs(w.s, steps) && T.Steady(w.m, ops, before)
            && Valid(World(Run(w.s, steps), T.Run(w.m, ops)))
            && T.EndClock(ops, before) <= Run(w.s, steps).clock
  {
    hide HookSpec.Inv, T.Inv, Enabled, HookSpec.Exec, T.Run, T.Steady, T.EndClock, T.ListExpired, OpsOf, Expires, Taken,
         SameTimer, T.GetNext;
    match move
    case Do(step) =>
      ExecKeepsInv(w.s, step);
      StepTies(w.s, step, w.m, before);
      assert [step][1..] == [];
    case Look(probe) =>
      LookTies(w.s, w.m, probe);
      LookIsSteady(w, probe);
      OneOp(w.m, T.ExpireOp(probe), w.s.clock, before);
    case Ask =>
      AskTies(w);
      OneOp(w.m, T.NextOp, w.s.clock, before);
  }

  lemma LookIsSteady(w: World, probe: nat)
    requires Valid(w)
    ensures T.Known(w.m.all, w.m.order) && T.NoWrap(w.m, T.ExpireOp(probe), w.s.clock)
  {
    hide HookSpec.Inv, T.Inv;
    T.InvIsSorted(w.m);
    forall t | t in w.m.order
      ensures !w.m.all[t].recurring
    {
      SetIsOrder(w.s.timers, w.s.clock, w.m, t);
      assert SameTimer(w.s.timers[t], t, w.m.all[t]);
    }
  }

  lemma AskTies(w: World)
    requires Valid(w)
    ensures T.Known(w.m.all, w.m.order) && Tied(w.s.timers, w.s.clock, T.GetNext(w.m, w.s.clock).0)
  {
    hide HookSpec.Inv, T.Inv, SameTimer;
    T.InvIsSorted(w.m);
    T.NextKeepsInv(w.m, w.s.clock);
  }

  ghost function Go(w: World, move: Move): (to: World)
    requires Valid(w) && May(w, move)
    ensures Valid(to)
  {
    MoveTies(w, move, w.s.clock);
    World(Run(w.s, StepsOf(w, move)), T.Run(w.m, ManagerOps(w, move)))
  }

  ghost predicate Goes(w: World, moves: seq<Move>)
    requires Valid(w)
    decreases |moves|
  {
    moves == [] || (May(w, moves[0]) && Goes(Go(w, moves[0]), moves[1..]))
  }

  ghost function AllSteps(w: World, moves: seq<Move>): seq<Step>
    requires Valid(w) && Goes(w, moves)
    decreases |moves|
  {
    if moves == [] then [] else StepsOf(w, moves[0]) + AllSteps(Go(w, moves[0]), moves[1..])
  }

  ghost function AllOps(w: World, moves: seq<Move>): seq<(T.Op, u64)>
    requires Valid(w) && Goes(w, moves)
    decreases |moves|
  {
    if moves == [] then [] else ManagerOps(w, moves[0]) + AllOps(Go(w, moves[0]), moves[1..])
  }

  lemma {:induction false} RunsOn(s: State, a: seq<Step>, b: seq<Step>)
    requires Inv(s) && Runs(s, a) && Runs(Run(s, a), b)
    ensures Runs(s, a + b) && Run(s, a + b) == Run(Run(s, a), b)
    decreases |a|
  {
    hide HookSpec.Inv, Enabled, HookSpec.Exec;
    if a == [] {
      assert a + b == b;
    } else {
      ExecKeepsInv(s, a[0]);
      assert (a + b)[1..] == a[1..] + b;
      RunsOn(Exec(s, a[0]), a[1..], b);
    }
  }

  /**
   * Over every run the calls' timers are the manager's: the calls make the steps of a run, the manager's
   * operations are steady, and at the end both have the same timers.
   */
  lemma {:induction false} EveryRunIsTied(w: World, moves: seq<Move>, before: u64)
    requires Valid(w) && Goes(w, moves) && before <= w.s.clock
    ensures var steps, ops := AllSteps(w, moves), AllOps(w, moves);
            && Runs(w.s, steps) && T.Steady(w.m, ops, before)
            && Valid(World(Run(w.s, steps), T.Run(w.m, ops)))
    decreases |moves|
  {
    hide Valid, May, Runs, HookSpec.Run, T.Run, T.Steady, T.EndClock, StepsOf, ManagerOps, HookSpec.Inv, T.Inv;
    ValidIs(w);
    if moves == [] {
      Nothing(w, before);
    } else {
      var rest := moves[1..];
      MoveTies(w, moves[0], before);
      var steps, ops := StepsOf(w, moves[0]), ManagerOps(w, moves[0]);
      var to := Go(w, moves[0]);
      EveryRunIsTied(to, rest, T.EndClock(ops, before));
      RunsOn(w.s, steps, AllSteps(to, rest));
      T.RunTwice(w.m, ops, AllOps(to, rest));
      T.SteadyParts(w.m, ops, AllOps(to, rest), before);
    }
  }

  lemma ValidIs(w: World)
    requires Valid(w)
    ensures Inv(w.s) && T.Inv(w.m)
  {
  }

  lemma Nothing(w: World, before: u64)
    requires Valid(w)
    ensures Runs(w.s, []) && T.Steady(w.m, [], before) && World(Run(w.s, []), T.Run(w.m, [])) == w
  {
  }

  /** Before anybody has called anything there are no timers on either side. */
  lemma FreshIsTied()
    ensures Valid(World(Fresh(), T.Fresh))
  {
    hide HookSpec.Inv;
    FreshIsValid();
    T.FreshIsCalm(0);
    assert T.Fresh.(previous := 0) == T.Fresh;
  }
}
