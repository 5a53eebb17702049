/**
 * The IO manager on values: for every file descriptor the armed events and who waits for them,
 * mirrored in epoll, and the tasks queued when an event fires. Every registration gets a number,
 * so that what becomes of each can be stated.
 */
module IoSpec {
  import S = SchedulerSpec
  import opened Wrappers

  datatype Event = READ | WRITE

  /** What the kernel reports. */
  datatype Flag = IN | OUT | ERR | HUP

  /** Who waits for an event: with a scheduler, and as a fiber or as a function. */
  datatype EventContext = EventContext(scheduler: bool, fiber: Option<nat>, cb: Option<nat>, number: nat)

  const Vacant := EventContext(false, None, None, 0)

  datatype FdContext = FdContext(events: set<Event>, read: EventContext, write: EventContext)

  const Unused := FdContext({}, Vacant, Vacant)

  /** A registration: the event waited for, and what is to be scheduled. */
  datatype Registration = Registration(fd: nat, event: Event, call: S.Callable)

  /**
   * regs: every registration made; deleted, scheduled: the numbers of those that were deleted, and
   * of those whose event fired or was cancelled; wakes: the latter with the tasks queued for them.
   */
  datatype Io = Io(
    ctxs: seq<FdContext>,
    pending: int,
    epoll: map<nat, set<Event>>,
    sched: S.State,
    regs: seq<Registration>,
    deleted: set<nat>,
    scheduled: set<nat>,
    wakes: seq<(nat, nat)>)

  /** An operation ends with its answer, or with a failed assertion. */
  datatype Result = Done(io: Io, ok: bool) | Aborted

  function Context(c: FdContext, e: Event): EventContext {
    if e == READ then c.read else c.write
  }

  function SetContext(c: FdContext, e: Event, x: EventContext): FdContext {
    if e == READ then c.(read := x) else c.(write := x)
  }

  function CallOf(x: EventContext): S.Callable {
    if x.cb.Some? then S.Callback(x.cb.value) else if x.fiber.Some? then S.Fiber(x.fiber.value) else S.Empty
  }

  // ----- epoll -----

  /** epoll_ctl adds a descriptor that is not there, changes or removes one that is, or fails for reasons of its own. */
  datatype Op = ADD | MOD | DEL

  function Ctl(epoll: map<nat, set<Event>>, op: Op, fd: nat, mask: set<Event>, works: bool)
    : Option<map<nat, set<Event>>>
  {
    if !works || (op == ADD <==> fd in epoll) then None
    else if op == DEL then Some(epoll - {fd})
    else Some(epoll[fd := mask])
  }

  /** Adding what is there and changing or removing what is not fail; else just that descriptor is watched anew. */
  lemma CtlIs(epoll: map<nat, set<Event>>, op: Op, fd: nat, mask: set<Event>)
    ensures Ctl(epoll, op, fd, mask, false) == None
    ensures Ctl(epoll, op, fd, mask, true) == None <==> if fd in epoll then op == ADD else op == MOD || op == DEL
    ensures var to := Ctl(epoll, op, fd, mask, true);
            to.Some? ==>
              && (forall g: nat | g != fd ::
                    (g in to.value <==> g in epoll) && (g in epoll ==> to.value[g] == epoll[g]))
              && (if op == DEL then fd !in to.value else fd in to.value && to.value[fd] == mask)
  {
  }

  // ----- Operations -----

  function Resized(ctxs: seq<FdContext>, size: nat): seq<FdContext>
    requires |ctxs| <= size
  {
    ctxs + seq(size - |ctxs|, _ => Unused)
  }

  /** The table covers the descriptor, growing to one and a half times its number if it must. */
  function Grown(ctxs: seq<FdContext>, fd: nat): (r: seq<FdContext>)
    requires |ctxs| >= 32
    ensures fd < |r| && |r| >= 32
  {
    if fd < |ctxs| then ctxs else Resized(ctxs, fd + fd / 2)
  }

  /** The scheduler, and the function given or else the calling fiber. */
  function Waiter(cb: Option<nat>, fiber: nat, number: nat): EventContext {
    EventContext(true, if cb.Some? then None else Some(fiber), cb, number)
  }

  /** addEvent, for a function or for the calling fiber. */
  function AddEvent(io: Io, fd: nat, e: Event, cb: Option<nat>, fiber: nat, works: bool): Result
    requires |io.ctxs| >= 32
  {
    var io := io.(ctxs := Grown(io.ctxs, fd));
    var c := io.ctxs[fd];
    if e in c.events then Aborted
    else
      var op := if c.events == {} then ADD else MOD;
      var epoll := Ctl(io.epoll, op, fd, c.events + {e}, works);
      if epoll == None then Done(io, false)
      else if Context(c, e) != Vacant then Aborted
      else
        var x := Waiter(cb, fiber, |io.regs|);
        Done(Armed(io.(epoll := epoll.value), fd, e, x), true)
  }

  function Armed(io: Io, fd: nat, e: Event, x: EventContext): Io
    requires fd < |io.ctxs|
  {
    var c := io.ctxs[fd];
    io.(ctxs := io.ctxs[fd := SetContext(c, e, x).(events := c.events + {e})],
        pending := io.pending + 1,
        regs := io.regs + [Registration(fd, e, CallOf(x))])
  }

  function Disarmed(c: FdContext, e: Event): FdContext {
    SetContext(c, e, Vacant).(events := c.events - {e})
  }

  /** triggerEvent and the count: the waiter is scheduled and the event is no longer armed. */
  function Fire(io: Io, fd: nat, e: Event): Io
    requires fd < |io.ctxs|
  {
    var x := Context(io.ctxs[fd], e);
    io.(ctxs := io.ctxs[fd := Disarmed(io.ctxs[fd], e)],
        pending := io.pending - 1,
        sched := S.DoSchedule(io.sched, CallOf(x), S.ANY),
        scheduled := io.scheduled + {x.number},
        wakes := io.wakes + [(x.number, |io.sched.accepted|)])
  }

  /** triggerEvent asserts that the event is armed. */
  function Trigger(io: Io, fd: nat, e: Event): Result
    requires fd < |io.ctxs|
  {
    if e in io.ctxs[fd].events then Done(Fire(io, fd, e), true) else Aborted
  }

  function CtlLeft(io: Io, fd: nat, left: set<Event>, works: bool): Option<map<nat, set<Event>>> {
    Ctl(io.epoll, if left == {} then DEL else MOD, fd, left, works)
  }

  function DelEvent(io: Io, fd: nat, e: Event, works: bool): Result {
    if fd >= |io.ctxs| || e !in io.ctxs[fd].events then Done(io, false)
    else
      var epoll := CtlLeft(io, fd, io.ctxs[fd].events - {e}, works);
      if epoll == None then Done(io, false)
      else
        var x := Context(io.ctxs[fd], e);
        Done(io.(epoll := epoll.value,
                 ctxs := io.ctxs[fd := Disarmed(io.ctxs[fd], e)],
                 pending := io.pending - 1,
                 deleted := io.deleted + {x.number}), true)
  }

  function CancelEvent(io: Io, fd: nat, e: Event, works: bool): Result {
    if fd >= |io.ctxs| || e !in io.ctxs[fd].events then Done(io, false)
    else
      var epoll := CtlLeft(io, fd, io.ctxs[fd].events - {e}, works);
      if epoll == None then Done(io, false) else Trigger(io.(epoll := epoll.value), fd, e)
  }

  /** Triggering each of the events, reading first. */
  function TriggerAll(io: Io, fd: nat, events: set<Event>): Result
    requires fd < |io.ctxs|
  {
    var first := if READ in events then Trigger(io, fd, READ) else Done(io, true);
    if first == Aborted || WRITE !in events then first else Trigger(first.io, fd, WRITE)
  }

  function CancelAll(io: Io, fd: nat, works: bool): Result {
    if fd >= |io.ctxs| || io.ctxs[fd].events == {} then Done(io, false)
    else
      var epoll := Ctl(io.epoll, DEL, fd, {}, works);
      if epoll == None then Done(io, false)
      else
        var r := TriggerAll(io.(epoll := epoll.value), fd, io.ctxs[fd].events);
        if r.Done? && r.io.ctxs[fd].events != {} then Aborted else r
  }

  /** The events meant by what the kernel reported; an error or a hang-up means all that are armed. */
  function Meant(flags: set<Flag>, armed: set<Event>): set<Event> {
    (if IN in flags || ((ERR in flags || HUP in flags) && READ in armed) then {READ} else {})
    + (if OUT in flags || ((ERR in flags || HUP in flags) && WRITE in armed) then {WRITE} else {})
  }

  /** One report handled in the event loop. */
  function Deliver(io: Io, fd: nat, flags: set<Flag>, works: bool): Result
    requires fd < |io.ctxs|
  {
    var armed := io.ctxs[fd].events;
    var meant := Meant(flags, armed);
    if armed * meant == {} then Done(io, false)
    else
      var epoll := CtlLeft(io, fd, armed - meant, works);
      if epoll == None then Done(io, false) else TriggerAll(io.(epoll := epoll.value), fd, meant)
  }

  // ----- The invariant -----

  /** A bit is armed exactly if its context holds a scheduler, and then exactly one of a fiber or a function. */
  predicate ContextOk(regs: seq<Registration>, c: FdContext, fd: nat, e: Event) {
    var x := Context(c, e);
    && (e in c.events <==> x.scheduler)
    && if x.scheduler then
         (x.fiber.Some? <==> x.cb == None) && x.number < |regs| && regs[x.number] == Registration(fd, e, CallOf(x))
       else x == Vacant
  }

  predicate ContextsOk(io: Io) {
    forall fd, e | 0 <= fd < |io.ctxs| :: ContextOk(io.regs, io.ctxs[fd], fd, e)
  }

  function Count(ctxs: seq<FdContext>): nat {
    if ctxs == [] then 0 else |ctxs[0].events| + Count(ctxs[1..])
  }

  /** The registration is the one its event is armed for. */
  predicate Waits(io: Io, n: nat)
    requires n < |io.regs|
  {
    var r := io.regs[n];
    r.fd < |io.ctxs| && r.event in io.ctxs[r.fd].events && Context(io.ctxs[r.fd], r.event).number == n
  }

  /** Every registration is in exactly one place: still waiting, deleted or scheduled. */
  predicate Fates(io: Io) {
    && (forall n | n in io.deleted :: n < |io.regs| && n !in io.scheduled && !Waits(io, n))
    && (forall n | n in io.scheduled :: n < |io.regs| && !Waits(io, n))
    && forall n | 0 <= n < |io.regs| :: n in io.deleted || n in io.scheduled || Waits(io, n)
  }

  /** Conservation of numbers: the count is the number of armed bits, and made = waiting + deleted + scheduled. */
  predicate Balanced(io: Io) {
    && io.pending == Count(io.ctxs)
    && |io.regs| == io.pending + |io.deleted| + |io.scheduled|
    && |io.wakes| == |io.scheduled|
  }

  /** Every registration scheduled was queued once, as a task of its own that calls its waiter. */
  predicate Woken(io: Io) {
    && (forall n | 0 <= n < |io.regs| :: io.regs[n].call != S.Empty)
    && (forall i | 0 <= i < |io.wakes| :: IsWake(io, io.wakes[i]))
    && forall i, j | 0 <= i < j < |io.wakes| :: io.wakes[i].0 != io.wakes[j].0 && io.wakes[i].1 < io.wakes[j].1
  }

  predicate IsWake(io: Io, wake: (nat, nat)) {
    && wake.0 in io.scheduled && wake.0 < |io.regs| && wake.1 < |io.sched.accepted|
    && io.sched.accepted[wake.1] == S.Task(io.regs[wake.0].call, S.ANY, wake.1)
  }

  predicate Watches(epoll: map<nat, set<Event>>, fd: nat, mask: set<Event>) {
    if mask == {} then fd !in epoll else fd in epoll && epoll[fd] == mask
  }

  /** epoll watches exactly the descriptors with armed events, for those events. */
  predicate Mirrored(io: Io) {
    && (forall fd | fd in io.epoll :: fd < |io.ctxs|)
    && forall fd | 0 <= fd < |io.ctxs| :: Watches(io.epoll, fd, io.ctxs[fd].events)
  }

  /** All but the mirror, which is broken for a moment while several events of one descriptor fire. */
  ghost predicate Core(io: Io) {
    |io.ctxs| >= 32 && ContextsOk(io) && Fates(io) && Balanced(io) && Woken(io) && S.Inv(io.sched)
  }

  ghost predicate Inv(io: Io) { Core(io) && Mirrored(io) }

  // ----- Growing the table -----

  lemma {:induction false} CountAppend(a: seq<FdContext>, b: seq<FdContext>)
    ensures Count(a + b) == Count(a) + Count(b)
  {
    if a == [] {
      assert a + b == b;
    } else {
      assert (a + b)[1..] == a[1..] + b;
      CountAppend(a[1..], b);
    }
  }

  lemma {:induction false} CountUnused(ctxs: seq<FdContext>)
    requires forall i | 0 <= i < |ctxs| :: ctxs[i] == Unused
    ensures Count(ctxs) == 0
  {
    if ctxs != [] { CountUnused(ctxs[1..]); }
  }

  lemma {:induction false} CountUpdate(ctxs: seq<FdContext>, fd: nat, c: FdContext)
    requires fd < |ctxs|
    ensures Count(ctxs[fd := c]) == Count(ctxs) - |ctxs[fd].events| + |c.events|
  {
    if fd == 0 {
      assert ctxs[fd := c][1..] == ctxs[1..];
    } else {
      assert ctxs[fd := c][1..] == ctxs[1..][fd - 1 := c];
      CountUpdate(ctxs[1..], fd - 1, c);
    }
  }

  lemma GrowKeepsInv(io: Io, fd: nat)
    requires Inv(io)
    ensures Inv(io.(ctxs := Grown(io.ctxs, fd)))
    ensures var ctxs := Grown(io.ctxs, fd);
            && |ctxs| == (if fd < |io.ctxs| then |io.ctxs| else fd * 3 / 2)
            && forall i | 0 <= i < |ctxs| ::
                 ctxs[i] == if i < |io.ctxs| then io.ctxs[i] else FdContext({}, Vacant, Vacant)
  {
    hide S.Inv, Count;
    var ctxs := Grown(io.ctxs, fd);
    if fd >= |io.ctxs| {
      var more := seq(fd + fd / 2 - |io.ctxs|, _ => Unused);
      CountUnused(more);
      CountAppend(io.ctxs, more);
      assert ctxs == io.ctxs + more;
    }
    assert forall i | 0 <= i < |ctxs| :: ctxs[i] == if i < |io.ctxs| then io.ctxs[i] else Unused;
  }

  // ----- Arming and disarming -----

  /** Setting one context leaves the other and gives the one back. */
  lemma SetGet(c: FdContext, e: Event, x: EventContext, events: set<Event>)
    ensures var d := SetContext(c, e, x).(events := events);
            && d.events == events && Context(d, e) == x
            && forall e' | e' != e :: Context(d, e') == Context(c, e')
  {
  }

  lemma ArmKeepsContexts(io: Io, fd: nat, e: Event, x: EventContext)
    requires Core(io) && fd < |io.ctxs| && e !in io.ctxs[fd].events
    requires x.scheduler && (x.fiber.Some? <==> x.cb == None) && x.number == |io.regs|
    ensures ContextsOk(Armed(io, fd, e, x))
  {
    hide Fates, Balanced, Woken, S.Inv, SetContext, Context, CallOf;
    SetGet(io.ctxs[fd], e, x, io.ctxs[fd].events + {e});
    var to := Armed(io, fd, e, x);
    forall fd', e' | 0 <= fd' < |to.ctxs|
      ensures ContextOk(to.regs, to.ctxs[fd'], fd', e')
    {
      assert ContextOk(io.regs, io.ctxs[fd'], fd', e');
    }
  }

  lemma ArmKeepsFates(io: Io, fd: nat, e: Event, x: EventContext)
    requires Core(io) && fd < |io.ctxs| && e !in io.ctxs[fd].events
    requires x.scheduler && x.number == |io.regs|
    ensures Fates(Armed(io, fd, e, x))
  {
    hide ContextsOk, Balanced, Woken, S.Inv, SetContext, Context, CallOf;
    SetGet(io.ctxs[fd], e, x, io.ctxs[fd].events + {e});
  }

  lemma ArmKeepsCore(io: Io, fd: nat, e: Event, x: EventContext)
    requires Core(io) && fd < |io.ctxs| && e !in io.ctxs[fd].events
    requires x.scheduler && (x.fiber.Some? <==> x.cb == None) && x.number == |io.regs|
    ensures Core(Armed(io, fd, e, x))
  {
    hide ContextsOk, Fates, S.Inv, Count, SetContext;
    ArmKeepsContexts(io, fd, e, x);
    ArmKeepsFates(io, fd, e, x);
    var c := io.ctxs[fd];
    CountUpdate(io.ctxs, fd, SetContext(c, e, x).(events := c.events + {e}));
  }

  /** Disarming an event takes its registration, and no other, from among those that wait. */
  lemma DisarmKeepsContexts(io: Io, fd: nat, e: Event, ctxs: seq<FdContext>)
    requires ContextsOk(io) && fd < |io.ctxs| && e in io.ctxs[fd].events
    requires ctxs == io.ctxs[fd := Disarmed(io.ctxs[fd], e)]
    ensures ContextsOk(io.(ctxs := ctxs))
    ensures var n := Context(io.ctxs[fd], e).number;
            && n < |io.regs| && Waits(io, n) && io.regs[n] == Registration(fd, e, CallOf(Context(io.ctxs[fd], e)))
            && forall m | 0 <= m < |io.regs| :: Waits(io.(ctxs := ctxs), m) <==> Waits(io, m) && m != n
  {
    hide SetContext, Context, CallOf;
    SetGet(io.ctxs[fd], e, Vacant, io.ctxs[fd].events - {e});
    assert ContextOk(io.regs, io.ctxs[fd], fd, e);
    forall fd', e' | 0 <= fd' < |ctxs|
      ensures ContextOk(io.regs, ctxs[fd'], fd', e')
    {
      assert ContextOk(io.regs, io.ctxs[fd'], fd', e');
    }
  }

  /** What a disarmed event's registration was. */
  lemma ArmedIs(io: Io, fd: nat, e: Event)
    requires Core(io) && fd < |io.ctxs| && e in io.ctxs[fd].events
    ensures var x := Context(io.ctxs[fd], e);
            && x.scheduler && (x.fiber.Some? <==> x.cb == None) && CallOf(x) != S.Empty
            && x.number < |io.regs| && Waits(io, x.number) && x.number !in io.deleted && x.number !in io.scheduled
            && io.regs[x.number] == Registration(fd, e, CallOf(x))
  {
    hide Balanced, Woken, S.Inv;
    assert ContextOk(io.regs, io.ctxs[fd], fd, e);
  }

  function Deleted(io: Io, fd: nat, e: Event): Io
    requires fd < |io.ctxs|
  {
    io.(ctxs := io.ctxs[fd := Disarmed(io.ctxs[fd], e)],
        pending := io.pending - 1,
        deleted := io.deleted + {Context(io.ctxs[fd], e).number})
  }

  lemma DeleteKeepsCore(io: Io, fd: nat, e: Event)
    requires Core(io) && fd < |io.ctxs| && e in io.ctxs[fd].events
    ensures Core(Deleted(io, fd, e))
  {
    hide ContextsOk, S.Inv, Count, SetContext, Context, Waits, IsWake, Disarmed;
    SameWakes(io, Deleted(io, fd, e));
    ArmedIs(io, fd, e);
    DisarmKeepsContexts(io, fd, e, Deleted(io, fd, e).ctxs);
    DisarmedCount(io.ctxs, fd, e);
    SameContexts(io.(ctxs := Deleted(io, fd, e).ctxs), Deleted(io, fd, e));
  }

  lemma DisarmedCount(ctxs: seq<FdContext>, fd: nat, e: Event)
    requires fd < |ctxs| && e in ctxs[fd].events
    ensures Count(ctxs[fd := Disarmed(ctxs[fd], e)]) == Count(ctxs) - 1
  {
    CountUpdate(ctxs, fd, Disarmed(ctxs[fd], e));
  }

  /** Contexts, and who waits, depend on the contexts and the registrations alone. */
  lemma SameContexts(io: Io, to: Io)
    requires io.ctxs == to.ctxs && io.regs == to.regs
    ensures ContextsOk(io) <==> ContextsOk(to)
    ensures forall n | 0 <= n < |io.regs| :: Waits(io, n) <==> Waits(to, n)
  {
    hide ContextOk;
  }

  lemma FireKeepsWoken(io: Io, fd: nat, e: Event)
    requires Core(io) && fd < |io.ctxs| && e in io.ctxs[fd].events
    ensures Woken(Fire(io, fd, e))
  {
    hide ContextsOk, Fates, Count, S.Inv, SetContext, Context, Waits;
    ArmedIs(io, fd, e);
  }

  lemma FireKeepsCore(io: Io, fd: nat, e: Event)
    requires Core(io) && fd < |io.ctxs| && e in io.ctxs[fd].events
    ensures Core(Fire(io, fd, e))
  {
    hide ContextsOk, Count, SetContext, Context, Waits, Woken, S.Inv;
    var to := Fire(io, fd, e);
    ArmedIs(io, fd, e);
    FireKeepsWoken(io, fd, e);
    DisarmKeepsContexts(io, fd, e, to.ctxs);
    DisarmedCount(io.ctxs, fd, e);
    SameContexts(io.(ctxs := to.ctxs), to);
    S.ScheduleKeepsInv(io.sched, CallOf(Context(io.ctxs[fd], e)), S.ANY);
  }

  // ----- What each operation does -----

  lemma CtlNeedsWorking(io: Io, fd: nat, left: set<Event>, works: bool)
    ensures CtlLeft(io, fd, left, works).Some? ==> works
  {
  }

  /** In a mirrored state epoll_ctl fails only for reasons of its own, and then watches what is left. */
  lemma CtlLeftWorks(io: Io, fd: nat, left: set<Event>, works: bool)
    requires Mirrored(io) && fd < |io.ctxs| && io.ctxs[fd].events != {}
    ensures var r := CtlLeft(io, fd, left, works);
            && (r == None <==> !works)
            && (works ==> Watches(r.value, fd, left) && forall fd' | fd' != fd ::
                  (fd' in r.value <==> fd' in io.epoll) && (fd' in io.epoll ==> r.value[fd'] == io.epoll[fd']))
  {
    assert Watches(io.epoll, fd, io.ctxs[fd].events);
  }

  /** The state mirrors every descriptor but one, which epoll watches for less already. */
  predicate MirroredBut(io: Io, fd: nat, left: set<Event>) {
    && (forall fd' | fd' in io.epoll :: fd' < |io.ctxs|)
    && Watches(io.epoll, fd, left)
    && forall fd' | 0 <= fd' < |io.ctxs| && fd' != fd :: Watches(io.epoll, fd', io.ctxs[fd'].events)
  }

  lemma LeftMirrors(io: Io, fd: nat, left: set<Event>, works: bool)
    requires Mirrored(io) && fd < |io.ctxs| && io.ctxs[fd].events != {} && works
    ensures var r := CtlLeft(io, fd, left, works);
            r.Some? && MirroredBut(io.(epoll := r.value), fd, left)
  {
    hide CtlLeft;
    CtlLeftWorks(io, fd, left, works);
    var r := CtlLeft(io, fd, left, works).value;
    forall fd' | 0 <= fd' < |io.ctxs| && fd' != fd
      ensures Watches(r, fd', io.ctxs[fd'].events)
    {
      assert Watches(io.epoll, fd', io.ctxs[fd'].events);
    }
  }

  lemma ButIsMirrored(io: Io, fd: nat)
    requires fd < |io.ctxs| && MirroredBut(io, fd, io.ctxs[fd].events)
    ensures Mirrored(io)
  {
    hide Watches;
  }

  lemma EpollIsNotCore(io: Io, epoll: map<nat, set<Event>>)
    requires Core(io)
    ensures Core(io.(epoll := epoll))
  {
    hide ContextOk, Waits, IsWake, Count, S.Inv;
    SameContexts(io, io.(epoll := epoll));
    SameWakes(io, io.(epoll := epoll));
  }

  lemma SameWakes(io: Io, to: Io)
    requires io.scheduled == to.scheduled && io.regs == to.regs && io.sched == to.sched
    ensures forall wake :: IsWake(io, wake) <==> IsWake(to, wake)
  {
  }

  /** Arming an event leaves every other waiter where it is; growing the table leaves all. */
  lemma AddKeepsWaiters(io: Io, fd: nat, e: Event, cb: Option<nat>, fiber: nat, works: bool)
    requires Inv(io) && |io.ctxs| >= 32 && AddEvent(io, fd, e, cb, fiber, works).Done?
    ensures var to := AddEvent(io, fd, e, cb, fiber, works).io;
            && |to.regs| >= |io.regs| && to.regs[..|io.regs|] == io.regs
            && forall n | 0 <= n < |io.regs| :: Waits(to, n) <==> Waits(io, n)
  {
    hide Inv, Ctl, Armed, Waits, Grown, Context;
    GrowKeepsWaiters(io, fd);
    GrowKeepsInv(io, fd);
    GrownIs(io.ctxs, fd);
    var at := io.(ctxs := Grown(io.ctxs, fd));
    GrownIs(at.ctxs, fd);
    AddIsExactInTable(at, fd, e, cb, fiber, works);
    var r := AddEvent(at, fd, e, cb, fiber, works);
    if r.ok {
      var x := Waiter(cb, fiber, |io.regs|);
      ArmKeepsWaiters(at.(epoll := r.io.epoll), fd, e, x);
      SameContexts(at, at.(epoll := r.io.epoll));
      ArmedRest(at.(epoll := r.io.epoll), fd, e, x);
    }
  }

  lemma InvNumbers(io: Io)
    requires Inv(io)
    ensures ContextsOk(io)
  {
  }

  lemma GrowKeepsWaiters(io: Io, fd: nat)
    requires Inv(io) && |io.ctxs| >= 32
    ensures var to := io.(ctxs := Grown(io.ctxs, fd));
            forall n | 0 <= n < |io.regs| :: Waits(to, n) <==> Waits(io, n)
  {
    hide Core, Context;
  }

  lemma ArmKeepsWaiters(io: Io, fd: nat, e: Event, x: EventContext)
    requires fd < |io.ctxs| && e !in io.ctxs[fd].events && x.number == |io.regs|
    ensures var to := Armed(io, fd, e, x);
            forall n | 0 <= n < |io.regs| :: Waits(to, n) <==> Waits(io, n)
  {
    hide CallOf;
  }

  /** addEvent on a descriptor of the table. */
  lemma AddIsExactInTable(io: Io, fd: nat, e: Event, cb: Option<nat>, fiber: nat, works: bool)
    requires Inv(io) && |io.ctxs| >= 32 && fd < |io.ctxs|
    ensures var r := AddEvent(io, fd, e, cb, fiber, works);
            && (r == Aborted <==> e in io.ctxs[fd].events)
            && (r.Done? ==> Inv(r.io) && r.ok == works)
            && (r.Done? && !r.ok ==> r.io == io)
            && (r.Done? && r.ok ==>
                  r.io == Armed(io.(epoll := r.io.epoll), fd, e, Waiter(cb, fiber, |io.regs|))
                  && Waits(r.io, |io.regs|))
  {
    hide Core, Context, Watches, Armed, Ctl, Mirrored, Waits;
    GrownIs(io.ctxs, fd);
    if e !in io.ctxs[fd].events {
      VacantIs(io, fd, e);
      AddMirrors(io, fd, e, Waiter(cb, fiber, |io.regs|), works);
      if works {
        var c, x := io.ctxs[fd], Waiter(cb, fiber, |io.regs|);
        var epoll := Ctl(io.epoll, if c.events == {} then ADD else MOD, fd, c.events + {e}, works).value;
        EpollIsNotCore(io, epoll);
        ArmKeepsCore(io.(epoll := epoll), fd, e, x);
        ArmWaits(io.(epoll := epoll), fd, e, x);
        ArmedRest(io.(epoll := epoll), fd, e, x);
      }
    }
  }

  lemma ArmedRest(io: Io, fd: nat, e: Event, x: EventContext)
    requires fd < |io.ctxs|
    ensures var to := Armed(io, fd, e, x);
            && to == io.(ctxs := to.ctxs, pending := io.pending + 1, regs := to.regs)
            && to.regs == io.regs + [Registration(fd, e, CallOf(x))]
  {
  }

  /** addEvent fails its assertion exactly if the event is armed already, and else registers unless epoll_ctl fails. */
  lemma AddIsExact(io: Io, fd: nat, e: Event, cb: Option<nat>, fiber: nat, works: bool)
    requires Inv(io) && |io.ctxs| >= 32
    ensures var r := AddEvent(io, fd, e, cb, fiber, works);
            && (r == Aborted <==> fd < |io.ctxs| && e in io.ctxs[fd].events)
            && (r.Done? ==> Inv(r.io) && r.ok == works)
            && (r.Done? && !r.ok ==> r.io == io.(ctxs := Grown(io.ctxs, fd)))
            && (r.Done? && r.ok ==>
                  && r.io == io.(ctxs := r.io.ctxs, epoll := r.io.epoll, pending := io.pending + 1, regs := r.io.regs)
                  && r.io.regs == io.regs + [Registration(fd, e, CallOf(Waiter(cb, fiber, |io.regs|)))]
                  && Waits(r.io, |io.regs|))
  {
    hide Inv, Armed, Ctl, Context, Waits;
    var to := io.(ctxs := Grown(io.ctxs, fd));
    GrowKeepsInv(io, fd);
    GrownIs(io.ctxs, fd);
    GrownIs(to.ctxs, fd);
    AddIsExactInTable(to, fd, e, cb, fiber, works);
    var r := AddEvent(to, fd, e, cb, fiber, works);
    if r.Done? && r.ok { ArmedRest(to.(epoll := r.io.epoll), fd, e, Waiter(cb, fiber, |io.regs|)); }
  }

  lemma GrownIs(ctxs: seq<FdContext>, fd: nat)
    requires |ctxs| >= 32
    ensures fd < |ctxs| ==> Grown(ctxs, fd) == ctxs
    ensures fd >= |ctxs| ==> Grown(ctxs, fd)[fd] == Unused
  {
  }

  lemma VacantIs(io: Io, fd: nat, e: Event)
    requires Core(io) && fd < |io.ctxs| && e !in io.ctxs[fd].events
    ensures Context(io.ctxs[fd], e) == Vacant
  {
    hide Fates, Balanced, Woken, S.Inv;
    assert ContextOk(io.regs, io.ctxs[fd], fd, e);
  }

  lemma AddMirrors(io: Io, fd: nat, e: Event, x: EventContext, works: bool)
    requires Mirrored(io) && fd < |io.ctxs| && e !in io.ctxs[fd].events
    ensures var c := io.ctxs[fd];
            var r := Ctl(io.epoll, if c.events == {} then ADD else MOD, fd, c.events + {e}, works);
            && (r == None <==> !works)
            && (works ==> Mirrored(Armed(io.(epoll := r.value), fd, e, x)))
  {
    hide Mirrored, Watches, Armed;
    AddCtlWorks(io, fd, e, works);
    if works {
      var c := io.ctxs[fd];
      var r := Ctl(io.epoll, if c.events == {} then ADD else MOD, fd, c.events + {e}, works).value;
      ArmedContexts(io.(epoll := r), fd, e, x);
      OneWatchChanges(io, fd, Armed(io.(epoll := r), fd, e, x));
    }
  }

  lemma AddCtlWorks(io: Io, fd: nat, e: Event, works: bool)
    requires Mirrored(io) && fd < |io.ctxs| && e !in io.ctxs[fd].events
    ensures var c := io.ctxs[fd];
            var r := Ctl(io.epoll, if c.events == {} then ADD else MOD, fd, c.events + {e}, works);
            && (r == None <==> !works)
            && (works ==> Watches(r.value, fd, c.events + {e}))
  {
    assert Watches(io.epoll, fd, io.ctxs[fd].events);
    assert e in io.ctxs[fd].events + {e};
  }

  lemma ArmedContexts(io: Io, fd: nat, e: Event, x: EventContext)
    requires fd < |io.ctxs|
    ensures var to := Armed(io, fd, e, x);
            && |to.ctxs| == |io.ctxs| && to.epoll == io.epoll && to.ctxs[fd].events == io.ctxs[fd].events + {e}
            && forall fd' | 0 <= fd' < |io.ctxs| && fd' != fd :: to.ctxs[fd'] == io.ctxs[fd']
  {
  }

  lemma OneWatchChanges(io: Io, fd: nat, to: Io)
    requires Mirrored(io) && |to.ctxs| == |io.ctxs| && fd < |io.ctxs|
    requires Watches(to.epoll, fd, to.ctxs[fd].events)
    requires forall fd' | 0 <= fd' < |io.ctxs| && fd' != fd :: to.ctxs[fd'] == io.ctxs[fd']
    requires forall fd' | fd' != fd :: (fd' in to.epoll <==> fd' in io.epoll)
                                       && (fd' in io.epoll ==> to.epoll[fd'] == io.epoll[fd'])
    ensures Mirrored(to)
  {
    forall fd' | 0 <= fd' < |io.ctxs|
      ensures Watches(to.epoll, fd', to.ctxs[fd'].events)
    {
      assert Watches(io.epoll, fd', io.ctxs[fd'].events);
    }
  }

  lemma ArmWaits(io: Io, fd: nat, e: Event, x: EventContext)
    requires fd < |io.ctxs| && x.number == |io.regs|
    ensures Waits(Armed(io, fd, e, x), |io.regs|)
  {
  }

  /** delEvent takes effect exactly if the event is armed and epoll_ctl works; then its waiter is forgotten. */
  lemma DelIsExact(io: Io, fd: nat, e: Event, works: bool)
    requires Inv(io)
    ensures var r := DelEvent(io, fd, e, works);
            && r.Done? && Inv(r.io)
            && (r.ok <==> works && fd < |io.ctxs| && e in io.ctxs[fd].events)
            && (!r.ok ==> r.io == io)
            && (r.ok ==> r.io == Deleted(io, fd, e).(epoll := r.io.epoll))
  {
    hide Core, Disarmed, Context, CtlLeft, Watches;
    if fd < |io.ctxs| && e in io.ctxs[fd].events {
      var left := io.ctxs[fd].events - {e};
      CtlLeftWorks(io, fd, left, works);
      if works {
        LeftMirrors(io, fd, left, works);
        var epoll := CtlLeft(io, fd, left, works).value;
        DisarmedEvents(io.ctxs[fd], e);
        EpollIsNotCore(io, epoll);
        DeleteKeepsCore(io.(epoll := epoll), fd, e);
        ButIsMirrored(Deleted(io.(epoll := epoll), fd, e), fd);
      }
    }
  }

  lemma DisarmedEvents(c: FdContext, e: Event)
    ensures Disarmed(c, e).events == c.events - {e}
  {
  }

  /** A fired registration is scheduled, by queueing its waiter as the last task; no other is touched. */
  lemma FireIsExact(io: Io, fd: nat, e: Event)
    requires Core(io) && fd < |io.ctxs| && e in io.ctxs[fd].events
    ensures var to, n := Fire(io, fd, e), Context(io.ctxs[fd], e).number;
            && n < |io.regs| && Waits(io, n) && io.regs[n].fd == fd && io.regs[n].event == e
            && to == io.(ctxs := to.ctxs, pending := io.pending - 1, sched := to.sched,
                         scheduled := io.scheduled + {n}, wakes := to.wakes)
            && n !in io.scheduled
            && to.sched.queue == io.sched.queue + [S.Task(io.regs[n].call, S.ANY, |io.sched.accepted|)]
            && to.sched.held == io.sched.held
            && (forall m | 0 <= m < |io.regs| :: Waits(to, m) <==> Waits(io, m) && m != n)
            && to.ctxs[fd].events == io.ctxs[fd].events - {e} && |to.ctxs| == |io.ctxs|
            && forall fd' | 0 <= fd' < |io.ctxs| && fd' != fd :: to.ctxs[fd'] == io.ctxs[fd']
  {
    hide ContextsOk, Fates, Balanced, Woken, S.Inv, Context, SetContext, Waits, CallOf;
    var to := Fire(io, fd, e);
    ArmedIs(io, fd, e);
    DisarmKeepsContexts(io, fd, e, to.ctxs);
    SameContexts(io.(ctxs := to.ctxs), to);
    DisarmedEvents(io.ctxs[fd], e);
  }

  /** What firing those events did: their registrations, and no others, are scheduled. */
  predicate FiredAll(io: Io, fd: nat, events: set<Event>, to: Io) {
    && fd < |io.ctxs| && |to.ctxs| == |io.ctxs|
    && to.ctxs[fd].events == io.ctxs[fd].events - events
    && (forall fd' | 0 <= fd' < |io.ctxs| && fd' != fd :: to.ctxs[fd'] == io.ctxs[fd'])
    && to.regs == io.regs && to.deleted == io.deleted && to.sched.held == io.sched.held
    && (forall n | 0 <= n < |io.regs| ::
          var fires := Waits(io, n) && io.regs[n].fd == fd && io.regs[n].event in events;
          && (Waits(to, n) <==> Waits(io, n) && !fires)
          && (n in to.scheduled <==> n in io.scheduled || fires))
  }

  lemma FireIsFiredAll(io: Io, fd: nat, e: Event)
    requires Core(io) && fd < |io.ctxs| && e in io.ctxs[fd].events
    ensures FiredAll(io, fd, {e}, Fire(io, fd, e))
  {
    hide Core, Fire, Waits, Context;
    FireIsExact(io, fd, e);
    OnlyWaiter(io, fd, e);
  }

  /** At most one registration waits for an event. */
  lemma OnlyWaiter(io: Io, fd: nat, e: Event)
    requires fd < |io.ctxs|
    ensures forall n | 0 <= n < |io.regs| && Waits(io, n) && io.regs[n].fd == fd && io.regs[n].event == e ::
              n == Context(io.ctxs[fd], e).number
  {
  }

  lemma FiredTwice(io: Io, fd: nat, a: set<Event>, mid: Io, b: set<Event>, to: Io)
    requires FiredAll(io, fd, a, mid) && FiredAll(mid, fd, b, to)
    ensures FiredAll(io, fd, a + b, to)
  {
    hide Waits;
  }

  lemma FiredNothing(io: Io, fd: nat)
    requires fd < |io.ctxs|
    ensures FiredAll(io, fd, {}, io)
  {
    hide Waits;
  }

  /** Triggering events fails its assertion exactly if one is not armed; else all of them fire. */
  lemma TriggerAllIsExact(io: Io, fd: nat, events: set<Event>)
    requires Core(io) && fd < |io.ctxs|
    ensures var r := TriggerAll(io, fd, events);
            && (r == Aborted <==> !(events <= io.ctxs[fd].events))
            && (r.Done? ==> r.ok && Core(r.io) && r.io.epoll == io.epoll && FiredAll(io, fd, events, r.io))
  {
    hide Core, Fire, FiredAll;
    FiredNothing(io, fd);
    var mid := if READ in events then Trigger(io, fd, READ) else Done(io, true);
    if READ in events && mid.Done? {
      FireKeepsCore(io, fd, READ);
      FireIsFiredAll(io, fd, READ);
    }
    var one := if READ in events then {READ} else {};
    if mid.Done? {
      FiredKeeps(io, fd, one, mid.io);
      if WRITE in events && WRITE in mid.io.ctxs[fd].events {
        FireKeepsCore(mid.io, fd, WRITE);
        FireIsFiredAll(mid.io, fd, WRITE);
        FiredTwice(io, fd, one, mid.io, {WRITE}, Fire(mid.io, fd, WRITE));
        FireEpoll(mid.io, fd, WRITE);
      }
      if READ in events { FireEpoll(io, fd, READ); }
    }
    ByBits(events);
    assert events == if WRITE in events then one + {WRITE} else one;
  }

  lemma FireEpoll(io: Io, fd: nat, e: Event)
    requires fd < |io.ctxs|
    ensures Fire(io, fd, e).epoll == io.epoll
  {
  }

  lemma FiredKeeps(io: Io, fd: nat, events: set<Event>, to: Io)
    requires FiredAll(io, fd, events, to)
    ensures |to.ctxs| == |io.ctxs| && fd < |io.ctxs| && to.ctxs[fd].events == io.ctxs[fd].events - events
  {
  }

  lemma ByBits(events: set<Event>)
    ensures events == (if READ in events then {READ} else {}) + (if WRITE in events then {WRITE} else {})
  {
    forall e | e in events
      ensures e == READ || e == WRITE
    {
      match e case READ => case WRITE =>
    }
  }

  /** Firing the events that epoll has just stopped watching restores the mirror. */
  lemma TriggerLeft(io: Io, fd: nat, events: set<Event>, left: set<Event>, works: bool)
    requires Inv(io) && fd < |io.ctxs| && io.ctxs[fd].events != {} && works
    requires left == io.ctxs[fd].events - events
    ensures var epoll := CtlLeft(io, fd, left, works);
            && epoll.Some?
            && var r := TriggerAll(io.(epoll := epoll.value), fd, events);
            && (r == Aborted <==> !(events <= io.ctxs[fd].events))
            && (r.Done? ==> r.ok && Inv(r.io) && FiredAll(io, fd, events, r.io))
  {
    hide Core, TriggerAll, CtlLeft, Watches;
    CtlLeftWorks(io, fd, left, works);
    LeftMirrors(io, fd, left, works);
    var epoll := CtlLeft(io, fd, left, works).value;
    EpollIsNotCore(io, epoll);
    var at := io.(epoll := epoll);
    TriggerAllIsExact(at, fd, events);
    var r := TriggerAll(at, fd, events);
    SameContexts(io, at);
    if r.Done? { ButIsMirrored(r.io, fd); }
  }

  lemma TriggerOne(io: Io, fd: nat, e: Event)
    requires fd < |io.ctxs|
    ensures TriggerAll(io, fd, {e}) == Trigger(io, fd, e)
  {
  }

  /** cancelEvent takes effect exactly if the event is armed and epoll_ctl works; then just its waiter is scheduled. */
  lemma CancelIsExact(io: Io, fd: nat, e: Event, works: bool)
    requires Inv(io)
    ensures var r := CancelEvent(io, fd, e, works);
            && r.Done? && Inv(r.io)
            && (r.ok <==> works && fd < |io.ctxs| && e in io.ctxs[fd].events)
            && (!r.ok ==> r.io == io)
            && (r.ok ==> FiredAll(io, fd, {e}, r.io))
  {
    hide Inv, TriggerAll, Trigger, CtlLeft, FiredAll;
    if fd < |io.ctxs| && e in io.ctxs[fd].events {
      InvIsMirrored(io);
      CtlLeftWorks(io, fd, io.ctxs[fd].events - {e}, works);
      if works {
        TriggerLeft(io, fd, {e}, io.ctxs[fd].events - {e}, works);
        TriggerOne(io.(epoll := CtlLeft(io, fd, io.ctxs[fd].events - {e}, works).value), fd, e);
      }
    }
  }

  lemma InvIsMirrored(io: Io)
    requires Inv(io)
    ensures Mirrored(io)
  {
  }

  /** cancelAll schedules everybody who waits on the descriptor; its assertions hold. */
  lemma CancelAllIsExact(io: Io, fd: nat, works: bool)
    requires Inv(io)
    ensures var r := CancelAll(io, fd, works);
            && r.Done? && Inv(r.io)
            && (r.ok <==> works && fd < |io.ctxs| && io.ctxs[fd].events != {})
            && (!r.ok ==> r.io == io)
            && (r.ok ==> FiredAll(io, fd, {READ, WRITE}, r.io))
  {
    hide Inv, TriggerAll, FiredAll;
    if fd < |io.ctxs| && io.ctxs[fd].events != {} {
      var events := io.ctxs[fd].events;
      InvIsMirrored(io);
      CtlLeftWorks(io, fd, {}, works);
      if works {
        TriggerLeft(io, fd, events, {}, works);
        var to := TriggerAll(io.(epoll := CtlLeft(io, fd, {}, works).value), fd, events).io;
        FiredKeeps(io, fd, events, to);
        FiredBoth(io, fd, to);
      }
    }
  }

  /** Firing all that is armed is firing both events. */
  lemma FiredBoth(io: Io, fd: nat, to: Io)
    requires fd < |io.ctxs| && FiredAll(io, fd, io.ctxs[fd].events, to)
    ensures FiredAll(io, fd, {READ, WRITE}, to)
  {
    ByBits(io.ctxs[fd].events);
    hide Context;
    assert forall n | 0 <= n < |io.regs| && Waits(io, n) && io.regs[n].fd == fd ::
        io.regs[n].event in io.ctxs[fd].events;
    forall n | 0 <= n < |io.regs|
      ensures io.regs[n].event in {READ, WRITE}
    {
      match io.regs[n].event case READ => case WRITE =>
    }
    assert io.ctxs[fd].events - {READ, WRITE} == {};
  }

  /**
   * One report of the event loop. The assertion fails exactly if an event is reported that is not
   * armed, along with one that is; else everybody who waits for a reported event is scheduled.
   */
  lemma DeliverIsExact(io: Io, fd: nat, flags: set<Flag>, works: bool)
    requires Inv(io) && fd < |io.ctxs|
    ensures var r := Deliver(io, fd, flags, works);
            var armed := io.ctxs[fd].events;
            var meant := Meant(flags, armed);
            && (r == Aborted <==> works && armed * meant != {} && !(meant <= armed))
            && (r.Done? ==> Inv(r.io) && (r.ok <==> works && armed * meant != {}))
            && (r.Done? && r.ok ==> FiredAll(io, fd, meant, r.io))
            && (r.Done? && !r.ok ==> r.io == io)
  {
    hide Inv, TriggerAll, FiredAll, CtlLeft, Meant;
    var armed := io.ctxs[fd].events;
    var meant := Meant(flags, armed);
    if armed * meant != {} {
      InvIsMirrored(io);
      CtlLeftWorks(io, fd, armed - meant, works);
      if works { TriggerLeft(io, fd, meant, armed - meant, works); }
    }
  }

  // ----- The event loop -----

  /** What epoll_wait returns for one descriptor, and whether the epoll_ctl call made for it works. */
  datatype Report = Report(fd: nat, flags: set<Flag>, works: bool)

  /** The kernel reports a watched descriptor, for events it is watched for, an error or a hang-up. */
  predicate Honest(epoll: map<nat, set<Event>>, r: Report) {
    && r.fd in epoll
    && (IN in r.flags ==> READ in epoll[r.fd])
    && (OUT in r.flags ==> WRITE in epoll[r.fd])
  }

  /** The loop over the reports of one epoll_wait. */
  function DeliverEach(io: Io, reports: seq<Report>): Result
    requires forall i | 0 <= i < |reports| :: reports[i].fd < |io.ctxs|
    decreases |reports|
  {
    if reports == [] then Done(io, true)
    else
      var r := Deliver(io, reports[0].fd, reports[0].flags, reports[0].works);
      if r == Aborted then Aborted
      else
        DeliverKeepsSize(io, reports[0].fd, reports[0].flags, reports[0].works);
        DeliverEach(r.io, reports[1..])
  }

  lemma DeliverNext(io: Io, reports: seq<Report>, i: nat)
    requires i < |reports| && forall j | i <= j < |reports| :: reports[j].fd < |io.ctxs|
    ensures var r := Deliver(io, reports[i].fd, reports[i].flags, reports[i].works);
            r.Done? ==>
              && |r.io.ctxs| == |io.ctxs|
              && DeliverEach(io, reports[i..]) == DeliverEach(r.io, reports[i + 1..])
  {
    hide Deliver;
    DeliverKeepsSize(io, reports[i].fd, reports[i].flags, reports[i].works);
    assert reports[i..][1..] == reports[i + 1..];
  }

  lemma DeliverNothing(io: Io, reports: seq<Report>)
    requires reports == []
    ensures DeliverEach(io, reports) == Done(io, true)
  {
  }

  lemma DeliverKeepsSize(io: Io, fd: nat, flags: set<Flag>, works: bool)
    requires fd < |io.ctxs|
    ensures var r := Deliver(io, fd, flags, works);
            r.Done? ==> |r.io.ctxs| == |io.ctxs|
  {
  }

  /** Reports of distinct descriptors, as the kernel gives them, never fail an assertion. */
  lemma {:induction false} ReportsAreHandled(io: Io, reports: seq<Report>)
    requires Inv(io)
    requires forall i | 0 <= i < |reports| :: reports[i].fd < |io.ctxs|
    requires forall i | 0 <= i < |reports| ::
               Meant(reports[i].flags, io.ctxs[reports[i].fd].events) <= io.ctxs[reports[i].fd].events
    requires forall i, j | 0 <= i < j < |reports| :: reports[i].fd != reports[j].fd
    ensures var r := DeliverEach(io, reports);
            r.Done? && Inv(r.io)
    decreases |reports|
  {
    hide Inv, Deliver, Meant;
    if reports != [] {
      var first := reports[0];
      DeliverIsExact(io, first.fd, first.flags, first.works);
      var r := Deliver(io, first.fd, first.flags, first.works);
      DeliverKeepsSize(io, first.fd, first.flags, first.works);
      var rest := reports[1..];
      assert forall i | 0 <= i < |rest| :: rest[i] == reports[i + 1];
      OthersStay(io, first.fd, r.io);
      ReportsAreHandled(r.io, rest);
    }
  }

  lemma OthersStay(io: Io, fd: nat, to: Io)
    requires fd < |io.ctxs| && |to.ctxs| == |io.ctxs|
    requires to == io || exists events :: FiredAll(io, fd, events, to)
    ensures forall fd' | 0 <= fd' < |io.ctxs| && fd' != fd :: to.ctxs[fd'] == io.ctxs[fd']
  {
    hide Waits;
  }

  /** What an honest kernel reports is armed. */
  lemma HonestIsArmed(io: Io, r: Report)
    requires Mirrored(io) && Honest(io.epoll, r)
    ensures r.fd < |io.ctxs| && Meant(r.flags, io.ctxs[r.fd].events) <= io.ctxs[r.fd].events
  {
    assert Watches(io.epoll, r.fd, io.ctxs[r.fd].events);
  }

  lemma BelowIsValid(io: Io)
    requires Inv(io)
    ensures S.Inv(io.sched)
  {
  }

  lemma ArmedReports(io: Io, reports: seq<Report>)
    requires Inv(io) && Enabled(io, Wait(reports))
    ensures forall i | 0 <= i < |reports| ::
              Meant(reports[i].flags, io.ctxs[reports[i].fd].events) <= io.ctxs[reports[i].fd].events
  {
    hide Core, Meant, Honest, Mirrored;
    forall i | 0 <= i < |reports|
      ensures Meant(reports[i].flags, io.ctxs[reports[i].fd].events) <= io.ctxs[reports[i].fd].events
    {
      HonestIsArmed(io, reports[i]);
    }
  }

  // ----- Every run -----

  /** What can happen: a call of the manager, a pass of the event loop, or a step of the scheduler below. */
  datatype Step =
    | Add(fd: nat, e: Event, cb: Option<nat>, fiber: nat, works: bool)
    | Del(fd: nat, e: Event, works: bool)
    | Cancel(fd: nat, e: Event, works: bool)
    | CancelBoth(fd: nat, works: bool)
    | Wait(reports: seq<Report>)
    | Below(step: S.Step)

  /** Nobody arms an event twice, the kernel is honest, and the scheduler's steps are its own. */
  ghost predicate Enabled(io: Io, step: Step) {
    match step
    case Add(fd, e, _, _, _) => fd < |io.ctxs| ==> e !in io.ctxs[fd].events
    case Wait(reports) =>
      && (forall i | 0 <= i < |reports| :: reports[i].fd < |io.ctxs| && Honest(io.epoll, reports[i]))
      && forall i, j | 0 <= i < j < |reports| :: reports[i].fd != reports[j].fd
    case Below(step) => S.Enabled(io.sched, step)
    case _ => true
  }

  /** Nothing but arming an event twice, a dishonest report and the scheduler's own rules is excluded. */
  lemma EnabledIs(io: Io, step: Step)
    ensures step.Del? || step.Cancel? || step.CancelBoth? ==> Enabled(io, step)
    ensures step.Add? && (step.fd >= |io.ctxs| || step.e !in io.ctxs[step.fd].events) ==> Enabled(io, step)
    ensures step.Wait?
            && (forall i | 0 <= i < |step.reports| ::
                  var r := step.reports[i];
                  && r.fd < |io.ctxs| && r.fd in io.epoll
                  && (IN in r.flags ==> READ in io.epoll[r.fd]) && (OUT in r.flags ==> WRITE in io.epoll[r.fd]))
            && (forall i, j | 0 <= i < j < |step.reports| :: step.reports[i].fd != step.reports[j].fd)
            ==> Enabled(io, step)
  {
  }

  ghost function Exec(io: Io, step: Step): Result
    requires Inv(io) && Enabled(io, step)
  {
    match step
    case Add(fd, e, cb, fiber, works) => AddEvent(io, fd, e, cb, fiber, works)
    case Del(fd, e, works) => DelEvent(io, fd, e, works)
    case Cancel(fd, e, works) => CancelEvent(io, fd, e, works)
    case CancelBoth(fd, works) => CancelAll(io, fd, works)
    case Wait(reports) => DeliverEach(io, reports)
    case Below(step) => Done(io.(sched := S.Exec(io.sched, step)), true)
  }

  lemma WaitKeepsInv(io: Io, reports: seq<Report>)
    requires Inv(io) && Enabled(io, Wait(reports))
    ensures var r := DeliverEach(io, reports);
            r.Done? && Inv(r.io)
  {
    hide Inv, Meant, Honest;
    ArmedReports(io, reports);
    ReportsAreHandled(io, reports);
  }

  lemma BelowKeepsInv(io: Io, step: S.Step)
    requires Inv(io) && S.Enabled(io.sched, step)
    ensures Inv(io.(sched := S.Exec(io.sched, step)))
  {
    hide S.Inv, S.Exec, S.Enabled, ContextOk, Waits, Watches;
    var to := io.(sched := S.Exec(io.sched, step));
    S.ExecKeepsInv(io.sched, step);
    S.ExecExtends(io.sched, step);
    SameContexts(io, to);
    WakesStay(io, to);
  }

  lemma WakesStay(io: Io, to: Io)
    requires Woken(io) && S.Extends(io.sched, to.sched) && to == io.(sched := to.sched)
    ensures Woken(to)
  {
    forall i | 0 <= i < |to.wakes|
      ensures IsWake(to, to.wakes[i])
    {
      assert IsWake(io, io.wakes[i]);
      var k := io.wakes[i].1;
      assert to.sched.accepted[..|io.sched.accepted|][k] == io.sched.accepted[k];
    }
  }

  /** No assertion of the manager ever fails, and the invariant holds after every step. */
  lemma ExecKeepsInv(io: Io, step: Step)
    requires Inv(io) && Enabled(io, step)
    ensures Exec(io, step).Done? && Inv(Exec(io, step).io)
  {
    hide Inv, AddEvent, DelEvent, CancelEvent, CancelAll, DeliverEach;
    match step
    case Add(fd, e, cb, fiber, works) => InvIsBig(io); AddIsExact(io, fd, e, cb, fiber, works);
    case Del(fd, e, works) => DelIsExact(io, fd, e, works);
    case Cancel(fd, e, works) => CancelIsExact(io, fd, e, works);
    case CancelBoth(fd, works) => CancelAllIsExact(io, fd, works);
    case Wait(reports) => WaitKeepsInv(io, reports);
    case Below(step) => BelowKeepsInv(io, step);
  }

  lemma InvIsBig(io: Io)
    requires Inv(io)
    ensures |io.ctxs| >= 32
  {
  }

  ghost predicate Runs(io: Io, steps: seq<Step>)
    requires Inv(io)
    decreases |steps|
  {
    steps == [] ||
    (&& Enabled(io, steps[0])
     && (ExecKeepsInv(io, steps[0]); Runs(Exec(io, steps[0]).io, steps[1..])))
  }

  ghost function Run(io: Io, steps: seq<Step>): (to: Io)
    requires Inv(io) && Runs(io, steps)
    ensures Inv(to)
    decreases |steps|
  {
    if steps == [] then io
    else
      ExecKeepsInv(io, steps[0]);
      Run(Exec(io, steps[0]).io, steps[1..])
  }

  function Fresh(): Io {
    Io(seq(32, _ => Unused), 0, map[], S.Fresh, [], {}, {}, [])
  }

  lemma FreshIs()
    ensures Fresh() == Io(Resized([], 32), 0, map[], S.Fresh, [], {}, {}, [])
  {
    assert Resized([], 32) == Fresh().ctxs;
  }

  lemma FreshIsValid()
    ensures Inv(Fresh())
  {
    hide S.Inv, Count;
    SchedulerIsFresh();
    CountUnused(Fresh().ctxs);
  }

  lemma SchedulerIsFresh()
    ensures S.Inv(S.Fresh)
  {
  }

  /**
   * Wake-once conservation over every run: each registration is waiting, deleted or scheduled, in
   * exactly one of these; their numbers add up; and a scheduled one was queued exactly once.
   */
  lemma EveryRegistrationIsSettled(steps: seq<Step>)
    requires Inv(Fresh()) && Runs(Fresh(), steps)
    ensures var io := Run(Fresh(), steps);
            && |io.regs| == io.pending + |io.deleted| + |io.scheduled|
            && (forall n | 0 <= n < |io.regs| ::
                  var where := (if Waits(io, n) then 1 else 0) + (if n in io.deleted then 1 else 0)
                             + if n in io.scheduled then 1 else 0;
                  where == 1)
            && (forall n | n in io.scheduled :: exists i :: 0 <= i < |io.wakes| && io.wakes[i].0 == n)
            && Woken(io)
  {
    var io := Run(Fresh(), steps);
    hide Run, Runs, Mirrored, ContextsOk, S.Inv, Waits, Count;
    WakesCover(io);
  }

  /** As many wakes as registrations scheduled, no two for the same one: there is one for each. */
  lemma WakesCover(io: Io)
    requires Woken(io) && |io.wakes| == |io.scheduled|
    ensures forall n | n in io.scheduled :: exists i :: 0 <= i < |io.wakes| && io.wakes[i].0 == n
  {
    var woken := WakeSet(io.wakes);
    assert woken <= io.scheduled;
    SubsetIsWhole(woken, io.scheduled);
  }

  lemma {:induction false} WakeSet(wakes: seq<(nat, nat)>) returns (r: set<nat>)
    requires forall i, j | 0 <= i < j < |wakes| :: wakes[i].0 != wakes[j].0
    ensures |r| == |wakes| && forall n :: n in r <==> exists i :: 0 <= i < |wakes| && wakes[i].0 == n
  {
    r := {};
    for k := 0 to |wakes|
      invariant |r| == k && forall n :: n in r <==> exists i :: 0 <= i < k && wakes[i].0 == n
    {
      r := r + {wakes[k].0};
    }
  }

  lemma SubsetIsWhole(a: set<nat>, b: set<nat>)
    requires a <= b && |a| == |b|
    ensures a == b
  {
    assert |b - a| == |b| - |a|;
    assert b == a + (b - a);
  }

  // ----- Stopping -----

  /** IOManager::stopping, once no timer is left. */
  predicate Stopping(io: Io) { io.pending == 0 && S.Stopping(io.sched) }

  lemma {:induction false} CountIsZero(ctxs: seq<FdContext>)
    ensures Count(ctxs) == 0 <==> forall fd | 0 <= fd < |ctxs| :: ctxs[fd].events == {}
  {
    if ctxs != [] {
      CountIsZero(ctxs[1..]);
      assert forall fd | 0 < fd < |ctxs| :: ctxs[fd] == ctxs[1..][fd - 1];
    }
  }

  /** The manager is stopping exactly when told to, nobody waits for an event, and every task has ended. */
  lemma StoppingIsExact(io: Io)
    requires Inv(io)
    ensures Stopping(io) <==> && io.sched.stopping
                              && (forall n | 0 <= n < |io.regs| :: n in io.deleted || n in io.scheduled)
                              && forall n | 0 <= n < |io.sched.accepted| :: n in io.sched.done
  {
    hide S.Inv, Woken, Mirrored, S.Stopping;
    S.StoppingIsExact(io.sched);
    CountIsZero(io.ctxs);
    if io.pending != 0 {
      var fd :| 0 <= fd < |io.ctxs| && io.ctxs[fd].events != {};
      var e :| e in io.ctxs[fd].events;
      ArmedIs(io, fd, e);
    }
  }
}
