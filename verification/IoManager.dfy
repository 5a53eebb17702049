/**
 * The IO manager as objects: a table of descriptor contexts that are updated in place, the epoll
 * instance, and the scheduler that fired events are queued with. Every method does to the objects
 * what the function of the same name in IoSpec does to the values.
 */
module IoManagers {
  import S = SchedulerSpec
  import Schedulers
  import I = IoSpec
  import R = IoReports
  import opened Wrappers

  class FdContext {
    var events: set<I.Event>
    var read: I.EventContext
    var write: I.EventContext

    constructor ()
      ensures Value() == I.Unused
    {
      events, read, write := {}, I.Vacant, I.Vacant;
    }

    ghost function Value(): I.FdContext
      reads this
    {
      I.FdContext(events, read, write)
    }

    method SetEventContext(e: I.Event, x: I.EventContext)
      modifies this`read, this`write
      ensures Value() == I.SetContext(old(Value()), e, x)
    {
      match e
      case READ => read := x;
      case WRITE => write := x;
    }

    method GetEventContext(e: I.Event) returns (x: I.EventContext)
      ensures x == I.Context(Value(), e)
    {
      match e
      case READ => x := read;
      case WRITE => x := write;
    }

    method TriggerEvent(e: I.Event, scheduler: Schedulers.Scheduler)
      requires e in events && scheduler.Valid()
      modifies this, scheduler
      ensures Value() == I.Disarmed(old(Value()), e)
      ensures scheduler.Valid()
      ensures scheduler.View() == S.DoSchedule(old(scheduler.View()), old(I.CallOf(I.Context(Value(), e))), S.ANY)
    {
      hide S.DoSchedule, S.Inv;
      events := events - {e};
      var x := GetEventContext(e);
      if x.cb.Some? {
        scheduler.Schedule(S.Callback(x.cb.value), S.ANY);
      } else {
        scheduler.Schedule(if x.fiber.Some? then S.Fiber(x.fiber.value) else S.Empty, S.ANY);
      }
      SetEventContext(e, I.Vacant);
    }
  }

  ghost predicate Separate(contexts: seq<FdContext>) {
    forall i, j | 0 <= i < j < |contexts| :: contexts[i] != contexts[j]
  }

  ghost function Values(contexts: seq<FdContext>): (r: seq<I.FdContext>)
    reads contexts
    ensures |r| == |contexts|
    ensures forall i | 0 <= i < |r| :: r[i] == contexts[i].Value()
  {
    seq(|contexts|, i requires 0 <= i < |contexts| reads contexts => contexts[i].Value())
  }

  class IOManager {
    const scheduler: Schedulers.Scheduler
    var contexts: seq<FdContext>
    var pending: int
    var epoll: map<nat, set<I.Event>>
    /** The history: every registration made, and below what became of it. */
    var regs: seq<I.Registration>
    ghost var deleted: set<nat>
    ghost var scheduled: set<nat>
    ghost var wakes: seq<(nat, nat)>

    ghost function View(): I.Io
      reads this, contexts, scheduler
    {
      I.Io(Values(contexts), pending, epoll, scheduler.View(), regs, deleted, scheduled, wakes)
    }

    /** The count, the mirror and the contexts agree; every registration is in one place. */
    ghost predicate Valid()
      reads this, contexts, scheduler
    {
      Separate(contexts) && I.Inv(View())
    }

    constructor ()
      ensures Valid() && View() == I.Fresh()
    {
      hide S.Inv, I.Inv, I.Resized, I.Fresh;
      I.FreshIs();
      scheduler := new Schedulers.Scheduler();
      contexts, pending, epoll := [], 0, map[];
      regs, deleted, scheduled, wakes := [], {}, {}, [];
      new;
      assert Values(contexts) == [];
      ContextResize(32);
      I.FreshIsValid();
    }

    /** The new entries are filled with unused contexts. */
    method ContextResize(size: nat)
      requires Separate(contexts) && |contexts| <= size
      modifies this`contexts
      ensures Separate(contexts) && |contexts| == size
      ensures contexts[..|old(contexts)|] == old(contexts) && fresh(contexts[|old(contexts)|..])
      ensures Values(contexts) == I.Resized(old(Values(contexts)), size)
    {
      while |contexts| < size
        modifies this`contexts
        invariant |old(contexts)| <= |contexts| <= size && Separate(contexts)
        invariant contexts[..|old(contexts)|] == old(contexts)
        invariant forall i | |old(contexts)| <= i < |contexts| :: fresh(contexts[i]) && contexts[i].Value() == I.Unused
        invariant forall i | 0 <= i < |contexts| :: allocated(contexts[i])
      {
        var c := new FdContext();
        contexts := contexts + [c];
      }
    }

    /** addEvent: grows the table, arms the event in epoll and in the context; it aborts if the event is armed. */
    method AddEvent(fd: nat, e: I.Event, cb: Option<nat>, fiber: nat, works: bool) returns (ok: bool, aborted: bool)
      requires Valid()
      modifies this, contexts
      ensures I.AddEvent(old(View()), fd, e, cb, fiber, works) == if aborted then I.Aborted else I.Done(View(), ok)
      ensures Valid() && aborted == old(fd < |contexts| && e in contexts[fd].events)
      ensures |old(contexts)| <= |contexts| && contexts[..|old(contexts)|] == old(contexts)
      ensures fresh(contexts[|old(contexts)|..])
    {
      hide I.Inv, I.Ctl, I.Armed, I.Waits, I.Resized;
      ghost var io := View();
      I.InvIsBig(io);
      I.AddIsExact(io, fd, e, cb, fiber, works);
      I.GrowKeepsInv(io, fd);
      if fd >= |contexts| {
        ContextResize(fd + fd / 2);
      }
      assert Values(contexts) == I.Grown(io.ctxs, fd);
      var c := contexts[fd];
      ghost var n := |old(contexts)|;
      assert if fd < n then contexts[..n][fd] == c else contexts[n..][fd - n] == c;
      if e in c.events {
        return false, true;
      }
      aborted := false;
      var op := if c.events == {} then I.ADD else I.MOD;
      var watched := I.Ctl(epoll, op, fd, c.events + {e}, works);
      if watched == None {
        ok := false;
        return;
      }
      epoll := watched.value;
      Arm(fd, e, I.Waiter(cb, fiber, |regs|));
      ok := true;
    }

    /** The count, the mask and the event's context. */
    method Arm(fd: nat, e: I.Event, x: I.EventContext)
      requires Separate(contexts) && fd < |contexts|
      modifies this`pending, this`regs, contexts[fd]
      ensures View() == I.Armed(old(View()), fd, e, x)
    {
      hide I.Context, I.CallOf;
      pending := pending + 1;
      regs := regs + [I.Registration(fd, e, I.CallOf(x))];
      contexts[fd].events := contexts[fd].events + {e};
      contexts[fd].SetEventContext(e, x);
      assert Values(contexts) == I.Armed(old(View()), fd, e, x).ctxs;
    }

    method DelEvent(fd: nat, e: I.Event, works: bool) returns (ok: bool)
      requires Valid()
      modifies this, contexts
      ensures Valid() && contexts == old(contexts) && I.DelEvent(old(View()), fd, e, works) == I.Done(View(), ok)
    {
      hide I.Inv, I.Ctl, I.Disarmed;
      I.DelIsExact(View(), fd, e, works);
      if fd >= |contexts| || e !in contexts[fd].events {
        return false;
      }
      var left := contexts[fd].events - {e};
      var watched := I.Ctl(epoll, if left == {} then I.DEL else I.MOD, fd, left, works);
      if watched == None {
        return false;
      }
      epoll := watched.value;
      Forget(fd, e);
      ok := true;
    }

    method Forget(fd: nat, e: I.Event)
      requires Separate(contexts) && fd < |contexts|
      modifies this`pending, this`deleted, contexts[fd]
      ensures View() == I.Deleted(old(View()), fd, e)
    {
      hide I.Context;
      deleted := deleted + {I.Context(contexts[fd].Value(), e).number};
      pending := pending - 1;
      contexts[fd].events := contexts[fd].events - {e};
      contexts[fd].SetEventContext(e, I.Vacant);
      assert Values(contexts) == I.Deleted(old(View()), fd, e).ctxs;
    }

    /** triggerEvent and the count. */
    method Fire(fd: nat, e: I.Event)
      requires Separate(contexts) && scheduler.Valid() && fd < |contexts| && e in contexts[fd].events
      modifies this`pending, this`scheduled, this`wakes, contexts[fd], scheduler
      ensures scheduler.Valid() && View() == I.Fire(old(View()), fd, e)
    {
      hide S.Inv, S.DoSchedule, I.Disarmed, I.CallOf;
      ghost var n := I.Context(contexts[fd].Value(), e).number;
      scheduled, wakes := scheduled + {n}, wakes + [(n, |scheduler.accepted|)];
      contexts[fd].TriggerEvent(e, scheduler);
      pending := pending - 1;
      assert Values(contexts) == I.Fire(old(View()), fd, e).ctxs;
    }

    /** Firing several events of one descriptor, reading first; each must be armed. */
    method TriggerAll(fd: nat, events: set<I.Event>)
      requires Separate(contexts) && scheduler.Valid() && fd < |contexts| && events <= contexts[fd].events
      modifies this`pending, this`scheduled, this`wakes, contexts[fd], scheduler
      ensures scheduler.Valid() && I.TriggerAll(old(View()), fd, events) == I.Done(View(), true)
    {
      hide I.Fire, S.Inv;
      FireEvents(fd, I.READ);
      if I.READ in events {
        Fire(fd, I.READ);
      }
      if I.WRITE in events {
        FireEvents(fd, I.WRITE);
        Fire(fd, I.WRITE);
      }
    }

    lemma FireEvents(fd: nat, e: I.Event)
      requires fd < |contexts|
      ensures |I.Fire(View(), fd, e).ctxs| == |contexts|
      ensures I.Fire(View(), fd, e).ctxs[fd].events == contexts[fd].events - {e}
    {
    }

    method CancelEvent(fd: nat, e: I.Event, works: bool) returns (ok: bool)
      requires Valid()
      modifies this, contexts, scheduler
      ensures Valid() && contexts == old(contexts) && I.CancelEvent(old(View()), fd, e, works) == I.Done(View(), ok)
    {
      hide I.Inv, I.Ctl, I.Fire, S.Inv;
      I.CancelIsExact(View(), fd, e, works);
      I.BelowIsValid(View());
      if fd >= |contexts| || e !in contexts[fd].events {
        return false;
      }
      var left := contexts[fd].events - {e};
      var watched := I.Ctl(epoll, if left == {} then I.DEL else I.MOD, fd, left, works);
      if watched == None {
        return false;
      }
      epoll := watched.value;
      Fire(fd, e);
      ok := true;
    }

    method CancelAll(fd: nat, works: bool) returns (ok: bool)
      requires Valid()
      modifies this, contexts, scheduler
      ensures Valid() && contexts == old(contexts) && I.CancelAll(old(View()), fd, works) == I.Done(View(), ok)
    {
      hide I.Inv, I.Ctl, I.TriggerAll, S.Inv;
      I.CancelAllIsExact(View(), fd, works);
      I.BelowIsValid(View());
      if fd >= |contexts| || contexts[fd].events == {} {
        return false;
      }
      var watched := I.Ctl(epoll, I.DEL, fd, {}, works);
      if watched == None {
        return false;
      }
      epoll := watched.value;
      TriggerAll(fd, contexts[fd].events);
      ok := true;
    }

    /** One report of the event loop; it aborts in triggerEvent if an event is to fire that is not armed. */
    method Deliver(r: I.Report) returns (aborted: bool)
      requires Valid() && r.fd < |contexts|
      modifies this`pending, this`scheduled, this`wakes, this`epoll, contexts, scheduler
      ensures aborted <==> I.Deliver(old(View()), r.fd, r.flags, r.works) == I.Aborted
      ensures !aborted ==> Valid() && View() == I.Deliver(old(View()), r.fd, r.flags, r.works).io
    {
      hide I.Inv, I.Ctl, I.TriggerAll, S.Inv, I.Meant;
      I.DeliverIsExact(View(), r.fd, r.flags, r.works);
      I.BelowIsValid(View());
      aborted := false;
      var armed := contexts[r.fd].events;
      var meant := I.Meant(r.flags, armed);
      if armed * meant == {} {
        return;
      }
      var left := armed - meant;
      var watched := I.Ctl(epoll, if left == {} then I.DEL else I.MOD, r.fd, left, r.works);
      if watched == None {
        return;
      }
      epoll := watched.value;
      I.CtlNeedsWorking(old(View()), r.fd, left, r.works);
      if !(meant <= armed) {
        return true;
      }
      TriggerAll(r.fd, meant);
    }

    /** The loop over what epoll_wait returned: its assertions hold for what an honest kernel reports. */
    method DeliverEach(reports: seq<I.Report>)
      requires Valid() && I.Enabled(View(), I.Wait(reports))
      modifies this`pending, this`scheduled, this`wakes, this`epoll, contexts, scheduler
      ensures Valid() && I.DeliverEach(old(View()), reports) == I.Done(View(), true)
      ensures R.Woke(old(View()), reports, View())
    {
      hide I.Inv, I.Deliver, S.Inv, I.Meant, I.DeliverEach, R.Woke;
      R.ReportsWakeExactly(View(), reports);
      I.ArmedReports(View(), reports);
      var i := 0;
      assert reports[0..] == reports;
      while i < |reports|
        modifies this`pending, this`scheduled, this`wakes, this`epoll, contexts, scheduler
        invariant i <= |reports| && Valid()
        invariant forall j | i <= j < |reports| :: reports[j].fd < |contexts| &&
                    I.Meant(reports[j].flags, contexts[reports[j].fd].events) <= contexts[reports[j].fd].events
        invariant I.DeliverEach(View(), reports[i..]) == I.DeliverEach(old(View()), reports)
      {
        ghost var io := View();
        I.DeliverIsExact(io, reports[i].fd, reports[i].flags, reports[i].works);
        var aborted := Deliver(reports[i]);
        assert !aborted;
        I.OthersStay(io, reports[i].fd, View());
        I.DeliverNext(io, reports, i);
        i := i + 1;
      }
      I.DeliverNothing(View(), reports[i..]);
    }
  }
}
