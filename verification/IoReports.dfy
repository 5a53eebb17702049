/**
 * What a pass of the event loop does to those who wait, said in the kernel's own flags: whoever waits
 * for an event is scheduled exactly if it was reported, or an error or a hang-up was.
 */
module IoReports {
  import I = IoSpec
  import S = SchedulerSpec
  import opened Wrappers

  /** The report concerns whoever waits for the event: it names it, or an error, or a hang-up. */
  predicate Concerns(flags: set<I.Flag>, e: I.Event) {
    I.ERR in flags || I.HUP in flags || (if e == I.READ then I.IN in flags else I.OUT in flags)
  }

  /** Some report of the list concerns the registration, and epoll_ctl works for it. */
  predicate Reported(reports: seq<I.Report>, r: I.Registration) {
    exists i :: 0 <= i < |reports| && reports[i].fd == r.fd && reports[i].works && Concerns(reports[i].flags, r.event)
  }

  /** An event armed on the descriptor is meant exactly if the report concerns it. */
  lemma MeantIsConcerned(flags: set<I.Flag>, armed: set<I.Event>, e: I.Event)
    requires e in armed
    ensures e in I.Meant(flags, armed) <==> Concerns(flags, e)
  {
  }

  /** Exactly those who wait and are reported have been scheduled; the others wait as before. */
  predicate Woke(io: I.Io, reports: seq<I.Report>, to: I.Io) {
    && to.regs == io.regs && to.deleted == io.deleted
    && forall n | 0 <= n < |io.regs| ::
         var wakes := I.Waits(io, n) && Reported(reports, io.regs[n]);
         (n in to.scheduled <==> n in io.scheduled || wakes) && (I.Waits(to, n) <==> I.Waits(io, n) && !wakes)
  }

  /** One report. */
  lemma ReportWakes(io: I.Io, r: I.Report)
    requires I.Inv(io) && r.fd < |io.ctxs| && I.Meant(r.flags, io.ctxs[r.fd].events) <= io.ctxs[r.fd].events
    ensures var to := I.Deliver(io, r.fd, r.flags, r.works);
            && to.Done? && I.Inv(to.io) && Woke(io, [r], to.io)
            && |to.io.ctxs| == |io.ctxs|
            && forall fd | 0 <= fd < |io.ctxs| && fd != r.fd :: to.io.ctxs[fd] == io.ctxs[fd]
  {
    hide I.Inv, I.Deliver, I.Meant, I.Waits, Reported;
    I.DeliverIsExact(io, r.fd, r.flags, r.works);
    var armed := io.ctxs[r.fd].events;
    var meant := I.Meant(r.flags, armed);
    if meant != {} { MeantIsArmed(armed, meant); }
    forall n | 0 <= n < |io.regs| && I.Waits(io, n)
      ensures Reported([r], io.regs[n]) <==> r.works && io.regs[n].fd == r.fd && io.regs[n].event in meant
    {
      OneReport(r, io.regs[n]);
      WaiterIsArmed(io, n);
      if io.regs[n].fd == r.fd { MeantIsConcerned(r.flags, armed, io.regs[n].event); }
    }
  }

  lemma WaiterIsArmed(io: I.Io, n: nat)
    requires n < |io.regs| && I.Waits(io, n)
    ensures io.regs[n].fd < |io.ctxs| && io.regs[n].event in io.ctxs[io.regs[n].fd].events
  {
  }

  lemma MeantIsArmed(armed: set<I.Event>, meant: set<I.Event>)
    requires meant <= armed && meant != {}
    ensures armed * meant != {}
  {
    assert armed * meant == meant;
  }

  lemma OneReport(r: I.Report, reg: I.Registration)
    ensures Reported([r], reg) <==> reg.fd == r.fd && r.works && Concerns(r.flags, reg.event)
  {
    if reg.fd == r.fd && r.works && Concerns(r.flags, reg.event) { assert [r][0] == r; }
  }

  lemma ReportsSplit(reports: seq<I.Report>, reg: I.Registration)
    requires reports != []
    ensures Reported(reports, reg) <==> Reported([reports[0]], reg) || Reported(reports[1..], reg)
  {
    OneReport(reports[0], reg);
    hide Concerns;
    assert forall i | 0 < i < |reports| :: reports[i] == reports[1..][i - 1];
    if Reported(reports[1..], reg) {
      var i :| 0 <= i < |reports[1..]| && reports[1..][i].fd == reg.fd && reports[1..][i].works
               && Concerns(reports[1..][i].flags, reg.event);
      assert reports[i + 1] == reports[1..][i];
    }
  }

  /** Reports of distinct descriptors, of armed events. */
  lemma {:induction false} EachReportWakes(io: I.Io, reports: seq<I.Report>)
    requires I.Inv(io) && forall i | 0 <= i < |reports| :: reports[i].fd < |io.ctxs|
    requires forall i | 0 <= i < |reports| ::
               I.Meant(reports[i].flags, io.ctxs[reports[i].fd].events) <= io.ctxs[reports[i].fd].events
    requires forall i, j | 0 <= i < j < |reports| :: reports[i].fd != reports[j].fd
    ensures I.DeliverEach(io, reports).Done? && Woke(io, reports, I.DeliverEach(io, reports).io)
    decreases |reports|
  {
    hide I.Inv, I.Deliver, I.Meant, I.Waits, Reported, Woke;
    if reports == [] {
      NobodyWoke(io);
    } else {
      var first, rest := reports[0], reports[1..];
      ReportWakes(io, first);
      var mid := I.Deliver(io, first.fd, first.flags, first.works).io;
      assert forall i | 0 <= i < |rest| :: rest[i] == reports[i + 1];
      EachReportWakes(mid, rest);
      WokeTwice(io, reports, mid, I.DeliverEach(mid, rest).io);
    }
  }

  lemma NobodyWoke(io: I.Io)
    ensures Woke(io, [], io)
  {
    hide I.Waits;
  }

  lemma WokeTwice(io: I.Io, reports: seq<I.Report>, mid: I.Io, to: I.Io)
    requires reports != [] && Woke(io, [reports[0]], mid) && Woke(mid, reports[1..], to)
    ensures Woke(io, reports, to)
  {
    hide I.Waits, Reported;
    forall n | 0 <= n < |io.regs|
      ensures Reported(reports, io.regs[n])
         <==> Reported([reports[0]], io.regs[n]) || Reported(reports[1..], io.regs[n])
    {
      ReportsSplit(reports, io.regs[n]);
    }
  }

  /** A pass of the event loop over what an honest kernel reports. */
  lemma ReportsWakeExactly(io: I.Io, reports: seq<I.Report>)
    requires I.Inv(io) && I.Enabled(io, I.Wait(reports))
    ensures I.DeliverEach(io, reports).Done? && Woke(io, reports, I.DeliverEach(io, reports).io)
  {
    hide I.Inv, I.Meant, I.Waits, I.Honest, Woke;
    I.ArmedReports(io, reports);
    EachReportWakes(io, reports);
  }
}
