/**
 * The timers and their manager as objects. A timer's deadline, period and callback are updated in
 * place, the manager keeps the ordered set; every method does to the objects what the function of
 * the same name in TimerSpec does to the values.
 */
module Timers {
  import opened Bytes
  import S = TimerSpec
  import opened Wrappers

  class Timer {
    const address: nat
    const recurring: bool
    ghost const born: bool
    var ms: u64
    var next: u64
    var cb: Option<nat>

    constructor (address: nat, ms: u64, cb: Option<nat>, recurring: bool, now: u64)
      ensures Value() == S.Timer(ms, S.Add64(now, ms), cb, recurring, cb.Some?)
      ensures this.address == address
    {
      this.address, this.recurring, this.born := address, recurring, cb.Some?;
      this.ms, this.next, this.cb := ms, S.Add64(now, ms), cb;
    }

    ghost function Value(): S.Timer
      reads this
    {
      S.Timer(ms, next, cb, recurring, born)
    }
  }

  /** The object at an address is the one that says so; the set holds known objects. */
  ghost predicate Linked(known: map<nat, Timer>, timers: seq<Timer>) {
    && (forall a | a in known :: known[a].address == a)
    && forall i | 0 <= i < |timers| :: timers[i].address in known && known[timers[i].address] == timers[i]
  }

  ghost function Values(known: map<nat, Timer>): (all: map<nat, S.Timer>)
    reads known.Values
    ensures all.Keys == known.Keys
    ensures forall a | a in known :: all[a] == known[a].Value()
  {
    map a | a in known :: known[a].Value()
  }

  function Addresses(timers: seq<Timer>): (order: seq<nat>)
    ensures |order| == |timers|
    ensures forall i | 0 <= i < |order| :: order[i] == timers[i].address
  {
    seq(|timers|, i requires 0 <= i < |timers| => timers[i].address)
  }

  lemma LinkedInsert(known: map<nat, Timer>, timers: seq<Timer>, t: Timer, k: nat)
    requires Linked(known, timers) && k <= |timers| && t.address in known && known[t.address] == t
    ensures var timers' := timers[..k] + [t] + timers[k..];
            && Linked(known, timers')
            && Addresses(timers') == Addresses(timers)[..k] + [t.address] + Addresses(timers)[k..]
  {
  }

  class TimerManager {
    var timers: seq<Timer>
    var tickled: bool
    var previous: u64
    /** How often onTimerInsertedAtFront was called. */
    var notified: nat
    ghost var known: map<nat, Timer>

    ghost function View(): S.Manager
      reads this, known.Values
    {
      S.Manager(Values(known), Addresses(timers), tickled, previous, notified)
    }

    /** The set holds exactly the live timers, strictly sorted by deadline and address. */
    ghost predicate Valid()
      reads this, known.Values
    {
      Linked(known, timers) && S.Inv(View())
    }

    constructor (now: u64)
      ensures Valid() && View() == S.Fresh.(previous := now) && known == map[]
    {
      timers, tickled, previous, notified, known := [], false, now, 0, map[];
    }

    /** std::set::lower_bound: the first timer that does not come before the key. */
    method LowerBound(next: u64, address: nat) returns (k: nat)
      requires Linked(known, timers) && S.Known(Values(known), Addresses(timers))
      ensures k == S.LowerBound(Values(known), Addresses(timers), next, address)
      ensures k <= |timers|
    {
      k := 0;
      while k < |timers| && S.Less(timers[k].next, timers[k].address, next, address)
        invariant k <= |timers|
        invariant forall i | 0 <= i < k :: S.Less(timers[i].next, timers[i].address, next, address)
      {
        k := k + 1;
      }
      S.LowerBoundIs(Values(known), Addresses(timers), next, address, k);
    }

    /** std::set::find. */
    method Find(t: Timer) returns (k: nat)
      requires Linked(known, timers) && S.Known(Values(known), Addresses(timers))
      requires t.address in known && known[t.address] == t
      ensures k == S.Find(Values(known), Addresses(timers), t.address) && k <= |timers|
    {
      k := LowerBound(t.next, t.address);
      if k < |timers| && S.Less(t.next, t.address, timers[k].next, timers[k].address) {
        k := |timers|;
      }
    }

    lemma LinkedSays()
      requires Linked(known, timers)
      ensures forall a | a in known :: known[a].address == a
    {
    }

    lemma LinkedGrows(was: map<nat, Timer>, address: nat, t: Timer)
      requires Linked(was, timers) && known == was[address := t] && address !in was && t.address == address
      ensures Linked(known, timers)
      ensures address !in Addresses(timers)
    {
    }

    lemma InsertPlace(k: nat, t: Timer)
      requires Linked(known, timers) && S.Sorted(Values(known), Addresses(timers))
      requires t.address in known && known[t.address] == t && t.address !in Addresses(timers)
      requires k == S.LowerBound(Values(known), Addresses(timers), t.next, t.address)
      ensures S.Insert(Values(known), Addresses(timers), t.address)
           == Addresses(timers)[..k] + [t.address] + Addresses(timers)[k..]
    {
      if k < |timers| {
        assert Addresses(timers)[k] != t.address;
      }
    }

    /** std::set::insert; returns where the timer is. */
    method Insert(t: Timer) returns (k: nat)
      requires Linked(known, timers) && S.Known(Values(known), Addresses(timers))
      requires t.address in known && known[t.address] == t && t.address !in Addresses(timers)
      requires S.Sorted(Values(known), Addresses(timers))
      modifies this`timers
      ensures Linked(known, timers)
      ensures Values(known) == old(Values(known))
      ensures Addresses(timers) == S.Insert(Values(known), old(Addresses(timers)), t.address)
      ensures k < |timers| && timers[k] == t
      ensures S.Sorted(Values(known), Addresses(timers)) && S.Known(Values(known), Addresses(timers))
    {
      S.InsertNew(Values(known), Addresses(timers), t.address);
      hide S.Sorted, S.Less, S.LowerBound, Linked;
      k := LowerBound(t.next, t.address);
      LinkedInsert(known, timers, t, k);
      InsertPlace(k, t);
      timers := timers[..k] + [t] + timers[k..];
    }

    /** std::set::erase at a position. */
    method Erase(k: nat)
      requires Linked(known, timers) && S.Sorted(Values(known), Addresses(timers)) && k < |timers|
      modifies this`timers
      ensures Linked(known, timers)
      ensures S.Sorted(Values(known), Addresses(timers)) && S.Known(Values(known), Addresses(timers))
      ensures Values(known) == old(Values(known))
      ensures Addresses(timers) == S.Erase(old(Addresses(timers)), k)
      ensures old(timers[k]).address !in Addresses(timers)
    {
      S.EraseMember(Values(known), Addresses(timers), k);
      timers := timers[..k] + timers[k + 1..];
      assert Addresses(timers) == S.Erase(old(Addresses(timers)), k);
    }

    /** Finding a timer and erasing it, if it is there. */
    method TakeOut(t: Timer) returns (found: bool)
      requires Linked(known, timers) && S.Sorted(Values(known), Addresses(timers))
      requires S.Known(Values(known), Addresses(timers))
      requires t.address in known && known[t.address] == t
      modifies this`timers
      ensures Linked(known, timers) && Values(known) == old(Values(known))
      ensures S.Sorted(Values(known), Addresses(timers)) && S.Known(Values(known), Addresses(timers))
      ensures var k := old(S.Find(Values(known), Addresses(timers), t.address));
              && found == (k != |old(timers)|)
              && Addresses(timers) == S.Erase(old(Addresses(timers)), k)
      ensures t.address !in Addresses(timers)
    {
      hide S.Inv, S.Sorted, S.Known, S.Find, S.Erase, Linked, Addresses, Values;
      Has(t);
      S.FindIsExact(Values(known), Addresses(timers), t.address);
      S.EraseNothing(Addresses(timers));
      Sizes();
      var k := Find(t);
      found := k != |timers|;
      if found {
        Erase(k);
      }
    }

    lemma Sizes()
      ensures |Addresses(timers)| == |timers|
      ensures forall i | 0 <= i < |timers| :: Addresses(timers)[i] == timers[i].address
    {
    }

    lemma Has(t: Timer)
      requires t.address in known && known[t.address] == t
      ensures t.address in Values(known) && Values(known)[t.address] == t.Value()
    {
    }

    /** The assignments to a timer's fields. */
    method Set(t: Timer, ms: u64, next: u64, cb: Option<nat>)
      requires Linked(known, timers) && t.address in known && known[t.address] == t
      modifies t`ms, t`next, t`cb
      ensures Values(known) == old(Values(known)[t.address := t.Value().(ms := ms, next := next, cb := cb)])
      ensures t.ms == ms && t.next == next && t.cb == cb
    {
      t.ms, t.next, t.cb := ms, next, cb;
    }

    /** Timer::cancel. The search for the timer never fails, so nothing past the end is erased. */
    method Cancel(t: Timer) returns (ok: bool)
      requires Valid() && t.address in known && known[t.address] == t
      modifies this`timers, t
      ensures Valid() && (View(), ok) == S.Cancel(old(View()), t.address)
    {
      hide S.Inv, S.Sorted, S.Find, S.Erase, Linked, Addresses, Values;
      S.CancelIsExact(View(), t.address);
      Has(t);
      if t.cb.None? {
        return false;
      }
      S.InvIsSorted(View());
      S.SameDeadline(Values(known), Addresses(timers), t.address, t.Value().(cb := None));
      Set(t, t.ms, t.next, None);
      Sizes();
      var found := TakeOut(t);
      assert found;
      ok := true;
    }

    /** Timer::refresh. The deadline is changed while the timer is outside the set. */
    method Refresh(t: Timer, now: u64) returns (ok: bool)
      requires Valid() && t.address in known && known[t.address] == t
      modifies this`timers, t
      ensures Valid() && (View(), ok) == S.Refresh(old(View()), t.address, now)
    {
      hide S.Inv, S.Sorted, S.Known, S.Find, S.Erase, S.Insert, S.Add64, Linked, Addresses, Values;
      hide S.Refresh;
      S.RefreshIsExact(View(), t.address, now);
      Has(t);
      S.InvIsSorted(View());
      S.RefreshIs(View(), t.address, now);
      if t.cb.None? {
        return false;
      }
      Sizes();
      var found := TakeOut(t);
      if !found {
        return false;
      }
      S.ChangeOutside(Values(known), Addresses(timers), t.address, t.Value().(next := S.Add64(now, t.ms)));
      Set(t, t.ms, S.Add64(now, t.ms), t.cb);
      S.SortedIsKnown(Values(known), Addresses(timers));
      var _ := Insert(t);
      ok := true;
    }

    /** The private addTimer. */
    method AddToSet(t: Timer)
      requires Linked(known, timers) && S.Sorted(Values(known), Addresses(timers))
      requires t.address in known && known[t.address] == t && t.address !in Addresses(timers)
      modifies this`timers, this`tickled, this`notified
      ensures Linked(known, timers)
      ensures Values(known) == old(Values(known))
      ensures View() == S.AddToSet(old(View()), t.address)
    {
      hide S.Sorted, S.Insert, Linked;
      S.SortedIsKnown(Values(known), Addresses(timers));
      S.InsertNew(Values(known), Addresses(timers), t.address);
      var k := Insert(t);
      S.FirstIsFirst(Values(known), Addresses(timers), k);
      var atFront := k == 0 && !tickled;
      if atFront {
        tickled := true;
        notified := notified + 1;
      }
    }

    /** Timer::reset. */
    method Reset(t: Timer, ms: u64, fromNow: bool, now: u64) returns (ok: bool)
      requires Valid() && t.address in known && known[t.address] == t
      modifies this`timers, this`tickled, this`notified, t
      ensures Valid() && (View(), ok) == S.Reset(old(View()), t.address, ms, fromNow, now)
    {
      hide S.Inv, S.Sorted, S.Known, S.Find, S.Erase, S.AddToSet, S.Add64, S.Sub64, Linked, Addresses, Values;
      hide S.Reset;
      S.ResetIsExact(View(), t.address, ms, fromNow, now);
      Has(t);
      S.InvIsSorted(View());
      S.ResetIs(View(), t.address, ms, fromNow, now);
      if ms == t.ms && !fromNow {
        return true;
      }
      if t.cb.None? {
        return false;
      }
      Sizes();
      var found := TakeOut(t);
      if !found {
        return false;
      }
      var start := if fromNow then now else S.Sub64(t.next, t.ms);
      S.ChangeOutside(Values(known), Addresses(timers), t.address, t.Value().(ms := ms, next := S.Add64(start, ms)));
      Set(t, ms, S.Add64(start, ms), t.cb);
      AddToSet(t);
      ok := true;
    }

    /** TimerManager::addTimer: the new object has an address of its own. */
    method AddTimer(address: nat, ms: u64, cb: Option<nat>, recurring: bool, now: u64) returns (t: Timer)
      requires Valid() && address !in known
      modifies this
      ensures Valid() && View() == S.AddTimer(old(View()), address, ms, cb, recurring, now)
      ensures fresh(t) && known == old(known)[address := t]
    {
      hide S.Inv, S.Sorted, S.AddToSet, Linked;
      S.AddIsExact(View(), address, ms, cb, recurring, now);
      S.InvIsSorted(View());
      LinkedSays();
      t := new Timer(address, ms, cb, recurring, now);
      known := known[address := t];
      assert Values(known) == old(Values(known))[address := t.Value()];
      LinkedGrows(old(known), address, t);
      S.ChangeOutside(old(Values(known)), Addresses(timers), address, t.Value());
      AddToSet(t);
    }

    method GetNextTimer(now: u64) returns (wait: u64)
      requires Valid()
      modifies this`tickled
      ensures Valid() && (View(), wait) == S.GetNext(old(View()), now)
    {
      S.NextKeepsInv(View(), now);
      tickled := false;
      if timers == [] {
        return TWO64 - 1;
      }
      var next := timers[0].next;
      wait := if now >= next then 0 else next - now;
    }

    method DetectClockRollover(now: u64) returns (rollover: bool)
      modifies this`previous
      ensures rollover == S.Rollover(old(previous), now) && previous == now
    {
      rollover := now < previous && now < S.Sub64(previous, S.HOUR);
      previous := now;
    }

    /** The body of the loop over the expired timers. */
    method FireOne(t: Timer, now: u64) returns (cb: Option<nat>)
      requires Linked(known, timers) && S.Sorted(Values(known), Addresses(timers))
      requires t.address in known && known[t.address] == t && t.address !in Addresses(timers)
      modifies this`timers, t
      ensures Linked(known, timers) && cb == old(t.cb)
      ensures old(S.Known(Values(known), Addresses(timers)) && t.address in Values(known))
      ensures (Values(known), Addresses(timers)) == old(S.FireOne(Values(known), Addresses(timers), t.address, now))
    {
      hide S.Sorted, S.Known, S.Insert, S.Add64, Linked, Addresses, Values;
      Has(t);
      S.SortedIsKnown(Values(known), Addresses(timers));
      S.ChangeOutside(Values(known), Addresses(timers), t.address, S.Fired(t.Value(), now));
      cb := t.cb;
      if t.recurring {
        Set(t, t.ms, S.Add64(now, t.ms), t.cb);
        S.SortedIsKnown(Values(known), Addresses(timers));
        var _ := Insert(t);
      } else {
        Set(t, t.ms, t.next, None);
      }
    }

    /** The loop over the expired timers, which are outside the set by now. */
    method FireAll(expired: seq<Timer>, now: u64) returns (cbs: seq<Option<nat>>)
      requires Linked(known, timers) && S.Sorted(Values(known), Addresses(timers)) && Linked(known, expired)
      requires S.Known(Values(known), Addresses(expired)) && S.Distinct(Addresses(expired))
      requires forall a | a in Addresses(expired) :: a !in Addresses(timers)
      modifies this`timers, known.Values
      ensures Linked(known, timers)
      ensures old(S.Known(Values(known), Addresses(timers)))
      ensures (Values(known), Addresses(timers))
           == old(S.Fire(Values(known), Addresses(timers), Addresses(expired), now))
      ensures cbs == old(S.Callbacks(Values(known), Addresses(expired)))
    {
      hide S.Sorted, S.Fired, S.FireOne, S.Fire;
      ghost var all, rest := Values(known), Addresses(expired);
      S.SortedIsKnown(Values(known), Addresses(timers));
      ghost var goal := S.Fire(all, Addresses(timers), rest, now);
      cbs := [];
      var i := 0;
      assert rest[0..] == rest;
      while i < |expired|
        invariant i <= |expired| && known == old(known)
        invariant Linked(known, timers) && S.Sorted(Values(known), Addresses(timers))
        invariant Values(known).Keys == all.Keys
        invariant forall j | i <= j < |rest| :: Values(known)[rest[j]] == all[rest[j]] && rest[j] !in Addresses(timers)
        invariant S.Known(Values(known), Addresses(timers)) && S.Known(Values(known), rest[i..])
        invariant S.Fire(Values(known), Addresses(timers), rest[i..], now) == goal
        invariant cbs == S.Callbacks(all, rest)[..i]
      {
        var t := expired[i];
        ghost var all', order' := Values(known), Addresses(timers);
        Has(t);
        S.FireOneIsExact(all', order', t.address, now);
        S.FireUnfolds(all', order', rest[i..], now);
        var cb := FireOne(t, now);
        cbs := cbs + [cb];
        assert rest[i..][1..] == rest[i + 1..];
        i := i + 1;
      }
      assert rest[i..] == [];
      S.FireNothing(Values(known), Addresses(timers), now);
    }

    /** How far the iterator goes: past the timers due up to now, or to the end after a rollover. */
    method CountDue(rollover: bool, now: u64, probe: nat) returns (k: nat)
      requires Linked(known, timers) && S.Known(Values(known), Addresses(timers))
      ensures k <= |timers|
      ensures k == if rollover then |timers|
                   else S.SkipEqual(Values(known), Addresses(timers),
                                    S.LowerBound(Values(known), Addresses(timers), now, probe), now)
    {
      k := |timers|;
      if !rollover {
        k := LowerBound(now, probe);
        ghost var goal := S.SkipEqual(Values(known), Addresses(timers), k, now);
        while k < |timers| && timers[k].next == now
          invariant k <= |timers| && S.SkipEqual(Values(known), Addresses(timers), k, now) == goal
        {
          k := k + 1;
        }
      }
    }

    lemma Cut(k: nat)
      requires Linked(known, timers) && k <= |timers|
      ensures Linked(known, timers[..k]) && Linked(known, timers[k..])
      ensures Addresses(timers[..k]) == Addresses(timers)[..k] && Addresses(timers[k..]) == Addresses(timers)[k..]
    {
    }

    /** listExpiredCb; probe is the address of the timer allocated for the search. */
    method ListExpired(now: u64, probe: nat) returns (cbs: seq<Option<nat>>)
      requires Valid()
      modifies this, known.Values
      ensures Valid() && known == old(known)
      ensures (View(), cbs) == S.ListExpired(old(View()), now, probe)
    {
      hide S.Inv, S.Sorted, S.Known, S.Fire, S.Callbacks, S.LowerBound, S.SkipEqual, S.Due, S.Rollover;
      hide S.ListExpired, Linked, Values, Addresses;
      ghost var m := View();
      S.InvIsSorted(m);
      S.ExecKeepsInv(m, S.ExpireOp(probe), now);
      S.ListExpiredIs(m, now, probe);
      cbs := [];
      Starts();
      if timers == [] {
        return;
      }
      var rollover := DetectClockRollover(now);
      if !rollover && timers[0].next > now {
        return;
      }
      var k := CountDue(rollover, now, probe);
      S.CutIsClean(m.all, m.order, k);
      Cut(k);
      var expired := timers[..k];
      timers := timers[k..];
      cbs := FireAll(expired, now);
    }

    lemma Starts()
      requires Linked(known, timers)
      ensures timers == [] <==> Addresses(timers) == []
      ensures timers != [] ==>
                && Addresses(timers)[0] in Values(known)
                && Values(known)[Addresses(timers)[0]].next == timers[0].next
    {
    }
  }
}
