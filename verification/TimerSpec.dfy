/**
 * TimerManager as a function on values: a set of timers ordered by (deadline, address), kept
 * as the sequence in which the set would be walked. Every operation is a step at a clock time.
 */
module TimerSpec {
  import opened Bytes
  import opened Wrappers

  /** A timer: born says whether it was created with a non-empty callback. */
  datatype Timer = Timer(ms: u64, next: u64, cb: Option<nat>, recurring: bool, born: bool)

  /**
   * The manager: all timers ever added by their addresses, the addresses in the set in order,
   * and how often onTimerInsertedAtFront was called.
   */
  datatype Manager = Manager(all: map<nat, Timer>, order: seq<nat>, tickled: bool, previous: u64, notified: nat)

  function Add64(a: u64, b: u64): u64 { (a + b) % TWO64 }

  function Sub64(a: u64, b: u64): u64 { (a - b) % TWO64 }

  // ----- The ordered set -----

  /** Timer::Comparator on keys. */
  predicate Less(next: u64, address: nat, next': u64, address': nat) {
    next < next' || (next == next' && address < address')
  }

  predicate Known(all: map<nat, Timer>, order: seq<nat>) { forall i | 0 <= i < |order| :: order[i] in all }

  predicate Before(all: map<nat, Timer>, a: nat, b: nat)
    requires a in all && b in all
  {
    Less(all[a].next, a, all[b].next, b)
  }

  predicate Sorted(all: map<nat, Timer>, order: seq<nat>) {
    && Known(all, order)
    && forall i, j | 0 <= i < j < |order| :: Before(all, order[i], order[j])
  }

  /** The first position whose key is not less than the given one. */
  function LowerBound(all: map<nat, Timer>, order: seq<nat>, next: u64, address: nat): (k: nat)
    requires Known(all, order)
    ensures k <= |order|
    ensures forall i | 0 <= i < k :: Less(all[order[i]].next, order[i], next, address)
    ensures k < |order| ==> !Less(all[order[k]].next, order[k], next, address)
  {
    if order == [] || !Less(all[order[0]].next, order[0], next, address) then 0
    else 1 + LowerBound(all, order[1..], next, address)
  }

  /** Any search that ends at such a position ends at this one. */
  lemma {:induction false} LowerBoundIs(all: map<nat, Timer>, order: seq<nat>, next: u64, address: nat, k: nat)
    requires Known(all, order) && k <= |order|
    requires forall i | 0 <= i < k :: Less(all[order[i]].next, order[i], next, address)
    requires k < |order| ==> !Less(all[order[k]].next, order[k], next, address)
    ensures k == LowerBound(all, order, next, address)
  {
  }

  /** Where find finds the timer, or |order| for end(). */
  function Find(all: map<nat, Timer>, order: seq<nat>, a: nat): (k: nat)
    requires Known(all, order) && a in all
    ensures k <= |order|
  {
    var k := LowerBound(all, order, all[a].next, a);
    if k < |order| && !Before(all, a, order[k]) then k else |order|
  }

  function Erase(order: seq<nat>, k: nat): seq<nat> {
    if k < |order| then order[..k] + order[k + 1..] else order
  }

  lemma EraseNothing(order: seq<nat>)
    ensures Erase(order, |order|) == order
  {
  }

  function Insert(all: map<nat, Timer>, order: seq<nat>, a: nat): seq<nat>
    requires Known(all, order) && a in all
  {
    var k := LowerBound(all, order, all[a].next, a);
    if k < |order| && !Before(all, a, order[k]) then order else order[..k] + [a] + order[k..]
  }

  /** In a sorted set, find finds exactly the members. */
  lemma FindIsExact(all: map<nat, Timer>, order: seq<nat>, a: nat)
    requires Sorted(all, order) && a in all
    ensures var k := Find(all, order, a);
            if a in order then k < |order| && order[k] == a else k == |order|
  {
    var k := LowerBound(all, order, all[a].next, a);
    if a in order {
      var i :| 0 <= i < |order| && order[i] == a;
      assert k < i ==> Before(all, order[k], order[i]);
    }
  }

  lemma EraseMember(all: map<nat, Timer>, order: seq<nat>, k: nat)
    requires Sorted(all, order) && k < |order|
    ensures Sorted(all, Erase(order, k))
    ensures forall b :: b in Erase(order, k) <==> b in order && b != order[k]
  {
    var e := Erase(order, k);
    assert forall i | 0 <= i < |e| :: e[i] == if i < k then order[i] else order[i + 1];
    forall b
      ensures b in e <==> b in order && b != order[k]
    {
      if b in e {
        var i :| 0 <= i < |e| && e[i] == b;
        var j := if i < k then i else i + 1;
        assert if j < k then Before(all, order[j], order[k]) else Before(all, order[k], order[j]);
      }
      if b in order && b != order[k] {
        var j :| 0 <= j < |order| && order[j] == b;
        assert e[if j < k then j else j - 1] == b;
      }
    }
  }

  lemma InsertNew(all: map<nat, Timer>, order: seq<nat>, a: nat)
    requires Sorted(all, order) && a in all && a !in order
    ensures Sorted(all, Insert(all, order, a))
    ensures forall b :: b in Insert(all, order, a) <==> b in order || b == a
  {
    var k := LowerBound(all, order, all[a].next, a);
    var e := order[..k] + [a] + order[k..];
    assert forall i | 0 <= i < |e| :: e[i] == if i < k then order[i] else if i == k then a else order[i - 1];
    forall i, j | 0 <= i < j < |e|
      ensures Before(all, e[i], e[j])
    {
      if i == k && k < |order| && j > k + 1 { assert Before(all, order[k], order[j - 1]); }
    }
  }

  /** Changing a timer outside the set does not disturb the set. */
  lemma ChangeOutside(all: map<nat, Timer>, order: seq<nat>, a: nat, t: Timer)
    requires Sorted(all, order) && a !in order
    ensures Sorted(all[a := t], order)
  {
  }

  /** Neither does changing anything but the deadline. */
  lemma SameDeadline(all: map<nat, Timer>, order: seq<nat>, a: nat, t: Timer)
    requires Sorted(all, order) && a in all && t.next == all[a].next
    ensures Sorted(all[a := t], order)
  {
  }

  // ----- The operations -----

  /** The private addTimer: insertion, and the notification when the timer is first and nobody was told yet. */
  function AddToSet(m: Manager, a: nat): Manager
    requires Known(m.all, m.order) && a in m.all
  {
    var order := Insert(m.all, m.order, a);
    var atFront := order != [] && order[0] == a && !m.tickled;
    m.(order := order, tickled := m.tickled || atFront, notified := if atFront then m.notified + 1 else m.notified)
  }

  function AddTimer(m: Manager, a: nat, ms: u64, cb: Option<nat>, recurring: bool, now: u64): Manager
    requires Known(m.all, m.order)
  {
    if a in m.all then m  // a new object has an address of its own
    else AddToSet(m.(all := m.all[a := Timer(ms, Add64(now, ms), cb, recurring, cb.Some?)]), a)
  }

  function Cancel(m: Manager, a: nat): (Manager, bool)
    requires Known(m.all, m.order) && a in m.all
  {
    if m.all[a].cb == None then (m, false)
    else
      var all := m.all[a := m.all[a].(cb := None)];
      (m.(all := all, order := Erase(m.order, Find(all, m.order, a))), true)
  }

  function Refresh(m: Manager, a: nat, now: u64): (Manager, bool)
    requires Known(m.all, m.order) && a in m.all
  {
    var k := Find(m.all, m.order, a);
    if m.all[a].cb == None || k == |m.order| then (m, false)
    else
      var order := Erase(m.order, k);
      var all := m.all[a := m.all[a].(next := Add64(now, m.all[a].ms))];
      (m.(all := all, order := Insert(all, order, a)), true)
  }

  function Reset(m: Manager, a: nat, ms: u64, fromNow: bool, now: u64): (Manager, bool)
    requires Known(m.all, m.order) && a in m.all
  {
    var t := m.all[a];
    if ms == t.ms && !fromNow then (m, true)
    else
      var k := Find(m.all, m.order, a);
      if t.cb == None || k == |m.order| then (m, false)
      else
        var start := if fromNow then now else Sub64(t.next, t.ms);
        var all := m.all[a := t.(ms := ms, next := Add64(start, ms))];
        (AddToSet(m.(all := all, order := Erase(m.order, k)), a), true)
  }

  /** refresh and reset by their steps: out of the set, the new deadline, into the set. */
  lemma RefreshIs(m: Manager, a: nat, now: u64)
    requires Known(m.all, m.order) && a in m.all
    ensures var k := Find(m.all, m.order, a);
            if m.all[a].cb == None || k == |m.order| then Refresh(m, a, now) == (m, false)
            else
              var all, order := m.all[a := m.all[a].(next := Add64(now, m.all[a].ms))], Erase(m.order, k);
              Known(all, order) && Refresh(m, a, now) == (m.(all := all, order := Insert(all, order, a)), true)
  {
  }

  lemma ResetIs(m: Manager, a: nat, ms: u64, fromNow: bool, now: u64)
    requires Known(m.all, m.order) && a in m.all
    ensures var k := Find(m.all, m.order, a);
            var t := m.all[a];
            if ms == t.ms && !fromNow then Reset(m, a, ms, fromNow, now) == (m, true)
            else if t.cb == None || k == |m.order| then Reset(m, a, ms, fromNow, now) == (m, false)
            else
              var next := Add64(if fromNow then now else Sub64(t.next, t.ms), ms);
              var m1 := m.(all := m.all[a := t.(ms := ms, next := next)], order := Erase(m.order, k));
              Known(m1.all, m1.order) && Reset(m, a, ms, fromNow, now) == (AddToSet(m1, a), true)
  {
    hide AddToSet, Add64, Sub64;
  }

  /** getNextTimer: how long to wait, 2^64 - 1 for ever. */
  function GetNext(m: Manager, now: u64): (Manager, u64)
    requires Known(m.all, m.order)
  {
    (m.(tickled := false),
     if m.order == [] then TWO64 - 1
     else if now >= m.all[m.order[0]].next then 0
     else m.all[m.order[0]].next - now)
  }

  const HOUR := 60 * 60 * 1000

  predicate Rollover(previous: u64, now: u64) { now < previous && now < Sub64(previous, HOUR) }

  /** The loop that moves the iterator over the timers due exactly now. */
  function SkipEqual(all: map<nat, Timer>, order: seq<nat>, k: nat, now: u64): (k': nat)
    requires Known(all, order) && k <= |order|
    ensures k <= k' <= |order|
    ensures forall i | k <= i < k' :: all[order[i]].next == now
    ensures k' < |order| ==> all[order[k']].next != now
    decreases |order| - k
  {
    if k < |order| && all[order[k]].next == now then SkipEqual(all, order, k + 1, now) else k
  }

  /** What firing does to one timer. */
  function Fired(t: Timer, now: u64): Timer {
    if t.recurring then t.(next := Add64(now, t.ms)) else t.(cb := None)
  }

  /** One expired timer: a recurring one is re-armed, any other loses its callback. */
  function FireOne(all: map<nat, Timer>, order: seq<nat>, a: nat, now: u64): (r: (map<nat, Timer>, seq<nat>))
    requires Known(all, order) && a in all
    ensures Known(r.0, r.1) && r.0.Keys == all.Keys
  {
    var all' := all[a := Fired(all[a], now)];
    (all', if all[a].recurring then Insert(all', order, a) else order)
  }

  /** The loop over the expired timers. */
  function Fire(all: map<nat, Timer>, order: seq<nat>, expired: seq<nat>, now: u64): (map<nat, Timer>, seq<nat>)
    requires Known(all, order) && Known(all, expired)
    decreases |expired|
  {
    if expired == [] then (all, order)
    else
      var (all', order') := FireOne(all, order, expired[0], now);
      Fire(all', order', expired[1..], now)
  }

  lemma FireNothing(all: map<nat, Timer>, order: seq<nat>, now: u64)
    requires Known(all, order)
    ensures Fire(all, order, [], now) == (all, order)
  {
  }

  lemma FireUnfolds(all: map<nat, Timer>, order: seq<nat>, expired: seq<nat>, now: u64)
    requires Known(all, order) && Known(all, expired) && expired != []
    ensures var (all', order') := FireOne(all, order, expired[0], now);
            Fire(all, order, expired, now) == Fire(all', order', expired[1..], now)
  {
  }

  /** How many timers are due: those up to the probe's place and on over equal deadlines, or all after a rollover. */
  function Due(m: Manager, now: u64, probe: nat): (k: nat)
    requires Known(m.all, m.order)
    ensures k <= |m.order|
  {
    if Rollover(m.previous, now) then |m.order|
    else SkipEqual(m.all, m.order, LowerBound(m.all, m.order, now, probe), now)
  }

  function Callbacks(all: map<nat, Timer>, expired: seq<nat>): seq<Option<nat>>
    requires Known(all, expired)
  {
    seq(|expired|, i requires 0 <= i < |expired| => all[expired[i]].cb)
  }

  /** listExpiredCb; probe is the address at which the timer for the search was allocated. */
  function ListExpired(m: Manager, now: u64, probe: nat): (Manager, seq<Option<nat>>)
    requires Known(m.all, m.order)
  {
    if m.order == [] then (m, [])
    else
      var m1 := m.(previous := now);
      if !Rollover(m.previous, now) && m.all[m.order[0]].next > now then (m1, [])
      else
        var k := Due(m, now, probe);
        var (all, order) := Fire(m.all, m.order[k..], m.order[..k], now);
        (m1.(all := all, order := order), Callbacks(m.all, m.order[..k]))
  }

  /** The three ways through listExpiredCb. */
  lemma ListExpiredIs(m: Manager, now: u64, probe: nat)
    requires Sorted(m.all, m.order) && Known(m.all, m.order)
    ensures m.order == [] ==> ListExpired(m, now, probe) == (m, [])
    ensures m.order != [] && !Rollover(m.previous, now) && m.all[m.order[0]].next > now
        ==> ListExpired(m, now, probe) == (m.(previous := now), [])
    ensures m.order != [] && !(!Rollover(m.previous, now) && m.all[m.order[0]].next > now) ==>
        var k := if Rollover(m.previous, now) then |m.order|
                 else SkipEqual(m.all, m.order, LowerBound(m.all, m.order, now, probe), now);
        && k <= |m.order| && Sorted(m.all, m.order[k..]) && Known(m.all, m.order[k..]) && Known(m.all, m.order[..k])
        && var (all, order) := Fire(m.all, m.order[k..], m.order[..k], now);
        ListExpired(m, now, probe) == (m.(previous := now, all := all, order := order), Callbacks(m.all, m.order[..k]))
  {
    hide Fire, LowerBound, SkipEqual, Rollover;
    CutIsClean(m.all, m.order, Due(m, now, probe));
  }

  // ----- The set holds exactly the timers that can still fire -----

  /** For a timer born with a callback, being in the set and having a callback are the same. */
  predicate Inv(m: Manager) {
    && Sorted(m.all, m.order)
    && forall a | a in m.all ::
         if m.all[a].born then (a in m.order <==> m.all[a].cb.Some?) else m.all[a].cb == None
  }

  datatype Op =
    | Add(a: nat, ms: u64, cb: Option<nat>, recurring: bool)
    | CancelOp(a: nat)
    | RefreshOp(a: nat)
    | ResetOp(a: nat, ms: u64, fromNow: bool)
    | NextOp
    | ExpireOp(probe: nat)

  /** One operation at a clock time; an operation on a timer that does not exist does nothing. */
  function Exec(m: Manager, op: Op, now: u64): Manager
    requires Known(m.all, m.order)
  {
    match op
    case Add(a, ms, cb, recurring) => AddTimer(m, a, ms, cb, recurring, now)
    case CancelOp(a) => if a in m.all then Cancel(m, a).0 else m
    case RefreshOp(a) => if a in m.all then Refresh(m, a, now).0 else m
    case ResetOp(a, ms, fromNow) => if a in m.all then Reset(m, a, ms, fromNow, now).0 else m
    case NextOp => GetNext(m, now).0
    case ExpireOp(probe) => ListExpired(m, now, probe).0
  }

  /** A member that comes before every other. */
  predicate IsFirst(m: Manager, a: nat)
    requires Known(m.all, m.order) && a in m.all
  {
    forall b | b in m.order && b != a :: Before(m.all, a, b)
  }

  /**
   * Adding a timer outside the set: afterwards it is a member and the set is sorted; it is announced
   * exactly if it comes before every other and nothing was announced since the last look.
   */
  lemma AddToSetIsExact(m: Manager, a: nat)
    requires Sorted(m.all, m.order) && a in m.all && a !in m.order
    ensures var m' := AddToSet(m, a);
            && m' == m.(order := m'.order, tickled := m'.tickled, notified := m'.notified)
            && Sorted(m'.all, m'.order) && (forall b :: b in m'.order <==> b in m.order || b == a)
            && (m'.tickled <==> m.tickled || IsFirst(m', a))
            && m'.notified == if !m.tickled && IsFirst(m', a) then m.notified + 1 else m.notified
  {
    InsertNew(m.all, m.order, a);
    var order := Insert(m.all, m.order, a);
    FrontIsFirst(m.(order := order), a);
  }

  lemma FrontIsFirst(m: Manager, a: nat)
    requires Sorted(m.all, m.order) && a in m.order
    ensures m.order[0] == a <==> IsFirst(m, a)
  {
    if m.order[0] == a {
      forall b | b in m.order && b != a
        ensures Before(m.all, a, b)
      {
        var i :| 0 <= i < |m.order| && m.order[i] == b;
        assert Before(m.all, m.order[0], m.order[i]);
      }
    } else {
      var i :| 0 <= i < |m.order| && m.order[i] == a;
      assert Before(m.all, m.order[0], m.order[i]);
      assert m.order[0] in m.order;
    }
  }

  /** A new timer is due its period from now, and joins the set under that deadline. */
  lemma AddIsExact(m: Manager, a: nat, ms: u64, cb: Option<nat>, recurring: bool, now: u64)
    requires Inv(m)
    ensures var m' := AddTimer(m, a, ms, cb, recurring, now);
            && Inv(m')
            && (a in m.all ==> m' == m)
            && (a !in m.all ==>
                  && m'.all == m.all[a := Timer(ms, Add64(now, ms), cb, recurring, cb.Some?)]
                  && (forall b :: b in m'.order <==> b in m.order || b == a)
                  && (m'.tickled <==> m.tickled || IsFirst(m', a))
                  && m'.notified == if !m.tickled && IsFirst(m', a) then m.notified + 1 else m.notified)
  {
    hide Less, IsFirst;
    if a !in m.all {
      var t := Timer(ms, Add64(now, ms), cb, recurring, cb.Some?);
      ChangeOutside(m.all, m.order, a, t);
      AddToSetIsExact(m.(all := m.all[a := t]), a);
    }
  }

  /** cancel succeeds exactly on timers that have a callback, and its find always finds the timer. */
  lemma CancelIsExact(m: Manager, a: nat)
    requires Inv(m) && a in m.all
    ensures var (m', ok) := Cancel(m, a);
            && Inv(m')
            && (ok <==> m.all[a].cb.Some?)
            && (ok ==> Find(m.all[a := m.all[a].(cb := None)], m.order, a) < |m.order|)
            && (forall b :: b in m'.order <==> b in m.order && !(ok && b == a))
            && m'.all == (if ok then m.all[a := m.all[a].(cb := None)] else m.all)
            && m'.tickled == m.tickled && m'.notified == m.notified
  {
    if m.all[a].cb.Some? {
      var t := m.all[a].(cb := None);
      SameDeadline(m.all, m.order, a, t);
      FindIsExact(m.all[a := t], m.order, a);
      EraseMember(m.all[a := t], m.order, Find(m.all[a := t], m.order, a));
    }
  }

  /** refresh moves a live timer to now + ms and leaves every other timer alone. */
  lemma RefreshIsExact(m: Manager, a: nat, now: u64)
    requires Inv(m) && a in m.all
    ensures var (m', ok) := Refresh(m, a, now);
            && Inv(m')
            && (ok <==> m.all[a].cb.Some?)
            && (forall b :: b in m'.order <==> b in m.order)
            && m'.all == (if ok then m.all[a := m.all[a].(next := Add64(now, m.all[a].ms))] else m.all)
            && m'.tickled == m.tickled && m'.notified == m.notified
  {
    FindIsExact(m.all, m.order, a);
    var k := Find(m.all, m.order, a);
    if m.all[a].cb.Some? && k < |m.order| {
      EraseMember(m.all, m.order, k);
      var t := m.all[a].(next := Add64(now, m.all[a].ms));
      ChangeOutside(m.all, Erase(m.order, k), a, t);
      InsertNew(m.all[a := t], Erase(m.order, k), a);
    }
  }

  /** reset gives a live timer a new period, counted from now or from where the old one began. */
  lemma ResetIsExact(m: Manager, a: nat, ms: u64, fromNow: bool, now: u64)
    requires Inv(m) && a in m.all
    ensures var (m', ok) := Reset(m, a, ms, fromNow, now);
            var t := m.all[a];
            var moves := t.cb.Some? && !(ms == t.ms && !fromNow);
            && Inv(m')
            && (ok <==> t.cb.Some? || (ms == t.ms && !fromNow))
            && (!moves ==> m' == m)
            && (forall b :: b in m'.order <==> b in m.order)
            && (moves ==>
                  && m'.all == m.all[a := t.(ms := ms, next := Add64(if fromNow then now else Sub64(t.next, t.ms), ms))]
                  && (m'.tickled <==> m.tickled || IsFirst(m', a))
                  && m'.notified == if !m.tickled && IsFirst(m', a) then m.notified + 1 else m.notified)
  {
    hide Reset, AddToSet, Find, Less, IsFirst, Add64, Sub64, Erase;
    ResetIs(m, a, ms, fromNow, now);
    FindIsExact(m.all, m.order, a);
    var k := Find(m.all, m.order, a);
    var t := m.all[a];
    if t.cb.Some? && !(ms == t.ms && !fromNow) {
      EraseMember(m.all, m.order, k);
      var t' := t.(ms := ms, next := Add64(if fromNow then now else Sub64(t.next, t.ms), ms));
      ChangeOutside(m.all, Erase(m.order, k), a, t');
      AddToSetIsExact(m.(all := m.all[a := t'], order := Erase(m.order, k)), a);
    }
  }

  // ----- Expiry -----

  lemma {:induction false} SortedHasNoRepeats(all: map<nat, Timer>, order: seq<nat>, i: nat, j: nat)
    requires Sorted(all, order) && i < j < |order|
    ensures order[i] != order[j]
  {
    assert Before(all, order[i], order[j]);
  }

  lemma FirstIsFirst(all: map<nat, Timer>, order: seq<nat>, k: nat)
    requires Sorted(all, order) && k < |order|
    ensures order[0] == order[k] <==> k == 0
  {
    if k > 0 { SortedHasNoRepeats(all, order, 0, k); }
  }

  predicate Distinct(s: seq<nat>) { forall i, j | 0 <= i < j < |s| :: s[i] != s[j] }

  lemma FireOneIsExact(all: map<nat, Timer>, order: seq<nat>, a: nat, now: u64)
    requires Sorted(all, order) && a in all && a !in order
    ensures var (all', order') := FireOne(all, order, a, now);
            && Sorted(all', order') && all' == all[a := Fired(all[a], now)]
            && forall b :: b in order' <==> b in order || (b == a && all[a].recurring)
  {
    var all' := all[a := Fired(all[a], now)];
    ChangeOutside(all, order, a, Fired(all[a], now));
    if all[a].recurring { InsertNew(all', order, a); }
  }

  /** Firing changes exactly the expired timers and puts exactly the recurring ones back. */
  lemma {:induction false} FireIsExact(all: map<nat, Timer>, order: seq<nat>, expired: seq<nat>, now: u64)
    requires Sorted(all, order) && Known(all, expired) && Distinct(expired)
    requires forall a | a in expired :: a !in order
    ensures var (all', order') := Fire(all, order, expired, now);
            && Sorted(all', order') && all'.Keys == all.Keys
            && (forall a | a in all :: all'[a] == if a in expired then Fired(all[a], now) else all[a])
            && (forall a :: a in order' <==> a in order || (a in expired && all[a].recurring))
    decreases |expired|
  {
    hide FireOne, Fired, Sorted;
    SortedIsKnown(all, order);
    if expired != [] {
      var a := expired[0];
      var (all1, order1) := FireOne(all, order, a, now);
      FireOneIsExact(all, order, a, now);
      assert expired == [a] + expired[1..];
      assert forall b | b in expired[1..] :: b != a && b !in order1;
      FireIsExact(all1, order1, expired[1..], now);
    }
  }

  /** Without a rollover, the timers due are exactly those with a deadline up to now, wherever the probe lies. */
  lemma DueIsExact(m: Manager, now: u64, probe: nat)
    requires Sorted(m.all, m.order) && !Rollover(m.previous, now)
    ensures var k := Due(m, now, probe);
            && (forall i | 0 <= i < k :: m.all[m.order[i]].next <= now)
            && (forall i | k <= i < |m.order| :: m.all[m.order[i]].next > now)
  {
    var lo, k := LowerBound(m.all, m.order, now, probe), Due(m, now, probe);
    forall i | k <= i < |m.order|
      ensures m.all[m.order[i]].next > now
    {
      assert k < i ==> Before(m.all, m.order[k], m.order[i]);
      assert lo < k ==> Before(m.all, m.order[lo], m.order[k]);
    }
  }

  /** How many timers listExpiredCb takes out. */
  function Count(m: Manager, now: u64, probe: nat): (k: nat)
    requires Known(m.all, m.order)
    ensures k <= |m.order|
  {
    if m.order == [] then 0 else Due(m, now, probe)
  }

  /** The early returns change nothing but the time of the last look, and are taken only when nobody is due. */
  lemma EarlyReturn(m: Manager, now: u64, probe: nat)
    requires Sorted(m.all, m.order)
    requires m.order == [] || (!Rollover(m.previous, now) && m.all[m.order[0]].next > now)
    ensures Count(m, now, probe) == 0
    ensures var (m', cbs) := ListExpired(m, now, probe);
            cbs == [] && m' == m.(previous := m'.previous)
  {
    hide Sorted, Less, Rollover;
    if m.order != [] {
      DueIsExact(m, now, probe);
    }
  }

  /** Expiry, part one: which timers are taken, by their deadlines. */
  lemma CountIsExact(m: Manager, now: u64, probe: nat)
    requires Sorted(m.all, m.order)
    ensures var k := Count(m, now, probe);
            if Rollover(m.previous, now) then k == |m.order|
            else
              (forall i | 0 <= i < k :: m.all[m.order[i]].next <= now)
              && (forall i | k <= i < |m.order| :: m.all[m.order[i]].next > now)
  {
    if m.order != [] && !Rollover(m.previous, now) { DueIsExact(m, now, probe); }
  }

  /** What taking out the first k timers must leave behind. */
  ghost predicate Taken(m: Manager, now: u64, k: nat, m': Manager)
    requires Known(m.all, m.order) && k <= |m.order|
  {
    && m'.all.Keys == m.all.Keys
    && (forall a | a in m.all :: m'.all[a] == if a in m.order[..k] then Fired(m.all[a], now) else m.all[a])
    && (forall a :: a in m'.order <==> a in m.order[k..] || (a in m.order[..k] && m.all[a].recurring))
    && m'.tickled == m.tickled && m'.notified == m.notified
  }

  lemma TakenNobody(m: Manager, now: u64, m': Manager)
    requires Known(m.all, m.order) && m' == m.(previous := m'.previous)
    ensures Taken(m, now, 0, m')
  {
    assert m.order[0..] == m.order;
  }

  /**
   * Expiry exactness: the callbacks returned are those of the due timers in deadline order;
   * the set keeps the later timers and gets the recurring ones back at now + ms; nothing else changes.
   */
  lemma ExpiryIsExact(m: Manager, now: u64, probe: nat)
    requires Sorted(m.all, m.order)
    ensures var (m', cbs) := ListExpired(m, now, probe);
            var k := Count(m, now, probe);
            && Sorted(m'.all, m'.order)
            && Taken(m, now, k, m') && m'.previous == (if m.order == [] then m.previous else now)
            && cbs == Callbacks(m.all, m.order[..k])
  {
    hide Taken, Due, Fire, Rollover, Sorted, Fired;
    SortedIsKnown(m.all, m.order);
    var k := Count(m, now, probe);
    if m.order == [] || (!Rollover(m.previous, now) && m.all[m.order[0]].next > now) {
      EarlyReturn(m, now, probe);
      TakenNobody(m, now, ListExpired(m, now, probe).0);
      SameOrder(m, ListExpired(m, now, probe).0);
    } else {
      CutIsClean(m.all, m.order, k);
      TakingIsExact(m, now, k, now);
    }
  }

  lemma SortedIsKnown(all: map<nat, Timer>, order: seq<nat>)
    requires Sorted(all, order)
    ensures Known(all, order)
  {
  }

  lemma SameOrder(m: Manager, m': Manager)
    requires Sorted(m.all, m.order) && m'.all == m.all && m'.order == m.order
    ensures Sorted(m'.all, m'.order)
  {
  }

  lemma TakingIsExact(m: Manager, now: u64, k: nat, previous: u64)
    requires Sorted(m.all, m.order) && k <= |m.order|
    ensures var (all, order) := Fire(m.all, m.order[k..], m.order[..k], now);
            var m' := m.(previous := previous, all := all, order := order);
            Sorted(m'.all, m'.order) && Taken(m, now, k, m')
  {
    hide Fire, Fired, Less;
    CutIsClean(m.all, m.order, k);
    FireIsExact(m.all, m.order[k..], m.order[..k], now);
  }

  lemma TakenKeepsInv(m: Manager, now: u64, k: nat, m': Manager)
    requires Inv(m) && k <= |m.order| && Taken(m, now, k, m') && Sorted(m'.all, m'.order)
    ensures Inv(m')
  {
    hide Sorted;
    CutIsClean(m.all, m.order, k);
    assert m.order == m.order[..k] + m.order[k..];
    assert forall a | a in m.all && a !in m.order[..k] && a !in m.order[k..] :: a !in m.order;
  }

  lemma CutIsClean(all: map<nat, Timer>, order: seq<nat>, k: nat)
    requires Sorted(all, order) && k <= |order|
    ensures Sorted(all, order[k..]) && Distinct(order[..k])
    ensures forall a | a in order[..k] :: a !in order[k..]
  {
    forall i, j | 0 <= i < j < |order|
      ensures order[i] != order[j]
    {
      SortedHasNoRepeats(all, order, i, j);
    }
  }

  // ----- Every run -----

  /** A run is a sequence of operations, each at its clock time. */
  function Run(m: Manager, ops: seq<(Op, u64)>): Manager
    requires Inv(m)
    ensures Inv(Run(m, ops))
    decreases |ops|
  {
    if ops == [] then m
    else
      ExecKeepsInv(m, ops[0].0, ops[0].1);
      Run(Exec(m, ops[0].0, ops[0].1), ops[1..])
  }

  lemma ExecKeepsInv(m: Manager, op: Op, now: u64)
    requires Inv(m)
    ensures Inv(Exec(m, op, now))
  {
    hide AddTimer, Cancel, Refresh, Reset, ListExpired, Inv;
    match op
    case Add(a, ms, cb, recurring) => AddIsExact(m, a, ms, cb, recurring, now);
    case CancelOp(a) => if a in m.all { CancelIsExact(m, a); }
    case RefreshOp(a) => if a in m.all { RefreshIsExact(m, a, now); }
    case ResetOp(a, ms, fromNow) => if a in m.all { ResetIsExact(m, a, ms, fromNow, now); }
    case NextOp => NextKeepsInv(m, now);
    case ExpireOp(probe) =>
      InvIsSorted(m);
      ExpiryIsExact(m, now, probe);
      TakenKeepsInv(m, now, Count(m, now, probe), ListExpired(m, now, probe).0);
  }

  lemma InvIsSorted(m: Manager)
    requires Inv(m)
    ensures Sorted(m.all, m.order) && Known(m.all, m.order)
  {
  }

  lemma NextKeepsInv(m: Manager, now: u64)
    requires Inv(m)
    ensures Inv(GetNext(m, now).0)
  {
  }

  // ----- No lost wake-up -----

  /** The deadline getNextTimer's answer is based on; 2^64 stands for "none". */
  function Armed(m: Manager): nat
    requires Known(m.all, m.order)
  {
    if m.order == [] then TWO64 else m.all[m.order[0]].next
  }

  /** Since the answer for armed was given: whoever came first earlier was announced, once. */
  predicate Awake(m: Manager, armed: nat, base: nat) {
    && Known(m.all, m.order)
    && (Armed(m) < armed ==> m.tickled)
    && m.notified == base + if m.tickled then 1 else 0
  }

  /** A window operation: anything that can run between two looks at the set. */
  predicate InWindow(op: Op) { !op.NextOp? && !op.ExpireOp? }

  /** Nobody in the set is due before the first. */
  lemma ArmedIsLeast(m: Manager, a: nat)
    requires Sorted(m.all, m.order) && a in m.order
    ensures Armed(m) <= m.all[a].next && m.order != []
  {
    var i :| 0 <= i < |m.order| && m.order[i] == a;
    assert i > 0 ==> Before(m.all, m.order[0], m.order[i]);
  }

  /** The first deadline of a set whose members were all there before, none of them moved forward. */
  lemma ArmedGrows(m: Manager, m': Manager)
    requires Sorted(m.all, m.order) && Known(m'.all, m'.order)
    requires forall a | a in m'.order :: a in m.order && m'.all[a].next >= m.all[a].next
    ensures Armed(m') >= Armed(m)
  {
    if m'.order != [] {
      ArmedIsLeast(m, m'.order[0]);
    }
    else if m.order != [] {
      assert m.order[0] in m.all;
    }
  }

  /** The private addTimer announces a new first timer. */
  lemma AddToSetKeepsAwake(m: Manager, a: nat, armed: nat, base: nat)
    requires Sorted(m.all, m.order) && a in m.all && a !in m.order && Awake(m, armed, base)
    ensures Awake(AddToSet(m, a), armed, base)
  {
    hide Less;
    AddToSetIsExact(m, a);
    var m' := AddToSet(m, a);
    if m'.order != [] && m'.order[0] != a {
      assert m'.order[0] in m.order;
      ArmedIsLeast(m, m'.order[0]);
    }
  }

  /** refresh inserts without an announcement: it loses the wake-up exactly if it makes a timer due before armed. */
  predicate RefreshLoses(m: Manager, op: Op, now: u64, armed: nat) {
    && op.RefreshOp? && op.a in m.all && m.all[op.a].cb.Some?
    && !m.tickled && Add64(now, m.all[op.a].ms) < armed
  }

  lemma RefreshAwake(m: Manager, a: nat, now: u64, armed: nat, base: nat)
    requires Inv(m) && Awake(m, armed, base)
    ensures Awake(Exec(m, RefreshOp(a), now), armed, base) <==> !RefreshLoses(m, RefreshOp(a), now, armed)
  {
    hide Less, Refresh;
    if a in m.all {
      RefreshIsExact(m, a, now);
      var m' := Refresh(m, a, now).0;
      if m.all[a].cb.Some? {
        ArmedIsLeast(m', a);
        if m'.order[0] != a { ArmedIsLeast(m, m'.order[0]); }
      } else {
        ArmedGrows(m, m');
      }
    }
  }

  lemma CancelAwake(m: Manager, a: nat, armed: nat, base: nat)
    requires Inv(m) && a in m.all && Awake(m, armed, base)
    ensures Awake(Cancel(m, a).0, armed, base)
  {
    hide Less, Cancel;
    CancelIsExact(m, a);
    ArmedGrows(m, Cancel(m, a).0);
  }

  lemma ResetAwake(m: Manager, a: nat, ms: u64, fromNow: bool, now: u64, armed: nat, base: nat)
    requires Inv(m) && a in m.all && Awake(m, armed, base)
    ensures Awake(Reset(m, a, ms, fromNow, now).0, armed, base)
  {
    hide Less, Find, AddToSet;
    FindIsExact(m.all, m.order, a);
    var k := Find(m.all, m.order, a);
    var t := m.all[a];
    if t.cb.Some? && k < |m.order| && !(ms == t.ms && !fromNow) {
      EraseMember(m.all, m.order, k);
      var t' := t.(ms := ms, next := Add64(if fromNow then now else Sub64(t.next, t.ms), ms));
      ChangeOutside(m.all, Erase(m.order, k), a, t');
      var m1 := m.(all := m.all[a := t'], order := Erase(m.order, k));
      ArmedGrows(m, m1);
      AddToSetKeepsAwake(m1, a, armed, base);
    }
  }

  lemma AddAwake(m: Manager, a: nat, ms: u64, cb: Option<nat>, recurring: bool, now: u64, armed: nat, base: nat)
    requires Inv(m) && Awake(m, armed, base)
    ensures Awake(AddTimer(m, a, ms, cb, recurring, now), armed, base)
  {
    hide Less, AddToSet;
    if a !in m.all {
      var t := Timer(ms, Add64(now, ms), cb, recurring, cb.Some?);
      ChangeOutside(m.all, m.order, a, t);
      AddToSetKeepsAwake(m.(all := m.all[a := t]), a, armed, base);
    }
  }

  /** One operation keeps everybody awake if and only if it is not such a refresh. */
  lemma AwakeIsExact(m: Manager, op: Op, now: u64, armed: nat, base: nat)
    requires Inv(m) && Awake(m, armed, base) && InWindow(op)
    ensures Awake(Exec(m, op, now), armed, base) <==> !RefreshLoses(m, op, now, armed)
  {
    hide AddTimer, Cancel, Refresh, Reset, Inv, Awake;
    match op
    case Add(a, ms, cb, recurring) => AddAwake(m, a, ms, cb, recurring, now, armed, base);
    case CancelOp(a) => if a in m.all { CancelAwake(m, a, armed, base); }
    case RefreshOp(a) => RefreshAwake(m, a, now, armed, base);
    case ResetOp(a, ms, fromNow) => if a in m.all { ResetAwake(m, a, ms, fromNow, now, armed, base); }
    case _ =>
  }

  const Fresh: Manager := Manager(map[], [], false, 0, 0)

  lemma FirstTimer(a: nat, ms: u64, cb: nat, now: u64)
    ensures var m := AddTimer(Fresh, a, ms, Some(cb), false, now);
            && Inv(m) && m.order == [a] && m.tickled
            && m.all == map[a := Timer(ms, Add64(now, ms), Some(cb), false, true)]
  {
    hide Add64;
    AddIsExact(Fresh, a, ms, Some(cb), false, now);
  }

  /** A timer of 2^64 - 1 ms refreshed at time 5 is due at time 4, and nobody is told. */
  lemma RefreshCanLose()
    ensures var ms: u64 := TWO64 - 1;
            var m := AddTimer(Fresh, 1, ms, Some(0), false, 0);
            && Inv(m) && 1 in m.all
            && var m1 := GetNext(m, 0).0;
            && Inv(m1) && Armed(m1) == TWO64 - 1
            && var m2 := Refresh(m1, 1, 5).0;
            Inv(m2) && Armed(m2) == 4 && !m2.tickled
  {
    hide AddTimer, Refresh;
    var ms: u64 := TWO64 - 1;
    FirstTimer(1, ms, 0, 0);
    var m := GetNext(AddTimer(Fresh, 1, ms, Some(0), false, 0), 0).0;
    RefreshIsExact(m, 1, 5);
    var m2 := Refresh(m, 1, 5).0;
    assert 1 in m.order;
    assert m2.order[0] in m.order;
  }

  // ----- Whole runs under a clock that does not go back -----

  /** The source reads the clock of these before it takes the lock, so that later readings may overtake it. */
  predicate ReadsEarly(op: Op) { op.Add? || op.ExpireOp? }

  /** An operation's clock time is not before the latest one, unless it was read early. */
  predicate Timely(op: Op, clock: u64, now: u64) { clock <= now || ReadsEarly(op) }

  function Later(clock: u64, now: u64): u64 { if clock <= now then now else clock }

  /** The latest clock time of a run. */
  function EndClock(ops: seq<(Op, u64)>, clock: u64): u64 {
    if ops == [] then clock else EndClock(ops[1..], Later(clock, ops[0].1))
  }

  /** Every deadline in the set is its period after some moment up to the clock. */
  predicate Calm(m: Manager, clock: u64) {
    && Known(m.all, m.order)
    && forall a | a in m.order :: m.all[a].ms <= m.all[a].next <= clock + m.all[a].ms
  }

  /** The deadline an operation computes does not wrap around. */
  predicate NoWrap(m: Manager, op: Op, now: u64)
    requires Known(m.all, m.order)
  {
    match op
    case Add(_, ms, _, _) => now + ms < TWO64
    case RefreshOp(a) => a in m.all ==> now + m.all[a].ms < TWO64
    case ResetOp(a, ms, fromNow) =>
      a in m.order ==> (if fromNow then now else m.all[a].next - m.all[a].ms) + ms < TWO64
    case ExpireOp(_) => forall a | a in m.order :: m.all[a].recurring ==> now + m.all[a].ms < TWO64
    case _ => true
  }

  lemma ExpireKeepsCalm(m: Manager, clock: u64, now: u64, probe: nat)
    requires Inv(m) && Calm(m, clock) && NoWrap(m, ExpireOp(probe), now)
    ensures Calm(ListExpired(m, now, probe).0, Later(clock, now))
  {
    hide ListExpired, Less, Count, Rollover;
    var k := Count(m, now, probe);
    var m' := ListExpired(m, now, probe).0;
    ExpiryIsExact(m, now, probe);
    CutIsClean(m.all, m.order, k);
    assert m.order == m.order[..k] + m.order[k..];
  }

  lemma AddKeepsCalm(m: Manager, a: nat, ms: u64, cb: Option<nat>, recurring: bool, clock: u64, now: u64)
    requires Inv(m) && Calm(m, clock) && now + ms < TWO64
    ensures Calm(AddTimer(m, a, ms, cb, recurring, now), Later(clock, now))
  {
    hide Less;
    if a !in m.all {
      var t := Timer(ms, Add64(now, ms), cb, recurring, cb.Some?);
      ChangeOutside(m.all, m.order, a, t);
      AddToSetIsExact(m.(all := m.all[a := t]), a);
    }
  }

  lemma ResetStart(t: Timer, ms: u64, fromNow: bool, clock: u64, now: u64)
    requires t.ms <= t.next <= clock + t.ms && clock <= now
    requires (if fromNow then now else t.next - t.ms) + ms < TWO64
    ensures ms <= Add64(if fromNow then now else Sub64(t.next, t.ms), ms) <= now + ms
  {
  }

  lemma StepKeepsCalm(m: Manager, op: Op, clock: u64, now: u64)
    requires Inv(m) && Calm(m, clock) && Timely(op, clock, now) && NoWrap(m, op, now)
    ensures Calm(Exec(m, op, now), Later(clock, now))
  {
    hide AddTimer, Cancel, Refresh, Reset, ListExpired, Sorted, Sub64;
    InvIsSorted(m);
    match op
    case Add(a, ms, cb, recurring) => AddKeepsCalm(m, a, ms, cb, recurring, clock, now);
    case CancelOp(a) =>
      if a in m.all {
        CancelIsExact(m, a);
        InvIsSorted(Exec(m, op, now));
      }
    case RefreshOp(a) => if a in m.all {
        RefreshIsExact(m, a, now);
        InvIsSorted(Exec(m, op, now));
      }
    case ResetOp(a, ms, fromNow) =>
      if a in m.all {
        ResetIsExact(m, a, ms, fromNow, now);
        InvIsSorted(Exec(m, op, now));
        if a in m.order { ResetStart(m.all[a], ms, fromNow, clock, now); }
      }
    case NextOp =>
    case ExpireOp(probe) => ExpireKeepsCalm(m, clock, now, probe);
  }

  /** The clock does not go back, but for readings made early, and no deadline wraps, all along the run. */
  predicate Steady(m: Manager, ops: seq<(Op, u64)>, clock: u64)
    requires Inv(m)
    decreases |ops|
  {
    ops == [] ||
    var (op, now) := ops[0];
    ExecKeepsInv(m, op, now);
    Timely(op, clock, now) && NoWrap(m, op, now) && Steady(Exec(m, op, now), ops[1..], Later(clock, now))
  }

  lemma {:induction false} StepsKeepAwake(m: Manager, ops: seq<(Op, u64)>, clock: u64, armed: nat, base: nat)
    requires Inv(m) && Calm(m, clock) && Steady(m, ops, clock) && Awake(m, armed, base)
    requires forall i | 0 <= i < |ops| :: InWindow(ops[i].0)
    ensures Awake(Run(m, ops), armed, base)
    decreases |ops|
  {
    hide Inv, Awake, Calm, NoWrap, Exec;
    if ops != [] {
      var (op, now) := ops[0];
      ExecKeepsInv(m, op, now);
      InvIsSorted(m);
      StepKeepsCalm(m, op, clock, now);
      NoWrapIsHeard(m, op, clock, now, armed, base);
      AwakeIsExact(m, op, now, armed, base);
      StepsKeepAwake(Exec(m, op, now), ops[1..], Later(clock, now), armed, base);
    }
  }

  /** Without wrap-around a refresh only moves a timer back. */
  lemma NoWrapIsHeard(m: Manager, op: Op, clock: u64, now: u64, armed: nat, base: nat)
    requires Inv(m) && Calm(m, clock) && Timely(op, clock, now) && NoWrap(m, op, now) && Awake(m, armed, base)
    ensures !RefreshLoses(m, op, now, armed)
  {
    hide Less;
    if op.RefreshOp? && op.a in m.order {
      ArmedIsLeast(m, op.a);
    }
  }

  lemma {:induction false} RunKeepsCalm(m: Manager, ops: seq<(Op, u64)>, clock: u64)
    requires Inv(m) && Calm(m, clock) && Steady(m, ops, clock)
    ensures Calm(Run(m, ops), EndClock(ops, clock))
    decreases |ops|
  {
    hide Inv, Calm, NoWrap, Exec;
    if ops != [] {
      var (op, now) := ops[0];
      ExecKeepsInv(m, op, now);
      InvIsSorted(m);
      StepKeepsCalm(m, op, clock, now);
      RunKeepsCalm(Exec(m, op, now), ops[1..], Later(clock, now));
    }
  }

  lemma {:induction false} RunTwice(m: Manager, a: seq<(Op, u64)>, b: seq<(Op, u64)>)
    requires Inv(m)
    ensures Run(m, a + b) == Run(Run(m, a), b)
    decreases |a|
  {
    hide Inv, Exec;
    if a == [] {
      assert a + b == b;
    } else {
      InvIsSorted(m);
      ExecKeepsInv(m, a[0].0, a[0].1);
      assert (a + b)[1..] == a[1..] + b;
      RunTwice(Exec(m, a[0].0, a[0].1), a[1..], b);
    }
  }

  lemma {:induction false} SteadyParts(m: Manager, a: seq<(Op, u64)>, b: seq<(Op, u64)>, clock: u64)
    requires Inv(m)
    ensures Steady(m, a + b, clock)
       <==> Steady(m, a, clock) && Steady(Run(m, a), b, EndClock(a, clock))
    decreases |a|
  {
    hide Inv, Exec, NoWrap;
    if a == [] {
      assert a + b == b;
    } else {
      InvIsSorted(m);
      ExecKeepsInv(m, a[0].0, a[0].1);
      assert (a + b)[1..] == a[1..] + b;
      SteadyParts(Exec(m, a[0].0, a[0].1), a[1..], b, Later(clock, a[0].1));
    }
  }

  /** getNextTimer's answer: no timer is due before it has passed, and the first one is due then. */
  lemma NextIsExact(m: Manager, now: u64)
    requires Sorted(m.all, m.order)
    ensures var (m', wait) := GetNext(m, now);
            && m' == m.(tickled := false)
            && (m.order == [] ==> wait == TWO64 - 1)
            && (forall a | a in m.order :: now + wait <= if m.all[a].next < now then now else m.all[a].next)
            && (m.order != [] ==>
                  exists a | a in m.order :: now + wait == if m.all[a].next < now then now else m.all[a].next)
  {
    hide Less;
    forall a | a in m.order
      ensures Armed(m) <= m.all[a].next
    {
      ArmedIsLeast(m, a);
    }
    if m.order != [] { assert m.order[0] in m.order; }
  }

  lemma FreshIsCalm(start: u64)
    ensures Inv(Fresh.(previous := start)) && Calm(Fresh.(previous := start), start)
  {
  }

  /**
   * No lost wake-up: after any history, from getNextTimer on and until the set is looked at again,
   * whenever the first deadline is earlier than the one the answer was based on, tickled is set;
   * and at most one announcement is made, exactly when tickled is set.
   */
  lemma NoLostWakeup(start: u64, history: seq<(Op, u64)>, now: u64, window: seq<(Op, u64)>)
    requires Inv(Fresh.(previous := start))
    requires Steady(Fresh.(previous := start), history + [(NextOp, now)] + window, start)
    requires forall i | 0 <= i < |window| :: InWindow(window[i].0)
    ensures var m := Run(Fresh.(previous := start), history + [(NextOp, now)]);
            var m' := Run(Fresh.(previous := start), history + [(NextOp, now)] + window);
            && (Armed(m') < Armed(m) ==> m'.tickled)
            && m'.notified == m.notified + if m'.tickled then 1 else 0
  {
    hide Exec, NoWrap, Run, Steady, Inv, Calm;
    FreshIsCalm(start);
    var m0 := Fresh.(previous := start);
    var before := history + [(NextOp, now)];
    SteadyParts(m0, before, window, start);
    RunTwice(m0, before, window);
    RunKeepsCalm(m0, before, start);
    RunTwice(m0, history, [(NextOp, now)]);
    var m := Run(m0, before);
    LookIsAwake(Run(m0, history), now);
    StepsKeepAwake(m, window, EndClock(before, start), Armed(m), m.notified);
  }

  lemma LookIsAwake(m: Manager, now: u64)
    requires Inv(m)
    ensures var m' := Run(m, [(NextOp, now)]);
            Awake(m', Armed(m'), m'.notified) && m'.notified == m.notified && Armed(m') == Armed(m)
  {
    assert [(NextOp, now)][1..] == [];
  }

  /**
   * When the clock counts as having rolled over: it went back by more than an hour, or it went
   * back at all within the first hour, where the subtraction wraps around.
   */
  lemma RolloverIsExact(previous: u64, now: u64)
    ensures Rollover(previous, now) <==> now < previous && (previous < 3_600_000 || now < previous - 3_600_000)
  {
    if previous < HOUR { assert Sub64(previous, HOUR) == previous - HOUR + TWO64; }
  }

  // ----- The operations in plain numbers -----

  function Wrapped(i: int): u64 { i % 0x1_0000_0000_0000_0000 }

  /** The operations that name a timer: the deadline it gets, or that it leaves the set for good. */
  lemma OperationIs(m: Manager, op: Op, now: u64)
    requires Inv(m)
    ensures var to := Exec(m, op, now);
            match op
            case Add(a, ms, cb, recurring) =>
              a !in m.all ==>
                && to.all == m.all[a := Timer(ms, Wrapped(now + ms), cb, recurring, cb.Some?)]
                && forall b: nat :: b in to.order <==> b in m.order || b == a
            case CancelOp(a) =>
              if a in m.all && m.all[a].cb.Some? then
                && to.all == m.all[a := m.all[a].(cb := None)]
                && forall b: nat :: b in to.order <==> b in m.order && b != a
              else to == m
            case RefreshOp(a) =>
              if a in m.all && m.all[a].cb.Some? then
                && to.all == m.all[a := m.all[a].(next := Wrapped(now + m.all[a].ms))]
                && forall b: nat :: b in to.order <==> b in m.order
              else to == m
            case ResetOp(a, ms, fromNow) =>
              if a in m.all && m.all[a].cb.Some? then
                && var start := if fromNow then now else m.all[a].next - m.all[a].ms;
                && to.all == (if fromNow || ms != m.all[a].ms
                              then m.all[a := m.all[a].(ms := ms, next := Wrapped(start + ms))] else m.all)
                && forall b: nat :: b in to.order <==> b in m.order
              else to == m
            case NextOp => to == m.(tickled := false)
            case ExpireOp(_) => true
  {
    hide AddTimer, Reset, ListExpired, Sorted, Less, Find, Insert, Erase;
    InvIsSorted(m);
    match op
    case Add(a, ms, cb, recurring) => AddIsExact(m, a, ms, cb, recurring, now);
    case CancelOp(a) => if a in m.all { CancelIsExact(m, a); }
    case RefreshOp(a) => if a in m.all { RefreshIsExact(m, a, now); }
    case ResetOp(a, ms, fromNow) =>
      if a in m.all {
        ResetIsExact(m, a, ms, fromNow, now);
        if !fromNow { WrapTwice(m.all[a].next - m.all[a].ms, ms); }
      }
    case _ =>
  }

  lemma WrapTwice(i: int, ms: u64)
    requires -TWO64 < i < TWO64
    ensures (i % TWO64 + ms) % TWO64 == (i + ms) % TWO64
  {
  }

  /** A look at the set: of the timers taken, recurring ones are due their period from now, others are over. */
  lemma LookIs(m: Manager, now: u64, probe: nat, a: nat)
    requires Inv(m) && a in m.all
    ensures var to, k := Exec(m, ExpireOp(probe), now), Count(m, now, probe);
            && a in to.all
            && if a !in m.order[..k] then to.all[a] == m.all[a] && (a in to.order <==> a in m.order)
               else if m.all[a].recurring then
                 to.all[a] == m.all[a].(next := Wrapped(now + m.all[a].ms)) && a in to.order
               else to.all[a] == m.all[a].(cb := None) && a !in to.order
  {
    hide ListExpired, Count, Sorted, Less;
    InvIsSorted(m);
    var k := Count(m, now, probe);
    ExpiryIsExact(m, now, probe);
    CutIsClean(m.all, m.order, k);
    assert m.order == m.order[..k] + m.order[k..];
  }
}
