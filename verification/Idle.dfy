/**
 * The idle fiber of the IO manager, between getNextTimer and epoll_wait: when it stops, and how long it
 * waits otherwise.
 */
module Idle {
  import opened Bytes
  import opened Wrappers
  import T = TimerSpec
  import S = SchedulerSpec
  import I = IoSpec

  const MAX_TIMEOUT := 5000

  /** What getNextTimer answers when there is no timer. */
  const FOREVER := TWO64 - 1

  // ----- Stopping -----

  /** IOManager::stopping with its out-parameter. */
  predicate Stops(io: I.Io, m: T.Manager, now: u64)
    requires T.Known(m.all, m.order)
  {
    T.GetNext(m, now).1 == FOREVER && I.Stopping(io)
  }

  /** The answer for no timer is also given for a timer due at the last moment there is, asked for at time 0. */
  lemma ForeverIsExact(m: T.Manager, now: u64)
    requires T.Known(m.all, m.order)
    ensures T.GetNext(m, now).1 == FOREVER
       <==> m.order == [] || (now == 0 && m.all[m.order[0]].next == FOREVER)
  {
  }

  /**
   * The idle fiber ends exactly if no timer is left, or that one, nobody waits for an event, and all tasks of
   * a scheduler that was told to stop have ended.
   */
  lemma StopsIsExact(io: I.Io, m: T.Manager, now: u64)
    requires I.Inv(io) && T.Known(m.all, m.order)
    ensures Stops(io, m, now) <==>
            && (m.order == [] || (now == 0 && m.all[m.order[0]].next == FOREVER))
            && io.sched.stopping
            && (forall n | 0 <= n < |io.regs| :: n in io.deleted || n in io.scheduled)
            && forall n | 0 <= n < |io.sched.accepted| :: n in io.sched.done
  {
    hide I.Inv, S.Stopping;
    ForeverIsExact(m, now);
    I.StoppingIsExact(io);
  }

  // ----- Waiting -----

  /** A conversion of an int to uint64_t. */
  function Unsigned64(i: int): u64 { i % TWO64 }

  /** nextTimeout after one pass through the limit, as the 64-bit variable it is assigned to. */
  function Limited(timeout: u64): u64 {
    if timeout == FOREVER then MAX_TIMEOUT
    else Unsigned64(if Int32(timeout) < MAX_TIMEOUT then Int32(timeout) else MAX_TIMEOUT)
  }

  /** The conversion to int does not change the sign of the answer. */
  predicate Fits(wait: u64) { wait == FOREVER || wait % TWO32 < TWO32 / 2 }

  /** The time that epoll_wait is asked to wait at most; a negative one means for ever. */
  function Asked(wait: u64): int { Int32(Limited(wait)) }

  lemma LimitedIs(wait: u64)
    ensures Fits(wait) ==>
              && 0 <= Limited(wait) <= wait
              && Limited(wait) == (if wait == FOREVER || wait % TWO32 > 5000 then 5000 else wait % TWO32)
              && Asked(wait) == Limited(wait) && Limited(Limited(wait)) == Limited(wait)
    ensures !Fits(wait) ==> Asked(wait) < 0
  {
  }

  /** The loop around epoll_wait, which starts over when it is interrupted: the times it is asked to wait. */
  method Wait(wait: u64, interruptions: nat) returns (asked: seq<int>)
    ensures |asked| == interruptions + 1
    ensures (forall i | 0 <= i < |asked| :: 0 <= asked[i] <= wait) <==> Fits(wait)
    ensures Fits(wait) ==> forall i | 0 <= i < |asked| ::
              asked[i] == if wait == FOREVER || wait % TWO32 > 5000 then 5000 else wait % TWO32
  {
    hide Limited, Int32, Fits;
    LimitedIs(wait);
    var nextTimeout := Limited(wait);
    asked := [Int32(nextTimeout)];
    var i := 0;
    while i < interruptions
      invariant i <= interruptions && |asked| == i + 1 && asked[0] == Asked(wait)
      invariant Fits(wait) ==> nextTimeout == Limited(wait) && forall j | 0 <= j <= i :: asked[j] == Limited(wait)
    {
      nextTimeout := Limited(nextTimeout);
      asked := asked + [Int32(nextTimeout)];
      i := i + 1;
    }
  }

  /** Waiting as asked, the idle fiber does not sleep past the first deadline if the answer fits, and only then. */
  lemma NobodyIsOverslept(m: T.Manager, now: u64)
    requires T.Sorted(m.all, m.order)
    ensures var wait := T.GetNext(m, now).1;
            && (0 <= Asked(wait) <= wait <==> Fits(wait))
            && (Fits(wait) ==>
                  forall a | a in m.order :: now + Asked(wait) <= if m.all[a].next < now then now else m.all[a].next)
  {
    hide T.GetNext, T.Sorted;
    T.SortedIsKnown(m.all, m.order);
    T.NextIsExact(m, now);
    LimitedIs(T.GetNext(m, now).1);
  }

  /** A timer of 2^31 ms added at time 0 makes the idle fiber wait without limit. */
  lemma LongTimerIsOverslept()
    ensures var m := T.AddTimer(T.Fresh, 1, TWO32 / 2, Some(0), false, 0);
            && T.Inv(m) && m.order == [1] && m.all[1].next == TWO32 / 2
            && T.GetNext(m, 0).1 == TWO32 / 2 && Asked(TWO32 / 2) < 0
  {
    T.FirstTimer(1, TWO32 / 2, 0, 0);
    LimitedIs(TWO32 / 2);
  }
}
