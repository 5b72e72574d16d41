/** WTimer and WTimerManager of Source/Util/Time.hpp and Source/Util/Time.cpp, with exact numbers for
    the doubles: periodic timers, and timers aligned to multiples of their interval. */
module Timers {

  datatype Timer = Timer(interval: real, elapsed: real, id: int, aligned: bool, next: int)

  /** The interval of an aligned timer in whole seconds. */
  function Seconds(t: Timer): int { t.interval.Floor }

  /** The constructor; `now` is the wall clock. */
  function Make(interval: real, id: int, aligned: bool, now: nat): Timer
    requires aligned ==> 1.0 <= interval
  {
    Timer(interval, 0.0, id, aligned, if aligned then (now / interval.Floor + 1) * interval.Floor else 0)
  }

  /** WTimer::Update: the new timer and whether it fires. */
  function Update(t: Timer, delta: real, now: int): (Timer, bool) {
    if t.aligned then
      if now >= t.next then (t.(next := t.next + Seconds(t)), true) else (t, false)
    else
      var e := t.elapsed + delta;
      if e >= t.interval then (t.(elapsed := e - t.interval), true) else (t.(elapsed := e), false)
  }

  /** What a timer sees at one update: the time since the last one, and the wall clock. */
  datatype Tick = Tick(delta: real, now: int)

  function Run(t: Timer, ticks: seq<Tick>): Timer
    decreases |ticks|
  {
    if ticks == [] then t else Run(Update(t, ticks[0].delta, ticks[0].now).0, ticks[1..])
  }

  function Fires(t: Timer, ticks: seq<Tick>): nat
    decreases |ticks|
  {
    if ticks == [] then 0
    else
      var (t', fired) := Update(t, ticks[0].delta, ticks[0].now);
      (if fired then 1 else 0) + Fires(t', ticks[1..])
  }

  // ------------------------------------------------------------ aligned timers

  /** A fire of an aligned timer: the slot it is for and the wall clock at that moment. */
  datatype Fire = Fire(slot: int, at: int)

  function FireLog(t: Timer, ticks: seq<Tick>): (log: seq<Fire>)
    ensures |log| == Fires(t, ticks)
    decreases |ticks|
  {
    if ticks == [] then []
    else
      var (t', fired) := Update(t, ticks[0].delta, ticks[0].now);
      (if fired then [Fire(t.next, ticks[0].now)] else []) + FireLog(t', ticks[1..])
  }

  lemma MulStep(n: int, d: int)
    ensures (n + 1) * d == n * d + d
  {
  }

  /** The first slot is the next multiple of the interval after the moment of creation. */
  lemma FirstSlot(interval: real, id: int, now: nat)
    requires 1.0 <= interval
    ensures var t := Make(interval, id, true, now); var i := interval.Floor;
            && 1 <= i && now < t.next <= now + i && t.next == (now / i + 1) * i
  {
    var i := interval.Floor;
    assert now / i * i + now % i == now;
    MulStep(now / i, i);
  }

  /** Fire number `k` is for slot number `k`, and not before its time: no slot is skipped or fires
      twice, whatever the clock does. */
  lemma {:induction false} AlignedFires(t: Timer, ticks: seq<Tick>, k: nat)
    requires t.aligned && k < Fires(t, ticks)
    ensures FireLog(t, ticks)[k].slot == t.next + k * Seconds(t) <= FireLog(t, ticks)[k].at
    decreases |ticks|
  {
    var (t', fired) := Update(t, ticks[0].delta, ticks[0].now);
    if !fired {
      AlignedFires(t', ticks[1..], k);
    } else if 0 < k {
      AlignedFires(t', ticks[1..], k - 1);
      MulStep(k - 1, Seconds(t));
    }
  }

  /** The next fire time moves by whole intervals. */
  lemma {:induction false} AlignedNext(t: Timer, ticks: seq<Tick>)
    requires t.aligned
    ensures Run(t, ticks).next == t.next + Fires(t, ticks) * Seconds(t)
    ensures Run(t, ticks).aligned && Run(t, ticks).interval == t.interval
    decreases |ticks|
  {
    if ticks != [] {
      var (t', fired) := Update(t, ticks[0].delta, ticks[0].now);
      AlignedNext(t', ticks[1..]);
      MulStep(Fires(t', ticks[1..]), Seconds(t));
    }
  }

  /** So it always stays a multiple of the interval. */
  lemma AlignedStaysAligned(interval: real, id: int, now: nat, ticks: seq<Tick>)
    requires 1.0 <= interval
    ensures var n := now / interval.Floor + 1 + Fires(Make(interval, id, true, now), ticks);
            Run(Make(interval, id, true, now), ticks).next == n * interval.Floor
  {
    var t, i := Make(interval, id, true, now), interval.Floor;
    AlignedNext(t, ticks);
    assert (now / i + 1) * i + Fires(t, ticks) * i == (now / i + 1 + Fires(t, ticks)) * i;
  }

  predicate AllAtLeast(ticks: seq<Tick>, clock: int) { forall i :: 0 <= i < |ticks| ==> clock <= ticks[i].now }

  /** After a jump of the clock the missed slots are made up for, one with every update. */
  lemma {:induction false} AlignedCatchesUp(t: Timer, ticks: seq<Tick>, clock: int, due: nat)
    requires t.aligned && 1 <= Seconds(t) && AllAtLeast(ticks, clock)
    requires 0 < due ==> t.next + (due - 1) * Seconds(t) <= clock
    ensures Fires(t, ticks) >= if |ticks| < due then |ticks| else due
    decreases |ticks|
  {
    if ticks != [] && 0 < due {
      assert t.next <= clock by {
        assert 0 <= (due - 1) * Seconds(t);
      }
      var t' := Update(t, ticks[0].delta, ticks[0].now).0;
      if 1 < due {
        MulStep(due - 2, Seconds(t));
      }
      AlignedCatchesUp(t', ticks[1..], clock, due - 1);
    }
  }

  /** An aligned timer fires at an update exactly if its next slot has come. */
  lemma {:induction false} AlignedFiresWhenDue(t: Timer, ticks: seq<Tick>, tick: Tick)
    requires t.aligned
    ensures Update(Run(t, ticks), tick.delta, tick.now).1 <==> t.next + Fires(t, ticks) * Seconds(t) <= tick.now
  {
    AlignedNext(t, ticks);
  }

  // ------------------------------------------------------------ periodic timers

  function Elapsed(ticks: seq<Tick>): real { if ticks == [] then 0.0 else ticks[0].delta + Elapsed(ticks[1..]) }

  /** The time that fires account for: one interval each. */
  function Paid(t: Timer, ticks: seq<Tick>): real
    decreases |ticks|
  {
    if ticks == [] then 0.0
    else
      var (t', fired) := Update(t, ticks[0].delta, ticks[0].now);
      (if fired then t.interval else 0.0) + Paid(t', ticks[1..])
  }

  lemma RealStep(n: nat, d: real)
    ensures (n + 1) as real * d == n as real * d + d
  {
    assert (n + 1) as real == n as real + 1.0;
  }

  lemma {:induction false} PaidIsFires(t: Timer, ticks: seq<Tick>)
    ensures Paid(t, ticks) == Fires(t, ticks) as real * t.interval
    decreases |ticks|
  {
    if ticks != [] {
      var t' := Update(t, ticks[0].delta, ticks[0].now).0;
      PaidIsFires(t', ticks[1..]);
      RealStep(Fires(t', ticks[1..]), t.interval);
    }
  }

  /** All time that passes is accounted for: by fires, or as the remainder. */
  lemma {:induction false} PeriodicAccounts(t: Timer, ticks: seq<Tick>)
    requires !t.aligned
    ensures t.elapsed + Elapsed(ticks) == Paid(t, ticks) + Run(t, ticks).elapsed
    ensures !Run(t, ticks).aligned && Run(t, ticks).interval == t.interval
    decreases |ticks|
  {
    if ticks != [] {
      PeriodicAccounts(Update(t, ticks[0].delta, ticks[0].now).0, ticks[1..]);
    }
  }

  /** A periodic timer fires at an update exactly if a whole interval has not been fired for; so a step
      longer than the interval is made up for at the next updates. */
  lemma {:induction false} PeriodicFiresWhenDue(t: Timer, ticks: seq<Tick>, tick: Tick)
    requires !t.aligned
    ensures Update(Run(t, ticks), tick.delta, tick.now).1 <==>
            t.interval <= t.elapsed + Elapsed(ticks) + tick.delta - Fires(t, ticks) as real * t.interval
  {
    PeriodicAccounts(t, ticks);
    PaidIsFires(t, ticks);
  }

  predicate NoStepOver(ticks: seq<Tick>, d: real) { forall i :: 0 <= i < |ticks| ==> ticks[i].delta <= d }

  predicate NoStepBack(ticks: seq<Tick>) { forall i :: 0 <= i < |ticks| ==> 0.0 <= ticks[i].delta }

  /** If no update comes later than one interval, the remainder stays below the interval. */
  lemma {:induction false} PeriodicOnTime(t: Timer, ticks: seq<Tick>)
    requires !t.aligned && t.elapsed < t.interval && NoStepOver(ticks, t.interval)
    ensures Run(t, ticks).elapsed < t.interval
    ensures 0.0 <= t.elapsed && NoStepBack(ticks) ==> 0.0 <= Run(t, ticks).elapsed
    decreases |ticks|
  {
    if ticks != [] {
      PeriodicOnTime(Update(t, ticks[0].delta, ticks[0].now).0, ticks[1..]);
    }
  }

  lemma TimesLess(a: real, b: real, d: real)
    requires 0.0 < d && a * d < b * d
    ensures a < b
  {
  }

  lemma TimesAtMost(a: real, b: real, d: real)
    requires 0.0 < d && a * d <= b * d
    ensures a <= b
  {
  }

  lemma Quotient(total: real, d: real)
    requires 0.0 < d
    ensures total / d * d == total
  {
  }

  /** A number `q` of intervals `d` is `n` whole ones and a rest. */
  lemma WholePart(n: nat, rest: real, d: real, q: real)
    requires 0.0 <= rest < d && q * d == n as real * d + rest
    ensures q.Floor == n
  {
    RealStep(n, d);
    TimesLess(q, (n + 1) as real, d);
    TimesAtMost(n as real, q, d);
  }

  lemma WholeQuotient(n: nat, total: real, paid: real, rest: real, d: real)
    requires 0.0 <= rest < d && total == paid + rest && paid == n as real * d
    ensures (total / d).Floor == n
  {
    Quotient(total, d);
    WholePart(n, rest, d, total / d);
  }

  /** The number of fires is then the number of whole intervals that passed. */
  lemma {:induction false} PeriodicCounts(t: Timer, ticks: seq<Tick>)
    requires !t.aligned && 0.0 <= t.elapsed < t.interval && NoStepOver(ticks, t.interval) && NoStepBack(ticks)
    ensures Fires(t, ticks) == ((t.elapsed + Elapsed(ticks)) / t.interval).Floor
  {
    PeriodicAccounts(t, ticks);
    PaidIsFires(t, ticks);
    PeriodicOnTime(t, ticks);
    WholeQuotient(Fires(t, ticks), t.elapsed + Elapsed(ticks), Paid(t, ticks), Run(t, ticks).elapsed, t.interval);
  }

  /** A new periodic timer counts from zero. */
  lemma {:induction false} NewTimerCounts(interval: real, id: int, now: nat, ticks: seq<Tick>)
    requires 0.0 < interval && NoStepOver(ticks, interval) && NoStepBack(ticks)
    ensures Fires(Make(interval, id, false, now), ticks) == (Elapsed(ticks) / interval).Floor
  {
    PeriodicCounts(Make(interval, id, false, now), ticks);
    assert 0.0 + Elapsed(ticks) == Elapsed(ticks);
  }

  // ------------------------------------------------------------ the manager

  datatype Manager = Manager(timers: seq<Timer>, last: real, nextId: int)

  /** One call of UpdateTimers: the moment by the caller's clock, and what the wall clock shows when it
      comes to each timer. */
  datatype Call = Call(time: real, clock: nat -> int)

  function Updated(ts: seq<Timer>, delta: real, clock: nat -> int): (r: seq<Timer>)
    ensures |r| == |ts| && forall i :: 0 <= i < |ts| ==> r[i] == Update(ts[i], delta, clock(i)).0
  {
    seq(|ts|, i requires 0 <= i < |ts| => Update(ts[i], delta, clock(i)).0)
  }

  /** The ids of the timers that fire, from number `k` on. */
  function FiredIds(ts: seq<Timer>, delta: real, clock: nat -> int, k: nat := 0): seq<int>
    decreases |ts| - k
  {
    if |ts| <= k then []
    else (if Update(ts[k], delta, clock(k)).1 then [ts[k].id] else []) + FiredIds(ts, delta, clock, k + 1)
  }

  /** Every timer that fires is listed. */
  lemma {:induction false} FiringListed(ts: seq<Timer>, delta: real, clock: nat -> int, i: nat, k: nat := 0)
    requires k <= i < |ts| && Update(ts[i], delta, clock(i)).1
    ensures ts[i].id in FiredIds(ts, delta, clock, k)
    decreases |ts| - k
  {
    if k < i {
      FiringListed(ts, delta, clock, i, k + 1);
    }
  }

  /** And every id listed is that of a timer that fires. */
  lemma {:induction false} ListedFires(ts: seq<Timer>, delta: real, clock: nat -> int, id: int, k: nat := 0) returns (i: nat)
    requires id in FiredIds(ts, delta, clock, k)
    ensures k <= i < |ts| && Update(ts[i], delta, clock(i)).1 && ts[i].id == id
    decreases |ts| - k
  {
    i := k;
    if !Update(ts[k], delta, clock(k)).1 || ts[k].id != id {
      i := ListedFires(ts, delta, clock, id, k + 1);
    }
  }

  lemma FiredNext(fired: seq<int>, ts: seq<Timer>, delta: real, clock: nat -> int, k: nat)
    requires k < |ts|
    ensures var (t, f) := Update(ts[k], delta, clock(k));
            fired + FiredIds(ts, delta, clock, k) == (if f then fired + [t.id] else fired) + FiredIds(ts, delta, clock, k + 1)
  {
  }

  function UpdateAll(m: Manager, c: Call): Manager {
    Manager(Updated(m.timers, c.time - m.last, c.clock), c.time, m.nextId)
  }

  function UpdateRun(m: Manager, calls: seq<Call>): Manager
    decreases |calls|
  {
    if calls == [] then m else UpdateRun(UpdateAll(m, calls[0]), calls[1..])
  }

  /** The ticks that the calls amount to for timer `i`, starting after time `last`. */
  function Ticks(last: real, calls: seq<Call>, i: nat): seq<Tick>
    decreases |calls|
  {
    if calls == [] then [] else [Tick(calls[0].time - last, calls[0].clock(i))] + Ticks(calls[0].time, calls[1..], i)
  }

  /** Every timer of a manager runs as if it were alone. */
  lemma {:induction false} ManagerRunsEach(m: Manager, calls: seq<Call>, i: nat)
    requires i < |m.timers|
    ensures |UpdateRun(m, calls).timers| == |m.timers|
    ensures UpdateRun(m, calls).timers[i] == Run(m.timers[i], Ticks(m.last, calls, i))
    decreases |calls|
  {
    if calls != [] {
      var m' := UpdateAll(m, calls[0]);
      assert m'.timers[i] == Update(m.timers[i], calls[0].time - m.last, calls[0].clock(i)).0;
      ManagerRunsEach(m', calls[1..], i);
      assert Ticks(m.last, calls, i)[1..] == Ticks(m'.last, calls[1..], i);
    }
  }

  lemma {:induction false} TicksTelescope(m: Manager, calls: seq<Call>, i: nat)
    ensures Elapsed(Ticks(m.last, calls, i)) == UpdateRun(m, calls).last - m.last
    decreases |calls|
  {
    if calls != [] {
      TicksTelescope(UpdateAll(m, calls[0]), calls[1..], i);
      assert Ticks(m.last, calls, i)[1..] == Ticks(calls[0].time, calls[1..], i);
    }
  }

  /** A periodic timer of the manager: the time between first and last call is what its fires
      account for plus the change of its remainder, whatever the calls in between were. */
  lemma ManagerKeepsTime(m: Manager, calls: seq<Call>, i: nat)
    requires i < |m.timers| && !m.timers[i].aligned
    ensures |UpdateRun(m, calls).timers| == |m.timers|
    ensures var t := m.timers[i]; var m' := UpdateRun(m, calls);
            m'.last - m.last == Paid(t, Ticks(m.last, calls, i)) + (m'.timers[i].elapsed - t.elapsed)
  {
    ManagerRunsEach(m, calls, i);
    TicksTelescope(m, calls, i);
    PeriodicAccounts(m.timers[i], Ticks(m.last, calls, i));
  }

  function WithoutId(ts: seq<Timer>, id: int): (r: seq<Timer>)
    ensures forall t :: t in r <==> t in ts && t.id != id
  {
    if ts == [] then [] else (if ts[0].id == id then [] else [ts[0]]) + WithoutId(ts[1..], id)
  }

  /** The timers that stay keep their order. */
  lemma {:induction false} WithoutInOrder(a: seq<Timer>, b: seq<Timer>, id: int)
    ensures WithoutId(a + b, id) == WithoutId(a, id) + WithoutId(b, id)
    decreases |a|
  {
    if a == [] {
      assert a + b == b;
    } else {
      assert (a + b)[1..] == a[1..] + b;
      WithoutInOrder(a[1..], b, id);
    }
  }

  class WTimerManager {
    var timers: seq<Timer>
    var lastUpdateTime: real
    var timerIdCounter: int

    function Now(): Manager
      reads this
    {
      Manager(timers, lastUpdateTime, timerIdCounter)
    }

    constructor ()
      ensures Now() == Manager([], 0.0, 0)
    {
      timers, lastUpdateTime, timerIdCounter := [], 0.0, 0;
    }

    method AddTimer(interval: real, aligned: bool, now: nat) returns (id: int)
      requires aligned ==> 1.0 <= interval
      modifies this`timers, this`timerIdCounter
      ensures id == old(timerIdCounter) && timerIdCounter == id + 1
      ensures timers == old(timers) + [Make(interval, id, aligned, now)] && timers[|old(timers)|].id == id
    {
      id := timerIdCounter;
      timerIdCounter := timerIdCounter + 1;
      timers := timers + [Make(interval, id, aligned, now)];
    }

    method RemoveTimer(id: int)
      modifies this`timers
      ensures timers == WithoutId(old(timers), id)
    {
      timers := WithoutId(timers, id);
    }

    method Start(time: real)
      modifies this`lastUpdateTime
      ensures lastUpdateTime == time
    {
      lastUpdateTime := time;
    }

    /** UpdateTimers: every timer is updated once, in order, by the wall clock as it is then; the ids of
        those that fire are returned. */
    method UpdateTimers(time: real, clock: nat -> int) returns (fired: seq<int>)
      modifies this`timers, this`lastUpdateTime
      ensures Now() == UpdateAll(old(Now()), Call(time, clock))
      ensures fired == FiredIds(old(timers), time - old(lastUpdateTime), clock)
    {
      var delta := time - lastUpdateTime;
      lastUpdateTime := time;
      fired := [];
      ghost var ts := timers;
      var k := 0;
      while k < |timers|
        invariant 0 <= k <= |timers| == |ts| && lastUpdateTime == time
        invariant forall i :: 0 <= i < k ==> timers[i] == Update(ts[i], delta, clock(i)).0
        invariant forall i :: k <= i < |ts| ==> timers[i] == ts[i]
        invariant fired + FiredIds(ts, delta, clock, k) == FiredIds(ts, delta, clock)
      {
        FiredNext(fired, ts, delta, clock, k);
        var (t, f) := Update(timers[k], delta, clock(k));
        timers := timers[k := t];
        if f {
          fired := fired + [t.id];
        }
        k := k + 1;
      }
      assert timers == Updated(ts, delta, clock);
    }
  }
}
