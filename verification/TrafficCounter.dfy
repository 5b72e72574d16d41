/** TTrafficCounter of Source/Util/TrafficCounter.hpp: bytes are collected in a window and moved to
    the totals when it closes; three zero-speed windows after the last push make a counter inactive. */
module TrafficCounter {

  const WINDOW := 1000
  const REMOVAL_DELAY := 5000

  datatype State = Inactive | Active | PendingRemoval

  /** The shared traffic item. */
  datatype Item = Item(upSpeed: real, downSpeed: real, totalUp: nat, totalDown: nat)

  datatype Counter = Counter(recentUp: nat, recentDown: nat, windowStart: int, removalAt: int,
                             state: State, inactive: int, item: Item)

  datatype Op = PushUp(n: nat) | PushDown(n: nat) | Refresh(now: int) | Mark(now: int)

  function Fresh(item: Item, now: int): Counter { Counter(0, 0, now, 0, Inactive, 0, item) }

  /** The refresh closes the window. */
  predicate Closes(c: Counter, op: Op) {
    op.Refresh? && c.state != PendingRemoval && op.now - c.windowStart >= WINDOW
  }

  function Abs(x: real): real { if x < 0.0 then -x else x }

  /** A speed changes only if it differs noticeably. */
  predicate Differs(a: real, b: real) { Abs(a - b) > 0.01 }

  function Floor1(x: real): real { if x < 1.0 then 0.0 else x }

  function Closed(c: Counter, now: int): Counter {
    var down := Floor1(if Differs(c.recentDown as real, c.item.downSpeed) then c.recentDown as real else c.item.downSpeed);
    var up := Floor1(if Differs(c.recentUp as real, c.item.upSpeed) then c.recentUp as real else c.item.upSpeed);
    var changed := Differs(c.recentDown as real, c.item.downSpeed) || Differs(c.recentUp as real, c.item.upSpeed);
    var inactive := if down == 0.0 && up == 0.0 then (c.inactive + 1) % 256 else c.inactive;
    Counter(0, 0, now, c.removalAt,
            if inactive >= 3 then Inactive else if changed then Active else c.state,
            inactive,
            Item(up, down, c.item.totalUp + c.recentUp, c.item.totalDown + c.recentDown))
  }

  function Step(c: Counter, op: Op): Counter {
    match op
    case PushUp(n) => c.(recentUp := c.recentUp + n, state := Active, inactive := 0)
    case PushDown(n) => c.(recentDown := c.recentDown + n, state := Active, inactive := 0)
    case Refresh(now) =>
      if c.state == PendingRemoval then c.(item := c.item.(upSpeed := 0.0, downSpeed := 0.0))
      else if now - c.windowStart >= WINDOW then Closed(c, now)
      else c
    case Mark(now) =>
      if c.state == PendingRemoval then c
      else c.(state := PendingRemoval, item := c.item.(upSpeed := 0.0, downSpeed := 0.0), removalAt := now + REMOVAL_DELAY)
  }

  function Run(c: Counter, ops: seq<Op>): Counter
    decreases |ops|
  {
    if ops == [] then c else Run(Step(c, ops[0]), ops[1..])
  }

  // ------------------------------------------------------------ an observer of the run

  /** What an observer counts: all that was pushed, what was pushed since the last close, and how many
      windows closed with zero speed since the last push. */
  datatype Observer = Observer(pushedUp: nat, pushedDown: nat, sinceUp: nat, sinceDown: nat, zeroCloses: nat)

  const NOTHING := Observer(0, 0, 0, 0, 0)

  function Watch(o: Observer, c: Counter, op: Op): Observer {
    match op
    case PushUp(n) => o.(pushedUp := o.pushedUp + n, sinceUp := o.sinceUp + n, zeroCloses := 0)
    case PushDown(n) => o.(pushedDown := o.pushedDown + n, sinceDown := o.sinceDown + n, zeroCloses := 0)
    case Refresh(_) =>
      if !Closes(c, op) then o
      else o.(sinceUp := 0, sinceDown := 0,
              zeroCloses := if o.sinceUp == 0 && o.sinceDown == 0 then o.zeroCloses + 1 else o.zeroCloses)
    case Mark(_) => o
  }

  function WatchAll(o: Observer, c: Counter, ops: seq<Op>): Observer
    decreases |ops|
  {
    if ops == [] then o else WatchAll(Watch(o, c, ops[0]), Step(c, ops[0]), ops[1..])
  }

  /** A speed is a whole number of bytes. */
  predicate Whole(x: real) { x == x.Floor as real && 0.0 <= x }

  /** The counter and the observer agree; `item0` is the item as it was at the start. */
  ghost predicate Agree(c: Counter, o: Observer, item0: Item) {
    && c.item.totalUp + c.recentUp == item0.totalUp + o.pushedUp
    && c.item.totalDown + c.recentDown == item0.totalDown + o.pushedDown
    && c.recentUp == o.sinceUp && c.recentDown == o.sinceDown
    && c.inactive == o.zeroCloses % 256
    && Whole(c.item.upSpeed) && Whole(c.item.downSpeed)
    && (o.sinceUp > 0 || o.sinceDown > 0 || c.item.upSpeed > 0.0 || c.item.downSpeed > 0.0 ==> o.zeroCloses == 0)
    && (c.state == Inactive ==> o.sinceUp == 0 && o.sinceDown == 0)
    && (c.state == Active ==> o.zeroCloses < 3)
  }

  lemma FreshAgrees(item: Item, now: int)
    requires Whole(item.upSpeed) && Whole(item.downSpeed)
    ensures Agree(Fresh(item, now), NOTHING, item)
  {
  }

  /** Between whole numbers the tolerance of the comparison does not matter. */
  lemma WholeDiffers(n: nat, x: real)
    requires Whole(x)
    ensures Differs(n as real, x) <==> n as real != x
    ensures Floor1(if Differs(n as real, x) then n as real else x) == n as real
  {
    var k := x.Floor;
    if k != n {
      assert (n - k) as real == n as real - k as real;
    }
  }

  lemma ClosedShows(c: Counter, now: int)
    requires Whole(c.item.upSpeed) && Whole(c.item.downSpeed)
    ensures Closed(c, now).item.upSpeed == c.recentUp as real
    ensures Closed(c, now).item.downSpeed == c.recentDown as real
  {
    WholeDiffers(c.recentUp, c.item.upSpeed);
    WholeDiffers(c.recentDown, c.item.downSpeed);
  }

  lemma CloseAgrees(c: Counter, o: Observer, now: int, item0: Item)
    requires Agree(c, o, item0) && Closes(c, Refresh(now))
    ensures Agree(Closed(c, now), Watch(o, c, Refresh(now)), item0)
  {
    WholeDiffers(c.recentUp, c.item.upSpeed);
    WholeDiffers(c.recentDown, c.item.downSpeed);
    ClosedShows(c, now);
  }

  lemma StepAgrees(c: Counter, o: Observer, op: Op, item0: Item)
    requires Agree(c, o, item0)
    ensures Agree(Step(c, op), Watch(o, c, op), item0)
  {
    if Closes(c, op) {
      CloseAgrees(c, o, op.now, item0);
    }
  }

  lemma {:induction false} RunAgrees(c: Counter, o: Observer, ops: seq<Op>, item0: Item)
    requires Agree(c, o, item0)
    ensures Agree(Run(c, ops), WatchAll(o, c, ops), item0)
    decreases |ops|
  {
    if ops != [] {
      StepAgrees(c, o, ops[0], item0);
      RunAgrees(Step(c, ops[0]), Watch(o, c, ops[0]), ops[1..], item0);
    }
  }

  // ------------------------------------------------------------ what follows for every run

  function SumUp(ops: seq<Op>): nat { if ops == [] then 0 else (if ops[0].PushUp? then ops[0].n else 0) + SumUp(ops[1..]) }

  function SumDown(ops: seq<Op>): nat { if ops == [] then 0 else (if ops[0].PushDown? then ops[0].n else 0) + SumDown(ops[1..]) }

  /** No byte is lost or counted twice, under any clock. */
  lemma {:induction false} BytesConserved(c: Counter, ops: seq<Op>)
    ensures var c' := Run(c, ops);
            && c'.item.totalUp + c'.recentUp == c.item.totalUp + c.recentUp + SumUp(ops)
            && c'.item.totalDown + c'.recentDown == c.item.totalDown + c.recentDown + SumDown(ops)
    decreases |ops|
  {
    if ops != [] {
      BytesConserved(Step(c, ops[0]), ops[1..]);
    }
  }

  /** A closed window shows exactly the bytes pushed since the previous close. */
  lemma SpeedIsLastWindow(item: Item, start: int, ops: seq<Op>, now: int)
    requires Whole(item.upSpeed) && Whole(item.downSpeed)
    requires Closes(Run(Fresh(item, start), ops), Refresh(now))
    ensures var c := Run(Fresh(item, start), ops); var o := WatchAll(NOTHING, Fresh(item, start), ops);
            && Step(c, Refresh(now)).item.upSpeed == o.sinceUp as real
            && Step(c, Refresh(now)).item.downSpeed == o.sinceDown as real
  {
    FreshAgrees(item, start);
    RunAgrees(Fresh(item, start), NOTHING, ops, item);
    ClosedShows(Run(Fresh(item, start), ops), now);
  }

  /** The counter shows no traffic. */
  predicate Silent(c: Counter) { c.item.upSpeed == 0.0 && c.item.downSpeed == 0.0 }

  /** A counter turns inactive only when a window closes, and exactly at the third close with zero
      speed since the last push; so never at the close that brings the speed down to zero. */
  lemma TurnsInactiveAtThird(item: Item, start: int, ops: seq<Op>, op: Op)
    requires Whole(item.upSpeed) && Whole(item.downSpeed)
    requires var c := Run(Fresh(item, start), ops); c.state != Inactive && Step(c, op).state == Inactive
    ensures var c := Run(Fresh(item, start), ops); var o := WatchAll(NOTHING, Fresh(item, start), ops);
            && Closes(c, op) && Watch(o, c, op).zeroCloses == 3
            && Silent(c) && Silent(Step(c, op))
  {
    FreshAgrees(item, start);
    RunAgrees(Fresh(item, start), NOTHING, ops, item);
    var c, o := Run(Fresh(item, start), ops), WatchAll(NOTHING, Fresh(item, start), ops);
    ClosedShows(c, op.now);
  }

  /** At its third zero-speed close a counter that is still active does turn inactive. */
  lemma ThirdZeroCloseTurns(item: Item, start: int, ops: seq<Op>, now: int)
    requires Whole(item.upSpeed) && Whole(item.downSpeed)
    requires var c := Run(Fresh(item, start), ops); Closes(c, Refresh(now))
    requires Watch(WatchAll(NOTHING, Fresh(item, start), ops), Run(Fresh(item, start), ops), Refresh(now)).zeroCloses == 3
    ensures Step(Run(Fresh(item, start), ops), Refresh(now)).state == Inactive
  {
    FreshAgrees(item, start);
    RunAgrees(Fresh(item, start), NOTHING, ops, item);
    CloseAgrees(Run(Fresh(item, start), ops), WatchAll(NOTHING, Fresh(item, start), ops), now, item);
  }

  predicate OnlyRefreshes(ops: seq<Op>) { forall i :: 0 <= i < |ops| ==> ops[i].Refresh? }

  predicate NoPushes(ops: seq<Op>) { forall i :: 0 <= i < |ops| ==> !ops[i].PushUp? && !ops[i].PushDown? }

  /** The counter is inactive, and stays so with every operation of the run. */
  predicate StaysInactive(c: Counter, ops: seq<Op>)
    decreases |ops|
  {
    c.state == Inactive && (ops == [] || StaysInactive(Step(c, ops[0]), ops[1..]))
  }

  predicate NoneCloses(c: Counter, ops: seq<Op>) { forall i :: 0 <= i < |ops| ==> !Closes(c, ops[i]) }

  /** A refresh leaves an inactive counter inactive exactly if it closes no window, or the counter
      shows no traffic. */
  lemma RefreshKeepsInactive(c: Counter, o: Observer, now: int, item0: Item)
    requires Agree(c, o, item0) && c.state == Inactive
    ensures Step(c, Refresh(now)).state == Inactive <==> !Closes(c, Refresh(now)) || Silent(c)
    ensures Closes(c, Refresh(now)) ==> Silent(Step(c, Refresh(now)))
  {
    if Closes(c, Refresh(now)) {
      WholeDiffers(c.recentUp, c.item.upSpeed);
      WholeDiffers(c.recentDown, c.item.downSpeed);
      ClosedShows(c, now);
    }
  }

  /** So refreshing never wakes an inactive counter that shows no traffic, even when its 8-bit tick
      count, which the code lets wrap, passes 255 again and again; one that still shows traffic is
      woken by the first refresh that closes a window. */
  lemma {:induction false} InactiveStays(c: Counter, o: Observer, ops: seq<Op>, item0: Item)
    requires Agree(c, o, item0) && c.state == Inactive && OnlyRefreshes(ops)
    ensures StaysInactive(c, ops) <==> Silent(c) || NoneCloses(c, ops)
    ensures Run(c, ops).inactive == WatchAll(o, c, ops).zeroCloses % 256
    decreases |ops|
  {
    RunAgrees(c, o, ops, item0);
    if ops != [] {
      var c' := Step(c, ops[0]);
      RefreshKeepsInactive(c, o, ops[0].now, item0);
      StepAgrees(c, o, ops[0], item0);
      assert !Closes(c, ops[0]) ==> c' == c;
      if c'.state == Inactive {
        InactiveStays(c', Watch(o, c, ops[0]), ops[1..], item0);
      }
      assert NoneCloses(c, ops) <==> !Closes(c, ops[0]) && NoneCloses(c, ops[1..]) by {
        assert ops == [ops[0]] + ops[1..];
      }
    }
  }

  // ------------------------------------------------------------ the states, one by one

  /** A window closes when 1000 ms have passed, whatever happened in between, and then only. */
  lemma WindowsAreTimed(c: Counter, op: Op)
    ensures Step(c, op).windowStart ==
            if op.Refresh? && c.state != PendingRemoval && 1000 <= op.now - c.windowStart then op.now else c.windowStart
    ensures op.Refresh? && c.state != PendingRemoval && op.now - c.windowStart < 1000 ==> Step(c, op) == c
  {
  }

  /** Nothing but a mark makes a counter pending removal. */
  lemma OnlyMarksPend(c: Counter, op: Op)
    requires Step(c, op).state == PendingRemoval
    ensures c.state == PendingRemoval || op.Mark?
  {
  }

  predicate NoMarks(ops: seq<Op>) { forall i :: 0 <= i < |ops| ==> !ops[i].Mark? }

  /** So without marks nothing is ever due for removal. */
  lemma {:induction false} NeverDue(c: Counter, ops: seq<Op>, now: int)
    requires c.state != PendingRemoval && NoMarks(ops)
    ensures !Due(Run(c, ops), now)
    decreases |ops|
  {
    if ops != [] {
      if Step(c, ops[0]).state == PendingRemoval {
        OnlyMarksPend(c, ops[0]);
      }
      NeverDue(Step(c, ops[0]), ops[1..], now);
    }
  }

  /** An active counter stays active at every refresh but the one that closes its third window with
      zero speed. */
  lemma ActiveStays(c: Counter, o: Observer, now: int, item0: Item)
    requires Agree(c, o, item0) && c.state == Active
    ensures var third := Closes(c, Refresh(now)) && Watch(o, c, Refresh(now)).zeroCloses == 3;
            Step(c, Refresh(now)).state == if third then Inactive else Active
  {
    StepAgrees(c, o, Refresh(now), item0);
  }

  /** An inactive counter that shows traffic becomes active at the next close. */
  lemma TrafficWakes(c: Counter, o: Observer, now: int, item0: Item)
    requires Agree(c, o, item0) && c.state == Inactive && Closes(c, Refresh(now)) && !Silent(c)
    ensures Step(c, Refresh(now)).state == Active
  {
    RefreshKeepsInactive(c, o, now, item0);
  }

  /** A counter that is marked shows no traffic, and neither does it while it waits. */
  lemma PendingIsSilent(c: Counter, op: Op)
    requires op.Mark? || op.Refresh?
    requires op.Mark? ==> c.state != PendingRemoval
    ensures Step(c, op).state == PendingRemoval ==> Silent(Step(c, op))
    ensures op.Mark? ==> Step(c, op).state == PendingRemoval
  {
  }

  /** DueForRemoval */
  predicate Due(c: Counter, now: int) { c.state == PendingRemoval && now >= c.removalAt }

  lemma {:induction false} PendingStays(c: Counter, ops: seq<Op>)
    requires c.state == PendingRemoval && NoPushes(ops)
    ensures Run(c, ops).state == PendingRemoval && Run(c, ops).removalAt == c.removalAt
    decreases |ops|
  {
    if ops != [] {
      PendingStays(Step(c, ops[0]), ops[1..]);
    }
  }

  /** Without later pushes a removal mark is final, and due exactly 5000 ms after the first mark. */
  lemma RemovalIsDueOnTime(c: Counter, marked: int, ops: seq<Op>, now: int)
    requires c.state != PendingRemoval && NoPushes(ops)
    ensures Due(Run(Step(c, Mark(marked)), ops), now) <==> now >= marked + 5000
  {
    PendingStays(Step(c, Mark(marked)), ops);
  }

  /** A push revives a counter that was marked: nothing is due any more until it is marked again. */
  lemma PushRevives(c: Counter, push: Op, now: int)
    requires push.PushUp? || push.PushDown?
    ensures !Due(Step(c, push), now) && Step(c, push).state == Active
  {
  }

  // ------------------------------------------------------------ the class

  class TTrafficCounter {
    var recentUpload: nat
    var recentDownload: nat
    var timeWindowStart: int
    var removalTimeStamp: int
    var state: State
    var inactiveCounter: int
    var item: Item

    constructor (item: Item, now: int)
      ensures Now() == Fresh(item, now)
      ensures state == Inactive && timeWindowStart == now && recentUpload == recentDownload == inactiveCounter == 0 && this.item == item
    {
      this.item, timeWindowStart := item, now;
      recentUpload, recentDownload, removalTimeStamp, state, inactiveCounter := 0, 0, 0, Inactive, 0;
    }

    function Now(): Counter
      reads this
    {
      Counter(recentUpload, recentDownload, timeWindowStart, removalTimeStamp, state, inactiveCounter, item)
    }

    method PushOutgoingTraffic(bytes: nat)
      modifies this
      ensures Now() == Step(old(Now()), PushUp(bytes))
    {
      recentUpload := recentUpload + bytes;
      state := Active;
      inactiveCounter := 0;
    }

    method PushIncomingTraffic(bytes: nat)
      modifies this
      ensures Now() == Step(old(Now()), PushDown(bytes))
    {
      recentDownload := recentDownload + bytes;
      state := Active;
      inactiveCounter := 0;
    }

    method RefreshAt(now: int)
      modifies this
      ensures Now() == Step(old(Now()), Refresh(now))
    {
      if state == PendingRemoval {
        item := item.(downSpeed := 0.0, upSpeed := 0.0);
        return;
      }
      if now - timeWindowStart >= WINDOW {
        CloseWindow(now);
      }
    }

    /** The part of Refresh that closes a window. */
    method CloseWindow(now: int)
      modifies this
      ensures Now() == Closed(old(Now()), now)
    {
      var newDown, newUp := recentDownload as real, recentUpload as real;
      var down, up := item.downSpeed, item.upSpeed;
      if Abs(newDown - down) > 0.01 {
        down := newDown;
        state := Active;
      }
      if Abs(newUp - up) > 0.01 {
        up := newUp;
        state := Active;
      }
      if down < 1.0 {
        down := 0.0;
      }
      if up < 1.0 {
        up := 0.0;
      }
      if down == 0.0 && up == 0.0 {
        inactiveCounter := (inactiveCounter + 1) % 256;
      }
      if inactiveCounter >= 3 {
        state := Inactive;
      }
      item := Item(up, down, item.totalUp + recentUpload, item.totalDown + recentDownload);
      recentDownload, recentUpload, timeWindowStart := 0, 0, now;
    }

    method MarkForRemoval(now: int)
      modifies this
      ensures Now() == Step(old(Now()), Mark(now))
    {
      if state == PendingRemoval {
        return;
      }
      state := PendingRemoval;
      item := item.(upSpeed := 0.0, downSpeed := 0.0);
      removalTimeStamp := now + REMOVAL_DELAY;
    }

    method DueForRemoval(now: int) returns (due: bool)
      ensures due == Due(Now(), now)
    {
      due := state == PendingRemoval && now >= removalTimeStamp;
    }
  }
}
