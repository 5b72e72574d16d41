/** The UDP hooks of Source/EBPF/EBPFUdp.h: entry, exit and return probes of one call meet through
    two maps keyed by the calling task.  A system of many tasks, each running one call at a time,
    shows which implicit-bind events are reported, and that each pairs a socket with its own cookie.
    The exit hook of a call is taken to run before its return probe. */
module UdpPairing {
  import opened Wrappers
  import opened BpfMaps
  import PortOwnership

  /** pid_tgid of the kernel */
  type Task = t: int | 0 <= t < 0x1_0000_0000_0000_0000
  type Sock = int
  type Cookie = int
  type Port = PortOwnership.Port
  type Pid = PortOwnership.Pid

  const CAPACITY := 16384

  function PidOf(t: Task): Pid { t / 0x1_0000_0000 }

  /** pid_tgid holds the process in its upper half and the thread in its lower one. */
  lemma PidIsUpperHalf(pid: Pid, thread: int)
    requires 0 <= thread < 0x1_0000_0000
    ensures PidOf(pid * 0x1_0000_0000 + thread) == pid
  {
  }

  /** What EmitIfBound reads: the local port, whether the family is an IP one, whether the ring has room. */
  datatype Seen = Seen(port: Port, inet: bool, ring: bool)

  predicate Bound(seen: Seen) { seen.port != 0 && seen.inet && seen.ring }

  /** NE_SocketBind with bImplicitBind: the socket whose port it names, and the cookie it carries. */
  datatype BindEvent = BindEvent(task: Task, port: Port, sock: Sock, cookie: Cookie)

  datatype Maps = Maps(skOf: map<Task, Sock>, cookieOf: map<Task, Cookie>, ports: map<Port, Pid>, events: seq<BindEvent>)

  // ------------------------------------------------------------ the hooks as functions

  /** The event of a call on a bound socket with a cookie, none otherwise. */
  function Sighted(t: Task, sk: Sock, cookie: Cookie, seen: Seen): seq<BindEvent> {
    if sk != 0 && Bound(seen) && cookie != 0 then [BindEvent(t, seen.port, sk, cookie)] else []
  }

  /** EmitIfBound: a bound socket claims its port, whether or not there can be an event. */
  function Emit(m: Maps, t: Task, sk: Sock, cookie: Cookie, seen: Seen): Maps {
    if sk == 0 || seen.port == 0 then m
    else m.(ports := Update(m.ports, PortOwnership.PORT_CAPACITY, seen.port, PidOf(t)),
            events := m.events + Sighted(t, sk, cookie, seen))
  }

  /** kprobe/udp_sendmsg and kprobe/udpv6_sendmsg */
  function Entered(m: Maps, t: Task, sk: Sock): Maps { m.(skOf := Update(m.skOf, CAPACITY, t, sk)) }

  /** fexit/udp_sendmsg; `cookie` is that of the socket */
  function Exited(m: Maps, t: Task, sk: Sock, cookie: Cookie): Maps {
    if sk == 0 then m else m.(cookieOf := Update(m.cookieOf, CAPACITY, t, cookie))
  }

  /** kretprobe/udp_sendmsg */
  function Returned4(m: Maps, t: Task, seen: Seen): Maps {
    if t !in m.skOf then m
    else
      var e := if t in m.cookieOf then Emit(m, t, m.skOf[t], m.cookieOf[t], seen) else m;
      e.(skOf := m.skOf - {t}, cookieOf := m.cookieOf - {t})
  }

  /** kretprobe/udpv6_sendmsg: unlike the IPv4 one it drops the cookie in any case. */
  function Returned6(m: Maps, t: Task, seen: Seen): Maps {
    var e := if t in m.skOf && t in m.cookieOf then Emit(m, t, m.skOf[t], m.cookieOf[t], seen) else m;
    e.(skOf := m.skOf - {t}, cookieOf := m.cookieOf - {t})
  }

  /** fexit/udp_recvmsg and fexit/udpv6_recvmsg */
  function Received(m: Maps, t: Task, sk: Sock, cookie: Cookie, seen: Seen): Maps {
    if sk == 0 then m
    else Emit(m, t, sk, cookie, seen).(cookieOf := Update(m.cookieOf, CAPACITY, t, cookie) - {t})
  }

  // ------------------------------------------------------------ tasks and their calls

  /** Where a task is: an IPv6 send may call the IPv4 send for the same socket. */
  datatype Phase = Idle
                 | In4(sk: Sock, nested: bool)      // entered udp_sendmsg
                 | Out4(sk: Sock, nested: bool)     // left it, return probe pending
                 | In6(sk: Sock)                    // entered udpv6_sendmsg
                 | Back6(sk: Sock)                  // nested call returned

  datatype System = System(maps: Maps, phases: map<Task, Phase>)

  datatype Event = Enter4(sk: Sock) | Exit4 | Return4(seen: Seen)
                 | Enter6(sk: Sock) | Nest | Return6(seen: Seen)
                 | Receive(sk: Sock, seen: Seen)

  function PhaseIn(phases: map<Task, Phase>, t: Task): Phase { if t in phases then phases[t] else Idle }

  function PhaseOf(s: System, t: Task): Phase { PhaseIn(s.phases, t) }

  /** The event may happen in this phase: calls are well nested. */
  predicate Nested(p: Phase, e: Event) {
    match e
    case Enter4(_) => p.Idle?
    case Exit4 => p.In4?
    case Return4(_) => p.Out4?
    case Enter6(_) => p.Idle?
    case Nest => p.In6?
    case Return6(_) => p.In6? || p.Back6?
    case Receive(_, _) => p.Idle?
  }

  predicate Allowed(s: System, t: Task, e: Event) { Nested(PhaseOf(s, t), e) }

  function NextPhase(p: Phase, e: Event): Phase
    requires Nested(p, e)
  {
    match e
    case Enter4(sk) => In4(sk, false)
    case Exit4 => Out4(p.sk, p.nested)
    case Return4(_) => if p.nested then Back6(p.sk) else Idle
    case Enter6(sk) => In6(sk)
    case Nest => In4(p.sk, true)
    case Return6(_) => Idle
    case Receive(_, _) => Idle
  }

  /** The hook that the event triggers. */
  function Hooked(m: Maps, t: Task, p: Phase, e: Event, cookies: Sock -> Cookie): Maps
    requires Nested(p, e)
  {
    match e
    case Enter4(sk) => Entered(m, t, sk)
    case Exit4 => Exited(m, t, p.sk, cookies(p.sk))
    case Return4(seen) => Returned4(m, t, seen)
    case Enter6(sk) => Entered(m, t, sk)
    case Nest => Entered(m, t, p.sk)
    case Return6(seen) => Returned6(m, t, seen)
    case Receive(sk, seen) => Received(m, t, sk, cookies(sk), seen)
  }

  function Happen(s: System, t: Task, e: Event, cookies: Sock -> Cookie): System
    requires Allowed(s, t, e)
  {
    System(Hooked(s.maps, t, PhaseOf(s, t), e, cookies), s.phases[t := NextPhase(PhaseOf(s, t), e)])
  }

  // ------------------------------------------------------------ what every interleaving keeps

  /** The maps hold, for one task, what its phase says and nothing else. */
  predicate Agrees(m: Maps, t: Task, p: Phase, cookies: Sock -> Cookie) {
    match p
    case Idle => t !in m.skOf && t !in m.cookieOf
    case In4(sk, _) => t in m.skOf && m.skOf[t] == sk && t !in m.cookieOf
    case Out4(sk, _) =>
      && t in m.skOf && m.skOf[t] == sk
      && (t in m.cookieOf <==> sk != 0) && (t in m.cookieOf ==> m.cookieOf[t] == cookies(sk))
    case In6(sk) => t in m.skOf && m.skOf[t] == sk && t !in m.cookieOf
    case Back6(_) => t !in m.skOf && t !in m.cookieOf
  }

  predicate Paired(events: seq<BindEvent>, cookies: Sock -> Cookie) {
    forall i :: 0 <= i < |events| ==> events[i].cookie == cookies(events[i].sock)
  }

  ghost predicate Inv(s: System, tasks: set<Task>, cookies: Sock -> Cookie) {
    && (forall t :: Agrees(s.maps, t, PhaseOf(s, t), cookies))
    && s.phases.Keys <= tasks
  }

  lemma KeysAmongTasks(s: System, tasks: set<Task>, cookies: Sock -> Cookie)
    requires Inv(s, tasks, cookies)
    ensures s.maps.skOf.Keys <= tasks && s.maps.cookieOf.Keys <= tasks
  {
    forall t: Task | t !in tasks
      ensures t !in s.maps.skOf && t !in s.maps.cookieOf
    {
      assert Agrees(s.maps, t, PhaseOf(s, t), cookies);
    }
  }

  /** A step of one task keeps the maps right for that task, and leaves those of others alone. */
  lemma StepAgrees(s: System, t: Task, e: Event, tasks: set<Task>, cookies: Sock -> Cookie, u: Task)
    requires Inv(s, tasks, cookies) && Allowed(s, t, e) && t in tasks && |tasks| <= CAPACITY
    ensures var s' := Happen(s, t, e, cookies); Agrees(s'.maps, u, PhaseOf(s', u), cookies)
  {
    KeysAmongTasks(s, tasks, cookies);
    assert Agrees(s.maps, t, PhaseOf(s, t), cookies) && Agrees(s.maps, u, PhaseOf(s, u), cookies);
    var p := PhaseOf(s, t);
    match e {
      case Enter4(sk) => UpdateSucceeds(s.maps.skOf, CAPACITY, t, sk, tasks);
      case Exit4 => UpdateSucceeds(s.maps.cookieOf, CAPACITY, t, cookies(p.sk), tasks);
      case Return4(_) =>
      case Enter6(sk) => UpdateSucceeds(s.maps.skOf, CAPACITY, t, sk, tasks);
      case Nest => UpdateSucceeds(s.maps.skOf, CAPACITY, t, p.sk, tasks);
      case Return6(_) =>
      case Receive(sk, _) => UpdateSucceeds(s.maps.cookieOf, CAPACITY, t, cookies(sk), tasks);
    }
  }

  lemma StepKeepsInv(s: System, t: Task, e: Event, tasks: set<Task>, cookies: Sock -> Cookie)
    requires Inv(s, tasks, cookies) && Allowed(s, t, e) && t in tasks && |tasks| <= CAPACITY
    ensures Inv(Happen(s, t, e, cookies), tasks, cookies)
  {
    var s' := Happen(s, t, e, cookies);
    forall u
      ensures Agrees(s'.maps, u, PhaseOf(s', u), cookies)
    {
      StepAgrees(s, t, e, tasks, cookies, u);
    }
  }

  /** A run: which task does what next. */
  predicate Runs(s: System, steps: seq<(Task, Event)>, tasks: set<Task>, cookies: Sock -> Cookie)
    decreases |steps|
  {
    steps == [] ||
    (steps[0].0 in tasks && Allowed(s, steps[0].0, steps[0].1) &&
     Runs(Happen(s, steps[0].0, steps[0].1, cookies), steps[1..], tasks, cookies))
  }

  function After(s: System, steps: seq<(Task, Event)>, tasks: set<Task>, cookies: Sock -> Cookie): System
    requires Runs(s, steps, tasks, cookies)
    decreases |steps|
  {
    if steps == [] then s else After(Happen(s, steps[0].0, steps[0].1, cookies), steps[1..], tasks, cookies)
  }

  lemma {:induction false} RunKeepsInv(s: System, steps: seq<(Task, Event)>, tasks: set<Task>, cookies: Sock -> Cookie)
    requires Inv(s, tasks, cookies) && Runs(s, steps, tasks, cookies) && |tasks| <= CAPACITY
    ensures Inv(After(s, steps, tasks, cookies), tasks, cookies)
    decreases |steps|
  {
    if steps != [] {
      StepKeepsInv(s, steps[0].0, steps[0].1, tasks, cookies);
      RunKeepsInv(Happen(s, steps[0].0, steps[0].1, cookies), steps[1..], tasks, cookies);
    }
  }

  const START := System(Maps(map[], map[], map[], []), map[])

  // ------------------------------------------------------------ what is reported

  /** What a step ought to report, by the phase of its task alone: an IPv4 send on return, a receive
      at once, an IPv6 send nothing of its own. */
  function Report(t: Task, p: Phase, e: Event, cookies: Sock -> Cookie): seq<BindEvent> {
    match e
    case Return4(seen) => if p.Out4? then Sighted(t, p.sk, cookies(p.sk), seen) else []
    case Receive(sk, seen) => Sighted(t, sk, cookies(sk), seen)
    case _ => []
  }

  /** What a run ought to report; the maps play no part. */
  function Expected(phases: map<Task, Phase>, steps: seq<(Task, Event)>, cookies: Sock -> Cookie): seq<BindEvent>
    decreases |steps|
  {
    if steps == [] then []
    else
      var (t, e) := steps[0];
      var p := PhaseIn(phases, t);
      if !Nested(p, e) then []
      else Report(t, p, e, cookies) + Expected(phases[t := NextPhase(p, e)], steps[1..], cookies)
  }

  /** Each step reports what it ought to, and nothing else. */
  lemma StepReports(s: System, t: Task, e: Event, tasks: set<Task>, cookies: Sock -> Cookie)
    requires Inv(s, tasks, cookies) && Allowed(s, t, e)
    ensures Happen(s, t, e, cookies).maps.events == s.maps.events + Report(t, PhaseOf(s, t), e, cookies)
  {
    assert Agrees(s.maps, t, PhaseOf(s, t), cookies);
  }

  lemma Regroup(a: seq<BindEvent>, b: seq<BindEvent>, c: seq<BindEvent>)
    ensures (a + b) + c == a + (b + c)
  {
  }

  lemma {:induction false} RunReports(s: System, steps: seq<(Task, Event)>, tasks: set<Task>, cookies: Sock -> Cookie)
    requires Inv(s, tasks, cookies) && Runs(s, steps, tasks, cookies) && |tasks| <= CAPACITY
    ensures After(s, steps, tasks, cookies).maps.events == s.maps.events + Expected(s.phases, steps, cookies)
    decreases |steps|
  {
    if steps != [] {
      var (t, e) := steps[0];
      var s' := Happen(s, t, e, cookies);
      StepKeepsInv(s, t, e, tasks, cookies);
      RunReports(s', steps[1..], tasks, cookies);
      StepReports(s, t, e, tasks, cookies);
      Regroup(s.maps.events, Report(t, PhaseOf(s, t), e, cookies), Expected(s'.phases, steps[1..], cookies));
    }
  }

  lemma {:induction false} ExpectedPaired(phases: map<Task, Phase>, steps: seq<(Task, Event)>, cookies: Sock -> Cookie)
    ensures Paired(Expected(phases, steps, cookies), cookies)
    decreases |steps|
  {
    if steps != [] {
      var (t, e) := steps[0];
      var p := PhaseIn(phases, t);
      if Nested(p, e) {
        ExpectedPaired(phases[t := NextPhase(p, e)], steps[1..], cookies);
      }
    }
  }

  /** In every interleaving of well-nested calls exactly the expected events are reported, each with
      the cookie of the socket it describes, and a task outside a call has left nothing in either map. */
  lemma InterleavingsPair(steps: seq<(Task, Event)>, tasks: set<Task>, cookies: Sock -> Cookie)
    requires Runs(START, steps, tasks, cookies) && |tasks| <= CAPACITY
    ensures var s := After(START, steps, tasks, cookies);
            && s.maps.events == Expected(map[], steps, cookies)
            && Paired(s.maps.events, cookies)
            && forall t :: PhaseOf(s, t).Idle? ==> t !in s.maps.skOf && t !in s.maps.cookieOf
  {
    RunKeepsInv(START, steps, tasks, cookies);
    RunReports(START, steps, tasks, cookies);
    ExpectedPaired(map[], steps, cookies);
    var s := After(START, steps, tasks, cookies);
    forall t | PhaseOf(s, t).Idle?
      ensures t !in s.maps.skOf && t !in s.maps.cookieOf
    {
      assert Agrees(s.maps, t, PhaseOf(s, t), cookies);
    }
  }

  /** A send is reported on its return exactly if it is an IPv4 send (in its own right or within an
      IPv6 one) of a bound socket with a cookie. */
  lemma SendReportedExactly(s: System, t: Task, e: Event, tasks: set<Task>, cookies: Sock -> Cookie)
    requires Inv(s, tasks, cookies) && Allowed(s, t, e) && (e.Return4? || e.Return6?)
    ensures var p := PhaseOf(s, t); var events := Happen(s, t, e, cookies).maps.events;
            if e.Return4? && p.sk != 0 && Bound(e.seen) && cookies(p.sk) != 0
            then events == s.maps.events + [BindEvent(t, e.seen.port, p.sk, cookies(p.sk))]
            else events == s.maps.events
  {
    StepReports(s, t, e, tasks, cookies);
  }

  /** So a send that stays in IPv6 never reports an implicit bind: no hook records its cookie. */
  lemma PureIpv6SendIsSilent(s: System, t: Task, seen: Seen, tasks: set<Task>, cookies: Sock -> Cookie)
    requires Inv(s, tasks, cookies) && PhaseOf(s, t).In6?
    ensures Happen(s, t, Return6(seen), cookies).maps.events == s.maps.events
  {
    SendReportedExactly(s, t, Return6(seen), tasks, cookies);
  }

  // ------------------------------------------------------------ who owns a port

  /** The process that a step makes the owner of `port`: that of a task which returns from an IPv4 send
      or a receive on a socket bound to it. */
  function Claimed(t: Task, p: Phase, e: Event, port: Port): Option<Pid> {
    match e
    case Return4(seen) => if p.Out4? && p.sk != 0 && seen.port == port then Some(PidOf(t)) else None
    case Receive(sk, seen) => if sk != 0 && seen.port == port then Some(PidOf(t)) else None
    case _ => None
  }

  /** The owner of `port` after a run, by its steps alone: the last claim, or the owner before. */
  function LastClaim(phases: map<Task, Phase>, steps: seq<(Task, Event)>, port: Port, owner: Option<Pid>): Option<Pid>
    decreases |steps|
  {
    if steps == [] then owner
    else
      var (t, e) := steps[0];
      var p := PhaseIn(phases, t);
      if !Nested(p, e) then owner
      else
        var claim := Claimed(t, p, e, port);
        LastClaim(phases[t := NextPhase(p, e)], steps[1..], port, if claim.Some? then claim else owner)
  }

  lemma EmitClaims(m: Maps, t: Task, sk: Sock, cookie: Cookie, seen: Seen, port: Port)
    requires port != 0
    ensures PortOwnership.Held(Emit(m, t, sk, cookie, seen).ports, port) ==
            if sk != 0 && seen.port == port then Some(PidOf(t)) else PortOwnership.Held(m.ports, port)
  {
    PortOwnership.HeldAfter(m.ports, seen.port, PidOf(t), port);
  }

  lemma StepClaims(s: System, t: Task, e: Event, tasks: set<Task>, cookies: Sock -> Cookie, port: Port)
    requires Inv(s, tasks, cookies) && Allowed(s, t, e) && port != 0
    ensures var claim := Claimed(t, PhaseOf(s, t), e, port);
            PortOwnership.Held(Happen(s, t, e, cookies).maps.ports, port) ==
            if claim.Some? then claim else PortOwnership.Held(s.maps.ports, port)
  {
    assert Agrees(s.maps, t, PhaseOf(s, t), cookies);
    match e {
      case Return4(seen) => EmitClaims(s.maps, t, PhaseOf(s, t).sk, cookies(PhaseOf(s, t).sk), seen, port);
      case Receive(sk, seen) => EmitClaims(s.maps, t, sk, cookies(sk), seen, port);
      case _ =>
    }
  }

  /** In every interleaving a port belongs to the process that claimed it last. */
  lemma {:induction false} RunClaims(s: System, steps: seq<(Task, Event)>, tasks: set<Task>, cookies: Sock -> Cookie, port: Port)
    requires Inv(s, tasks, cookies) && Runs(s, steps, tasks, cookies) && |tasks| <= CAPACITY && port != 0
    ensures PortOwnership.Held(After(s, steps, tasks, cookies).maps.ports, port) ==
            LastClaim(s.phases, steps, port, PortOwnership.Held(s.maps.ports, port))
    decreases |steps|
  {
    if steps != [] {
      var (t, e) := steps[0];
      StepClaims(s, t, e, tasks, cookies, port);
      StepKeepsInv(s, t, e, tasks, cookies);
      RunClaims(Happen(s, t, e, cookies), steps[1..], tasks, cookies, port);
    }
  }

  // ------------------------------------------------------------ the bound on the tasks is exact

  lemma {:induction false} RunsAppend(s: System, a: seq<(Task, Event)>, b: seq<(Task, Event)>, tasks: set<Task>,
                                      cookies: Sock -> Cookie)
    requires Runs(s, a, tasks, cookies) && Runs(After(s, a, tasks, cookies), b, tasks, cookies)
    ensures Runs(s, a + b, tasks, cookies)
    ensures After(s, a + b, tasks, cookies) == After(After(s, a, tasks, cookies), b, tasks, cookies)
    decreases |a|
  {
    if a == [] {
      assert a + b == b;
    } else {
      assert (a + b)[1..] == a[1..] + b && (a + b)[0] == a[0];
      RunsAppend(Happen(s, a[0].0, a[0].1, cookies), a[1..], b, tasks, cookies);
    }
  }

  lemma {:induction false} SubsetOfSize<T>(all: set<T>, n: nat) returns (some: set<T>)
    requires n <= |all|
    ensures some <= all && |some| == n
    decreases n
  {
    if n == 0 {
      some := {};
    } else {
      var x :| x in all;
      var rest := SubsetOfSize(all - {x}, n - 1);
      some := rest + {x};
    }
  }

  /** The system in which exactly the tasks `busy` are inside an IPv4 send, of socket 1. */
  ghost predicate Busy(s: System, busy: set<Task>) {
    && s.maps == Maps(s.maps.skOf, map[], map[], []) && s.maps.skOf.Keys == busy
    && forall t :: PhaseOf(s, t) == if t in busy then In4(1, false) else Idle
  }

  lemma {:induction false} MakeBusy(busy: set<Task>, tasks: set<Task>, cookies: Sock -> Cookie) returns (steps: seq<(Task, Event)>)
    requires busy <= tasks && |busy| <= CAPACITY
    ensures Runs(START, steps, tasks, cookies) && Busy(After(START, steps, tasks, cookies), busy)
    decreases |busy|
  {
    if busy == {} {
      steps := [];
    } else {
      var t :| t in busy;
      var before := MakeBusy(busy - {t}, tasks, cookies);
      var s := After(START, before, tasks, cookies);
      var one := [(t, Enter4(1))];
      OneRuns(s, t, Enter4(1), tasks, cookies);
      RunsAppend(START, before, one, tasks, cookies);
      steps := before + one;
      assert |s.maps.skOf| == |s.maps.skOf.Keys| < CAPACITY;
    }
  }

  lemma OneRuns(s: System, t: Task, e: Event, tasks: set<Task>, cookies: Sock -> Cookie)
    requires t in tasks && Allowed(s, t, e)
    ensures Runs(s, [(t, e)], tasks, cookies) && After(s, [(t, e)], tasks, cookies) == Happen(s, t, e, cookies)
  {
    var one := [(t, e)];
    assert one[1..] == [];
  }

  /** Two more steps of a run. */
  lemma TwoRun(s: System, t: Task, e: Event, u: Task, f: Event, tasks: set<Task>, cookies: Sock -> Cookie) returns (s': System)
    requires t in tasks && u in tasks && Allowed(s, t, e) && Allowed(Happen(s, t, e, cookies), u, f)
    ensures s' == Happen(Happen(s, t, e, cookies), u, f, cookies)
    ensures Runs(s, [(t, e), (u, f)], tasks, cookies) && After(s, [(t, e), (u, f)], tasks, cookies) == s'
  {
    s' := Happen(Happen(s, t, e, cookies), u, f, cookies);
    OneRuns(s, t, e, tasks, cookies);
    OneRuns(Happen(s, t, e, cookies), u, f, tasks, cookies);
    assert [(t, e)] + [(u, f)] == [(t, e), (u, f)];
    RunsAppend(s, [(t, e)], [(u, f)], tasks, cookies);
  }

  const SEEN := Seen(1, true, true)

  /** With the socket map full, an IPv4 send of another task leaves its cookie behind. */
  lemma CookieStaysBehind(s: System, t: Task, busy: set<Task>, tasks: set<Task>, cookies: Sock -> Cookie)
    requires Busy(s, busy) && |busy| == CAPACITY && t in tasks && t !in busy
    ensures var steps := [(t, Enter4(1)), (t, Exit4), (t, Return4(SEEN))];
            && Runs(s, steps, tasks, cookies)
            && After(s, steps, tasks, cookies).maps == s.maps.(cookieOf := map[t := cookies(1)])
            && forall u :: PhaseOf(After(s, steps, tasks, cookies), u) == PhaseOf(s, u)
  {
    assert |s.maps.skOf| == |s.maps.skOf.Keys|;
    var s1 := Happen(s, t, Enter4(1), cookies);
    assert s1.maps == s.maps;
    var s2 := TwoRun(s, t, Enter4(1), t, Exit4, tasks, cookies);
    assert s2.maps == s.maps.(cookieOf := map[t := cookies(1)]);
    OneRuns(s2, t, Return4(SEEN), tasks, cookies);
    var steps := [(t, Enter4(1)), (t, Exit4)];
    assert steps + [(t, Return4(SEEN))] == [(t, Enter4(1)), (t, Exit4), (t, Return4(SEEN))];
    RunsAppend(s, steps, [(t, Return4(SEEN))], tasks, cookies);
  }

  /** Another task makes room, without an event. */
  lemma RoomIsMade(s: System, t: Task, u: Task, tasks: set<Task>, cookies: Sock -> Cookie) returns (s': System)
    requires |s.maps.skOf| == CAPACITY && u in s.maps.skOf && u in tasks && u != t
    requires s.maps.cookieOf == map[t := cookies(1)] && PhaseOf(s, u) == In4(1, false)
    ensures var steps := [(u, Exit4), (u, Return4(SEEN.(port := 0)))];
            Runs(s, steps, tasks, cookies) && s' == After(s, steps, tasks, cookies)
    ensures |s'.maps.skOf| < CAPACITY && s'.maps.skOf == s.maps.skOf - {u} && s'.maps.cookieOf == s.maps.cookieOf
    ensures s'.maps.events == s.maps.events && PhaseOf(s', t) == PhaseOf(s, t)
  {
    s' := TwoRun(s, u, Exit4, u, Return4(SEEN.(port := 0)), tasks, cookies);
    var s1 := Happen(s, u, Exit4, cookies);
    assert s1.maps.cookieOf == s.maps.cookieOf[u := cookies(1)];
    assert s'.maps.cookieOf == s.maps.cookieOf;
    assert s'.maps.skOf.Keys == s.maps.skOf.Keys - {u};
    assert |s'.maps.skOf| == |s'.maps.skOf.Keys| && |s.maps.skOf| == |s.maps.skOf.Keys|;
  }

  /** Then an IPv6 send of the first task meets the cookie that was left. */
  lemma CookieMeetsOther(s: System, t: Task, tasks: set<Task>, cookies: Sock -> Cookie)
    requires |s.maps.skOf| < CAPACITY && t !in s.maps.skOf && t in tasks && PhaseOf(s, t).Idle?
    requires t in s.maps.cookieOf && s.maps.cookieOf[t] == cookies(1) != 0 && s.maps.events == []
    ensures var steps := [(t, Enter6(2)), (t, Return6(SEEN))];
            && Runs(s, steps, tasks, cookies)
            && After(s, steps, tasks, cookies).maps.events == [BindEvent(t, 1, 2, cookies(1))]
  {
    var s' := TwoRun(s, t, Enter6(2), t, Return6(SEEN), tasks, cookies);
    assert Happen(s, t, Enter6(2), cookies).maps.skOf[t] == 2;
  }

  /** With more tasks than entries some run pairs a cookie with another socket. */
  lemma FullMapMispairs(tasks: set<Task>, cookies: Sock -> Cookie) returns (steps: seq<(Task, Event)>)
    requires |tasks| > CAPACITY && cookies(1) != 0 && cookies(1) != cookies(2)
    ensures Runs(START, steps, tasks, cookies) && !Paired(After(START, steps, tasks, cookies).maps.events, cookies)
  {
    var t :| t in tasks;
    var busy := SubsetOfSize(tasks - {t}, CAPACITY);
    var u :| u in busy;
    var fill := MakeBusy(busy, tasks, cookies);
    var s := After(START, fill, tasks, cookies);
    var leave := [(t, Enter4(1)), (t, Exit4), (t, Return4(SEEN))];
    CookieStaysBehind(s, t, busy, tasks, cookies);
    var s1 := After(s, leave, tasks, cookies);
    assert |s1.maps.skOf| == |s1.maps.skOf.Keys| == CAPACITY;
    var s2 := RoomIsMade(s1, t, u, tasks, cookies);
    CookieMeetsOther(s2, t, tasks, cookies);
    var room, meet := [(u, Exit4), (u, Return4(SEEN.(port := 0)))], [(t, Enter6(2)), (t, Return6(SEEN))];
    RunsAppend(s1, room, meet, tasks, cookies);
    RunsAppend(s, leave, room + meet, tasks, cookies);
    RunsAppend(START, fill, leave + (room + meet), tasks, cookies);
    steps := fill + (leave + (room + meet));
    assert After(START, steps, tasks, cookies).maps.events[0] == BindEvent(t, 1, 2, cookies(1));
  }

  /** Whatever these tasks do, every event carries the cookie of its socket. */
  ghost predicate AlwaysPaired(tasks: set<Task>) {
    forall steps, cookies :: Runs(START, steps, tasks, cookies) ==> Paired(After(START, steps, tasks, cookies).maps.events, cookies)
  }

  /** Whatever these tasks do, exactly the expected events are reported. */
  ghost predicate AlwaysReported(tasks: set<Task>) {
    forall steps, cookies :: Runs(START, steps, tasks, cookies) ==>
      After(START, steps, tasks, cookies).maps.events == Expected(map[], steps, cookies)
  }

  /** Both hold for a set of tasks if and only if the maps have an entry for each of them. */
  lemma CapacityExact(tasks: set<Task>)
    ensures AlwaysPaired(tasks) <==> |tasks| <= 16384
    ensures AlwaysReported(tasks) <==> |tasks| <= 16384
  {
    if |tasks| <= CAPACITY {
      forall steps, cookies | Runs(START, steps, tasks, cookies)
        ensures After(START, steps, tasks, cookies).maps.events == Expected(map[], steps, cookies)
        ensures Paired(After(START, steps, tasks, cookies).maps.events, cookies)
      {
        InterleavingsPair(steps, tasks, cookies);
      }
    } else {
      var cookies := (s: Sock) => s;
      var steps := FullMapMispairs(tasks, cookies);
      ExpectedPaired(map[], steps, cookies);
    }
  }

  // ------------------------------------------------------------ the hooks on their maps

  class UdpHooks {
    var skByPid: map<Task, Sock>
    var cookieByPid: map<Task, Cookie>
    var ports: map<Port, Pid>
    var events: seq<BindEvent>

    constructor ()
      ensures Now() == START.maps
    {
      skByPid, cookieByPid, ports, events := map[], map[], map[], [];
    }

    function Now(): Maps
      reads this
    {
      Maps(skByPid, cookieByPid, ports, events)
    }

    /** enter_udp4_sendmsg and enter_udp6_sendmsg */
    method EnterSend(t: Task, sk: Sock)
      modifies this`skByPid
      ensures Now() == Entered(old(Now()), t, sk)
    {
      skByPid := Update(skByPid, CAPACITY, t, sk);
    }

    /** fexit_udp_sendmsg */
    method ExitSend(t: Task, sk: Sock, cookie: Cookie)
      modifies this`cookieByPid
      ensures Now() == Exited(old(Now()), t, sk, cookie)
    {
      if sk != 0 {
        cookieByPid := Update(cookieByPid, CAPACITY, t, cookie);
      }
    }

    /** EmitIfBound: the port of a bound socket is claimed for the process, and the event made. */
    method EmitIfBound(t: Task, sk: Sock, cookie: Cookie, seen: Seen)
      modifies this`ports, this`events
      ensures Now() == Emit(old(Now()), t, sk, cookie, seen)
      ensures sk != 0 ==> ports == PortOwnership.Step(PortOwnership.Net(old(ports), map[], []),
                                                      PortOwnership.UdpBound(seen.port, PidOf(t))).ports
      ensures events == if sk != 0 && seen.port != 0 && seen.inet && seen.ring && cookie != 0
                        then old(events) + [BindEvent(t, seen.port, sk, cookie)] else old(events)
    {
      if sk == 0 {
        return;
      }
      if seen.port == 0 {
        return;
      }
      ports := Update(ports, PortOwnership.PORT_CAPACITY, seen.port, PidOf(t));
      if !seen.inet {
        return;
      }
      if cookie != 0 && seen.ring {
        events := events + [BindEvent(t, seen.port, sk, cookie)];
      }
    }

    /** ret_udp4_sendmsg */
    method ReturnSend4(t: Task, seen: Seen)
      modifies this
      ensures Now() == Returned4(old(Now()), t, seen)
    {
      if t !in skByPid {
        return;
      }
      if t in cookieByPid {
        var sk := skByPid[t];
        skByPid := skByPid - {t};
        EmitIfBound(t, sk, cookieByPid[t], seen);
        cookieByPid := cookieByPid - {t};
      } else {
        skByPid := skByPid - {t};
        assert cookieByPid == cookieByPid - {t};
      }
    }

    /** ret_udp6_sendmsg */
    method ReturnSend6(t: Task, seen: Seen)
      modifies this
      ensures Now() == Returned6(old(Now()), t, seen)
    {
      if t in skByPid && t in cookieByPid {
        var sk := skByPid[t];
        skByPid := skByPid - {t};
        EmitIfBound(t, sk, cookieByPid[t], seen);
      }
      skByPid := skByPid - {t};
      cookieByPid := cookieByPid - {t};
    }

    /** fexit_udp_recvmsg and fexit_udp6_recvmsg */
    method ExitReceive(t: Task, sk: Sock, cookie: Cookie, seen: Seen)
      modifies this`cookieByPid, this`ports, this`events
      ensures Now() == Received(old(Now()), t, sk, cookie, seen)
    {
      if sk != 0 {
        cookieByPid := Update(cookieByPid, CAPACITY, t, cookie);
        EmitIfBound(t, sk, cookie, seen);
        cookieByPid := cookieByPid - {t};
      }
    }
  }
}
