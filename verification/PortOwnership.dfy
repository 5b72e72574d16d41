/** The map port_to_pid of the eBPF hooks (Source/EBPF) as a transition system: which process owns
    a local port, across bind, listen, established, close, UDP and destruction. */
module PortOwnership {
  import opened Wrappers
  import opened Sizes
  import opened BpfMaps

  type Port = p: int | 0 <= p < 0x10000
  type Pid = p: int | 0 <= p < 0x1_0000_0000

  const PORT_CAPACITY := 65536
  const SOCKET_CAPACITY := 65536

  datatype TcpState = Established | Listen | Close | OtherState

  datatype Shared = Shared(pid: Pid, cookie: int)

  /** What a hook tells the daemon about a connection: established or accepted. */
  datatype Report = Report(cookie: int, port: Port, pid: Pid, isAccept: bool)

  datatype Net = Net(ports: map<Port, Pid>, sockets: map<int, Shared>, reports: seq<Report>)

  /** One firing of a hook with what it reads from its context; `ring` says whether the ring buffer
      has room for an event. */
  datatype Hook =
    | Bind(cookie: int, port: Port, pid: Pid, ring: bool)
    | EnterListen(key: int, port: Port, ring: bool)
    | SetState(cookie: int, from: TcpState, to: TcpState, port: Port, pid: Pid, ring: bool)
    | UdpBound(port: Port, pid: Pid)
    | Graft(cookie: int, port: Port, pid: Pid, ring: bool)
    | SockCreate(key: int, cookie: int, pid: Pid)
    | SockDestruct(cookie: int)

  // ------------------------------------------------------------ the size of the map

  /** The ports below `n`. */
  function PortsBelow(n: nat): (s: set<Port>)
    requires n <= PORT_CAPACITY
    ensures |s| == n && forall p: Port :: p in s <==> p < n
  {
    if n == 0 then {} else PortsBelow(n - 1) + {n - 1}
  }

  lemma AllPortsFit(m: map<Port, Pid>, n: nat, k: Port, v: Pid)
    requires n == PORT_CAPACITY
    ensures |m| <= n && Update(m, n, k, v) == m[k := v]
    ensures InsertNew(m, n, k, v) == if k in m then m else m[k := v]
  {
    UpdateSucceeds(m, n, k, v, PortsBelow(n));
  }

  /** The port map can hold every port: it never exceeds its capacity and no update is refused. */
  lemma PortMapNeverFull(m: map<Port, Pid>, k: Port, v: Pid)
    ensures |m| <= PORT_CAPACITY
    ensures Update(m, PORT_CAPACITY, k, v) == m[k := v]
    ensures InsertNew(m, PORT_CAPACITY, k, v) == if k in m then m else m[k := v]
  {
    AllPortsFit(m, PORT_CAPACITY, k, v);
  }

  // ------------------------------------------------------------ the hooks

  /** MakeSocketEvent2 yields a record. */
  predicate Reports(cookie: int, ring: bool) { cookie != 0 && ring }

  /** The process to report for a connection on `port`: its owner if one is known. */
  function Attributed(ports: map<Port, Pid>, port: Port, current: Pid): Pid {
    if port in ports && ports[port] != 0 then ports[port] else current
  }

  function OnSetState(n: Net, h: Hook): Net
    requires h.SetState?
  {
    match h.to
    case Close =>
      if h.from == Listen && h.port != 0 then n.(ports := n.ports - {h.port}) else n
    case Listen =>
      if h.port != 0 && h.pid != 0 then n.(ports := Update(n.ports, PORT_CAPACITY, h.port, h.pid)) else n
    case Established =>
      var owned := h.port != 0 && h.port in n.ports;
      var reports := if Reports(h.cookie, h.ring)
                     then n.reports + [Report(h.cookie, h.port, if owned then Attributed(n.ports, h.port, h.pid) else h.pid, owned)]
                     else n.reports;
      var ports := if !owned && h.port != 0 then InsertNew(n.ports, PORT_CAPACITY, h.port, h.pid) else n.ports;
      n.(ports := ports, reports := reports)
    case OtherState => n
  }

  function Step(n: Net, h: Hook): Net {
    match h
    case Bind(cookie, port, pid, ring) =>
      if Reports(cookie, ring) && port != 0 then n.(ports := Update(n.ports, PORT_CAPACITY, port, pid)) else n
    case EnterListen(key, port, _) =>
      if key in n.sockets && port != 0 && n.sockets[key].pid != 0
      then n.(ports := Update(n.ports, PORT_CAPACITY, port, n.sockets[key].pid)) else n
    case SetState(_, _, _, _, _, _) => OnSetState(n, h)
    case UdpBound(port, pid) =>
      if port != 0 then n.(ports := Update(n.ports, PORT_CAPACITY, port, pid)) else n
    case Graft(cookie, port, pid, ring) =>
      if Reports(cookie, ring)
      then n.(reports := n.reports + [Report(cookie, port, Attributed(n.ports, port, pid), true)]) else n
    case SockCreate(key, cookie, pid) =>
      if pid != 0 then n.(sockets := Update(n.sockets, SOCKET_CAPACITY, key, Shared(pid, cookie))) else n
    case SockDestruct(_) => n
  }

  function Run(n: Net, hooks: seq<Hook>): Net
    decreases |hooks|
  {
    if hooks == [] then n else Run(Step(n, hooks[0]), hooks[1..])
  }

  // ------------------------------------------------------------ what runs keep

  /** A socket that listens on `p` closes. */
  predicate ClosesListener(h: Hook, p: Port) {
    h.SetState? && h.from == Listen && h.to == Close && h.port == p
  }

  /** The hook may name an owner for `p`. */
  predicate Claims(h: Hook, p: Port) {
    match h
    case Bind(_, port, _, _) => port == p
    case EnterListen(_, port, _) => port == p
    case SetState(_, _, to, port, _, _) => to == Listen && port == p
    case UdpBound(port, _) => port == p
    case _ => false
  }

  predicate NoneClose(hooks: seq<Hook>, p: Port) {
    forall i :: 0 <= i < |hooks| ==> !ClosesListener(hooks[i], p)
  }

  predicate NoneClaim(hooks: seq<Hook>, p: Port) {
    forall i :: 0 <= i < |hooks| ==> !Claims(hooks[i], p)
  }

  /** A socket of process `pid` enters LISTEN on port `p`, as one of the two hooks sees it: fentry with
      the current process, the tracepoint with the process that created the socket. */
  predicate EntersListen(n: Net, h: Hook, p: Port, pid: Pid) {
    && p != 0 && pid != 0
    && match h
       case SetState(_, _, to, port, current, _) => to == Listen && port == p && current == pid
       case EnterListen(key, port, _) => port == p && key in n.sockets && n.sockets[key].pid == pid
       case _ => false
  }

  /** Entering LISTEN makes the process the owner of its port, whichever of the two hooks sees it. */
  lemma ListenClaims(n: Net, h: Hook, p: Port, pid: Pid)
    requires EntersListen(n, h, p, pid)
    ensures p in Step(n, h).ports && Step(n, h).ports[p] == pid && Step(n, h).reports == n.reports
  {
    PortMapNeverFull(n.ports, p, pid);
  }

  lemma StepKeepsPort(n: Net, h: Hook, p: Port)
    requires p in n.ports && !ClosesListener(h, p)
    ensures p in Step(n, h).ports
    ensures !Claims(h, p) ==> Step(n, h).ports[p] == n.ports[p]
  {
  }

  /** Once owned, a port stays in the map through every run in which no listener on it closes,
      however many connections on it are established, closed or destroyed. */
  lemma {:induction false} PortStays(n: Net, hooks: seq<Hook>, p: Port)
    requires p in n.ports && NoneClose(hooks, p)
    ensures p in Run(n, hooks).ports
    decreases |hooks|
  {
    if hooks != [] {
      StepKeepsPort(n, hooks[0], p);
      PortStays(Step(n, hooks[0]), hooks[1..], p);
    }
  }

  predicate ReportedAs(rs: seq<Report>, p: Port, pid: Pid) {
    forall i :: 0 <= i < |rs| && rs[i].port == p ==> rs[i].pid == pid && rs[i].isAccept
  }

  lemma StepReports(n: Net, h: Hook, p: Port)
    requires p != 0 && p in n.ports && n.ports[p] != 0
    ensures n.reports <= Step(n, h).reports
    ensures ReportedAs(Step(n, h).reports[|n.reports|..], p, n.ports[p])
  {
  }

  /** If besides nobody else claims the port, its owner stays, and everything reported about
      connections on the port meanwhile names that owner. */
  lemma {:induction false} OwnerStays(n: Net, hooks: seq<Hook>, p: Port)
    requires p != 0 && p in n.ports && n.ports[p] != 0 && NoneClose(hooks, p) && NoneClaim(hooks, p)
    ensures var n' := Run(n, hooks);
            && p in n'.ports && n'.ports[p] == n.ports[p] && n.reports <= n'.reports
            && ReportedAs(n'.reports[|n.reports|..], p, n.ports[p])
    decreases |hooks|
  {
    if hooks != [] {
      var m := Step(n, hooks[0]);
      StepKeepsPort(n, hooks[0], p);
      StepReports(n, hooks[0], p);
      OwnerStays(m, hooks[1..], p);
      JoinReports(n.reports, m.reports, Run(n, hooks).reports, p, n.ports[p]);
    }
  }

  lemma JoinReports(a: seq<Report>, b: seq<Report>, c: seq<Report>, p: Port, pid: Pid)
    requires a <= b <= c && ReportedAs(b[|a|..], p, pid) && ReportedAs(c[|b|..], p, pid)
    ensures a <= c && ReportedAs(c[|a|..], p, pid)
  {
    forall i | 0 <= i < |c[|a|..]| && c[|a|..][i].port == p
      ensures c[|a|..][i].pid == pid && c[|a|..][i].isAccept
    {
      if i < |b| - |a| {
        assert b[|a|..][i] == b[i + |a|] == c[i + |a|];
      } else {
        assert c[|b|..][i + |a| - |b|] == c[i + |a|];
      }
    }
  }

  /** From LISTEN on, the two results together: the listening process owns its port until a
      listener on it closes or somebody else claims it. */
  lemma ListenerOwnsPort(n: Net, h: Hook, hooks: seq<Hook>, p: Port, pid: Pid)
    requires EntersListen(n, h, p, pid) && NoneClose(hooks, p)
    ensures p in Run(n, [h] + hooks).ports
    ensures NoneClaim(hooks, p) ==>
              var n' := Run(n, [h] + hooks);
              && n'.ports[p] == pid && n.reports <= n'.reports
              && ReportedAs(n'.reports[|n.reports|..], p, pid)
  {
    ListenClaims(n, h, p, pid);
    assert ([h] + hooks)[1..] == hooks;
    PortStays(Step(n, h), hooks, p);
    if NoneClaim(hooks, p) {
      OwnerStays(Step(n, h), hooks, p);
    }
  }

  /** The entry of an outgoing connection outlives the connection: when another process later gets
      the same local port, its connection is reported as accepted by the first one.  It is reported
      as its own exactly if the port has no entry, or one that names it or nobody. */
  lemma ReusedPortMisattributed(n: Net, p: Port, first: Pid, second: Pid, c1: int, c2: int)
    requires p != 0 && p !in n.ports && first != 0 && first != second && c1 != 0 && c2 != 0
    ensures var n' := Run(n, [SetState(c1, OtherState, Established, p, first, true),
                              SetState(c1, Established, Close, p, first, true),
                              SetState(c2, OtherState, Established, p, second, true)]);
            |n'.reports| == |n.reports| + 2 && n'.reports[|n.reports| + 1] == Report(c2, p, first, true)
  {
    var h1 := SetState(c1, OtherState, Established, p, first, true);
    var h2 := SetState(c1, Established, Close, p, first, true);
    var h3 := SetState(c2, OtherState, Established, p, second, true);
    PortMapNeverFull(n.ports, p, first);
    var hooks := [h1, h2, h3];
    assert hooks[1..] == [h2, h3] && hooks[1..][1..] == [h3] && hooks[1..][1..][1..] == [];
    var n1 := Step(n, h1);
    var n2 := Step(n1, h2);
    assert Run(n, hooks) == Run(n1, hooks[1..]) && Run(n1, [h2, h3]) == Run(n2, [h2, h3][1..]);
    assert Run(n2, [h3]) == Run(Step(n2, h3), []);
  }

  lemma ReportedAsOwnExactly(n: Net, h: Hook)
    requires h.SetState? && h.to == Established && Reports(h.cookie, h.ring)
    ensures var r := Step(n, h).reports[|n.reports|];
            r.pid == h.pid <==> h.port == 0 || h.port !in n.ports || n.ports[h.port] == 0 || n.ports[h.port] == h.pid
  {
  }

  // ------------------------------------------------------------ the owner by the history alone

  const EMPTY := Net(map[], map[], [])

  lemma {:induction false} RunSnoc(n: Net, hooks: seq<Hook>, h: Hook)
    ensures Run(n, hooks + [h]) == Step(Run(n, hooks), h)
    decreases |hooks|
  {
    if hooks == [] {
      assert [h][1..] == [];
      assert [] + [h] == [h];
    } else {
      assert (hooks + [h])[1..] == hooks[1..] + [h] && (hooks + [h])[0] == hooks[0];
      RunSnoc(Step(n, hooks[0]), hooks[1..], h);
    }
  }

  /** The process that created the socket at `key`, if a hook has seen it: the last creation counts. */
  function Creator(hooks: seq<Hook>, key: int): Option<Pid>
    decreases |hooks|
  {
    if hooks == [] then None
    else
      match hooks[|hooks| - 1]
      case SockCreate(k, _, pid) =>
        if k == key && pid != 0 then Some(pid) else Creator(hooks[..|hooks| - 1], key)
      case _ => Creator(hooks[..|hooks| - 1], key)
  }

  /** The sockets whose creation the hooks have seen. */
  function Created(hooks: seq<Hook>): set<int>
    decreases |hooks|
  {
    if hooks == [] then {}
    else
      match hooks[|hooks| - 1]
      case SockCreate(k, _, pid) => Created(hooks[..|hooks| - 1]) + if pid != 0 then {k} else {}
      case _ => Created(hooks[..|hooks| - 1])
  }

  lemma {:induction false} CreatedIsCreator(hooks: seq<Hook>, key: int)
    ensures key in Created(hooks) <==> Creator(hooks, key).Some?
    ensures Creator(hooks, key).Some? ==> Creator(hooks, key).value != 0
    decreases |hooks|
  {
    if hooks != [] {
      CreatedIsCreator(hooks[..|hooks| - 1], key);
    }
  }

  lemma {:induction false} CreatedGrows(hooks: seq<Hook>, n: nat)
    requires n <= |hooks|
    ensures Created(hooks[..n]) <= Created(hooks) && |Created(hooks[..n])| <= |Created(hooks)|
    decreases |hooks|
  {
    if n == |hooks| {
      assert hooks[..n] == hooks;
    } else {
      assert hooks[..|hooks| - 1][..n] == hooks[..n];
      CreatedGrows(hooks[..|hooks| - 1], n);
    }
    SubsetSize(Created(hooks[..n]), Created(hooks));
  }

  /** What the socket map holds for a key. */
  function HeldSocket(sockets: map<int, Shared>, key: int): Option<Pid> {
    if key in sockets then Some(sockets[key].pid) else None
  }

  lemma {:induction false} SocketsAmongCreated(hooks: seq<Hook>)
    ensures Run(EMPTY, hooks).sockets.Keys <= Created(hooks) && |Run(EMPTY, hooks).sockets| <= SOCKET_CAPACITY
    decreases |hooks|
  {
    if hooks != [] {
      var before, h := hooks[..|hooks| - 1], hooks[|hooks| - 1];
      assert hooks == before + [h];
      SocketsAmongCreated(before);
      RunSnoc(EMPTY, before, h);
      if h.SockCreate? && h.pid != 0 {
        var m := Run(EMPTY, before).sockets;
        var m' := Update(m, SOCKET_CAPACITY, h.key, Shared(h.pid, h.cookie));
        assert m'.Keys == m.Keys || m'.Keys == m.Keys + {h.key};
        assert |m'| == |m'.Keys| && |m| == |m.Keys|;
      }
    }
  }

  lemma {:induction false} SocketsAreHistory(hooks: seq<Hook>, key: int)
    requires |Created(hooks)| <= SOCKET_CAPACITY
    ensures HeldSocket(Run(EMPTY, hooks).sockets, key) == Creator(hooks, key)
    decreases |hooks|
  {
    if hooks != [] {
      var before, h := hooks[..|hooks| - 1], hooks[|hooks| - 1];
      assert hooks == before + [h];
      CreatedGrows(hooks, |hooks| - 1);
      SocketsAreHistory(before, key);
      RunSnoc(EMPTY, before, h);
      if h.SockCreate? && h.pid != 0 {
        SocketsAmongCreated(before);
        UpdateSucceeds(Run(EMPTY, before).sockets, SOCKET_CAPACITY, h.key, Shared(h.pid, h.cookie), Created(hooks));
      }
    }
  }

  /** The socket map knows the creator of every socket seen. */
  ghost predicate CreatorsKnown(hooks: seq<Hook>) {
    forall key :: HeldSocket(Run(EMPTY, hooks).sockets, key) == Creator(hooks, key)
  }

  lemma KnownCreatorsFit(hooks: seq<Hook>)
    requires CreatorsKnown(hooks)
    ensures |Created(hooks)| <= SOCKET_CAPACITY
  {
    var sockets := Run(EMPTY, hooks).sockets;
    SocketsAmongCreated(hooks);
    forall key
      ensures key in Created(hooks) <==> key in sockets
    {
      CreatedIsCreator(hooks, key);
      assert HeldSocket(sockets, key) == Creator(hooks, key);
    }
    assert Created(hooks) == sockets.Keys && |sockets| == |sockets.Keys|;
  }

  /** It does exactly as long as the sockets seen fit into it. */
  lemma SocketsExact(hooks: seq<Hook>)
    ensures CreatorsKnown(hooks) <==> |Created(hooks)| <= 65536
  {
    if |Created(hooks)| <= SOCKET_CAPACITY {
      forall key
        ensures HeldSocket(Run(EMPTY, hooks).sockets, key) == Creator(hooks, key)
      {
        SocketsAreHistory(hooks, key);
      }
    } else if CreatorsKnown(hooks) {
      KnownCreatorsFit(hooks);
    }
  }

  /** The process that a hook names as the owner of port `p`, whatever the maps hold; `creator` is that
      of the socket which the listen tracepoint is about. */
  function Named(creator: Option<Pid>, h: Hook, p: Port): Option<Pid> {
    match h
    case Bind(cookie, port, pid, ring) => if port == p && cookie != 0 && ring then Some(pid) else None
    case EnterListen(_, port, _) => if port == p then creator else None
    case SetState(_, _, to, port, pid, _) => if to == Listen && port == p && pid != 0 then Some(pid) else None
    case UdpBound(port, pid) => if port == p then Some(pid) else None
    case _ => None
  }

  /** The process that created the socket of the hook, by the history alone. */
  function CreatorOf(before: seq<Hook>, h: Hook): Option<Pid> { if h.EnterListen? then Creator(before, h.key) else None }

  /** A connection on `p` is established. */
  predicate Connects(h: Hook, p: Port) { h.SetState? && h.to == Established && h.port == p }

  /** The owner of `p` after a history: whoever was named last since a listener on `p` closed, or else
      the first to connect since then. */
  function Owner(hooks: seq<Hook>, p: Port): Option<Pid>
    decreases |hooks|
  {
    if hooks == [] then None
    else
      var before, h := hooks[..|hooks| - 1], hooks[|hooks| - 1];
      NextOwner(Owner(before, p), CreatorOf(before, h), h, p)
  }

  /** What the map holds for a port. */
  function Held(ports: map<Port, Pid>, p: Port): Option<Pid> { if p in ports then Some(ports[p]) else None }

  lemma HeldAfter(m: map<Port, Pid>, k: Port, v: Pid, p: Port)
    ensures Held(Update(m, PORT_CAPACITY, k, v), p) == if p == k then Some(v) else Held(m, p)
    ensures Held(InsertNew(m, PORT_CAPACITY, k, v), p) == if p == k && Held(m, k).None? then Some(v) else Held(m, p)
    ensures Held(m - {k}, p) == if p == k then None else Held(m, p)
  {
    PortMapNeverFull(m, k, v);
  }

  /** The owner of `p` after a hook, if it was `owner` before. */
  function NextOwner(owner: Option<Pid>, creator: Option<Pid>, h: Hook, p: Port): Option<Pid> {
    var named := Named(creator, h, p);
    if ClosesListener(h, p) then None
    else if named.Some? then named
    else if Connects(h, p) && owner.None? then Some(h.pid)
    else owner
  }

  lemma SetStateHolds(n: Net, h: Hook, p: Port)
    requires p != 0 && h.SetState?
    ensures Held(OnSetState(n, h).ports, p) == NextOwner(Held(n.ports, p), None, h, p)
  {
    HeldAfter(n.ports, h.port, h.pid, p);
  }

  lemma ListenHolds(n: Net, creator: Option<Pid>, h: Hook, p: Port)
    requires p != 0 && h.EnterListen? && creator == HeldSocket(n.sockets, h.key) && creator != Some(0)
    ensures Held(Step(n, h).ports, p) == NextOwner(Held(n.ports, p), creator, h, p)
  {
    if creator.Some? {
      HeldAfter(n.ports, h.port, creator.value, p);
    }
  }

  lemma ClaimHolds(n: Net, h: Hook, p: Port)
    requires p != 0 && (h.Bind? || h.UdpBound?)
    ensures Held(Step(n, h).ports, p) == NextOwner(Held(n.ports, p), None, h, p)
  {
    HeldAfter(n.ports, h.port, h.pid, p);
  }

  /** What each hook makes of the owner of a port. */
  lemma StepHolds(n: Net, creator: Option<Pid>, h: Hook, p: Port)
    requires p != 0
    requires if h.EnterListen? then creator == HeldSocket(n.sockets, h.key) && creator != Some(0) else creator == None
    ensures Held(Step(n, h).ports, p) == NextOwner(Held(n.ports, p), creator, h, p)
  {
    if h.EnterListen? {
      ListenHolds(n, creator, h, p);
    } else if h.SetState? {
      SetStateHolds(n, h, p);
    } else if h.Bind? || h.UdpBound? {
      ClaimHolds(n, h, p);
    }
  }

  /** From the empty maps on, the map holds exactly the owners that the history tells, as long as the
      socket map has room for the sockets seen. */
  lemma {:induction false} MapIsHistory(hooks: seq<Hook>, p: Port)
    requires p != 0 && |Created(hooks)| <= SOCKET_CAPACITY
    ensures Held(Run(EMPTY, hooks).ports, p) == Owner(hooks, p)
    decreases |hooks|
  {
    if hooks != [] {
      var before, h := hooks[..|hooks| - 1], hooks[|hooks| - 1];
      assert hooks == before + [h];
      CreatedGrows(hooks, |hooks| - 1);
      MapIsHistory(before, p);
      RunSnoc(EMPTY, before, h);
      if h.EnterListen? {
        SocketsAreHistory(before, h.key);
        CreatedIsCreator(before, h.key);
      }
      StepHolds(Run(EMPTY, before), CreatorOf(before, h), h, p);
    }
  }

  /** The process under which the history has a connection on a port reported. */
  function Blamed(owner: Option<Pid>, current: Pid): Pid {
    if owner.Some? && owner.value != 0 then owner.value else current
  }

  /** Over any run from the empty maps an established connection is reported under the owner of its port
      that the history tells, or under the current process if it tells none, and as accepted if and only
      if it tells any.  So it is reported under its own process if and only if there is no other owner. */
  lemma ReportedByHistory(hooks: seq<Hook>, h: Hook)
    requires h.SetState? && h.to == Established && h.port != 0 && h.cookie != 0 && h.ring
    requires |Created(hooks)| <= SOCKET_CAPACITY
    ensures var o := Owner(hooks, h.port);
            && Run(EMPTY, hooks + [h]).reports ==
               Run(EMPTY, hooks).reports + [Report(h.cookie, h.port, Blamed(o, h.pid), o.Some?)]
            && (Blamed(o, h.pid) == h.pid <==> o == None || o == Some(0) || o == Some(h.pid))
  {
    MapIsHistory(hooks, h.port);
    RunSnoc(EMPTY, hooks, h);
  }

  /** An accepted socket is reported the same way, but always as accepted. */
  lemma AcceptedByHistory(hooks: seq<Hook>, h: Hook)
    requires h.Graft? && h.port != 0 && h.cookie != 0 && h.ring && |Created(hooks)| <= SOCKET_CAPACITY
    ensures Run(EMPTY, hooks + [h]).reports ==
            Run(EMPTY, hooks).reports + [Report(h.cookie, h.port, Blamed(Owner(hooks, h.port), h.pid), true)]
  {
    MapIsHistory(hooks, h.port);
    RunSnoc(EMPTY, hooks, h);
  }

  /** No other hook reports anything, and none does without a cookie or without room in the ring. */
  lemma NothingElseReported(n: Net, h: Hook)
    ensures Step(n, h).reports != n.reports ==>
              || (h.SetState? && h.to == Established && h.cookie != 0 && h.ring)
              || (h.Graft? && h.cookie != 0 && h.ring)
  {
  }

  // ------------------------------------------------------------ the hooks on their maps

  /** The maps as the hooks update them in place. */
  class Kernel {
    var ports: map<Port, Pid>
    var sockets: map<int, Shared>
    var reports: seq<Report>

    constructor ()
      ensures Now() == Net(map[], map[], [])
    {
      ports, sockets, reports := map[], map[], [];
    }

    function Now(): Net
      reads this
    {
      Net(ports, sockets, reports)
    }

    /** lsm/socket_bind */
    method SocketBind(cookie: int, port: Port, pid: Pid, ring: bool)
      modifies this`ports
      ensures Now() == Step(old(Now()), Bind(cookie, port, pid, ring))
      ensures ports == if cookie != 0 && ring && port != 0 then old(ports)[port := pid] else old(ports)
    {
      if cookie != 0 && ring {
        if port != 0 {
          PortMapNeverFull(ports, port, pid);
          ports := Update(ports, PORT_CAPACITY, port, pid);
        }
      }
    }

    /** tracepoint/sock/inet_sock_set_state for a TCP socket that enters LISTEN */
    method TracepointListen(key: int, port: Port, ring: bool)
      modifies this`ports
      ensures Now() == Step(old(Now()), EnterListen(key, port, ring))
      ensures ports == if key in sockets && sockets[key].pid != 0 && port != 0
                       then old(ports)[port := sockets[key].pid] else old(ports)
    {
      if key in sockets {
        var shared := sockets[key];
        PortMapNeverFull(ports, port, shared.pid);
        if port != 0 && shared.pid != 0 {
          ports := Update(ports, PORT_CAPACITY, port, shared.pid);
        }
      }
    }

    /** fentry/tcp_set_state */
    method TcpSetState(cookie: int, from: TcpState, to: TcpState, port: Port, pid: Pid, ring: bool)
      modifies this`ports, this`reports
      ensures Now() == Step(old(Now()), SetState(cookie, from, to, port, pid, ring))
      ensures to == Close ==> reports == old(reports) && ports == if from == Listen && port != 0 then old(ports) - {port} else old(ports)
      ensures to == Listen ==> reports == old(reports) && ports == if port != 0 && pid != 0 then old(ports)[port := pid] else old(ports)
      ensures to == Established ==> ports == if port == 0 || port in old(ports) then old(ports) else old(ports)[port := pid]
    {
      PortMapNeverFull(ports, port, pid);
      if to == Close {
        if from == Listen {
          if port != 0 {
            ports := ports - {port};
          }
        }
      } else if to == Listen {
        if port != 0 {
          if pid != 0 {
            ports := Update(ports, PORT_CAPACITY, port, pid);
          }
        }
      } else if to == Established {
        var owned := false;
        var owner := 0;
        if port != 0 {
          owned := port in ports;
          if owned {
            owner := ports[port];
          }
        }
        if !owned && port != 0 {
          ports := InsertNew(ports, PORT_CAPACITY, port, pid);
        }
        if cookie != 0 && ring {
          reports := reports + [Report(cookie, port, if owned && owner != 0 then owner else pid, owned)];
        }
      }
    }

    /** The write of EmitIfBound in Source/EBPF/EBPFUdp.h */
    method UdpEmit(port: Port, pid: Pid)
      modifies this`ports
      ensures Now() == Step(old(Now()), UdpBound(port, pid))
      ensures ports == if port != 0 then old(ports)[port := pid] else old(ports)
    {
      PortMapNeverFull(ports, port, pid);
      if port != 0 {
        ports := Update(ports, PORT_CAPACITY, port, pid);
      }
    }

    /** lsm/sock_graft */
    method SockGraft(cookie: int, port: Port, pid: Pid, ring: bool)
      modifies this`reports
      ensures Now() == Step(old(Now()), Graft(cookie, port, pid, ring))
      ensures cookie != 0 && ring ==>
                reports == old(reports) + [Report(cookie, port, if port in ports && ports[port] != 0 then ports[port] else pid, true)]
    {
      var owner := if port in ports then ports[port] else 0;
      if cookie != 0 && ring {
        reports := reports + [Report(cookie, port, if owner != 0 then owner else pid, true)];
      }
    }

    /** cgroup/sock_create */
    method OnSockCreate(key: int, cookie: int, pid: Pid)
      modifies this`sockets
      ensures Now() == Step(old(Now()), SockCreate(key, cookie, pid))
      ensures pid != 0 && (key in old(sockets) || |old(sockets)| < SOCKET_CAPACITY) ==>
                sockets == old(sockets)[key := Shared(pid, cookie)]
    {
      if pid != 0 {
        sockets := Update(sockets, SOCKET_CAPACITY, key, Shared(pid, cookie));
      }
    }
  }
}
