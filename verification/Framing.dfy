/** The length-prefixed frames of Source/Util/ClientSocket.cpp: however the stream is cut into
    receive chunks, the receiver hands out exactly the frames that were sent. */
module Framing {
  import opened Wrappers
  import opened Bytes
  import opened ByteBuffer

  const LENGTH_RANGE := 0x1_0000_0000
  const HEADER := 4

  // ------------------------------------------------------------ the header

  /** A uint32_t in memory, lowest byte first. */
  function Le32(n: nat): (s: seq<Byte>)
    requires n < LENGTH_RANGE
    ensures |s| == HEADER && FromLe32(s) == n
  {
    var n1 := n / 0x100;
    var n2 := n1 / 0x100;
    [n % 0x100, n1 % 0x100, n2 % 0x100, n2 / 0x100]
  }

  function FromLe32(s: seq<Byte>): nat
    requires |s| >= HEADER
  {
    s[0] as int + 0x100 * s[1] as int + 0x1_0000 * s[2] as int + 0x100_0000 * s[3] as int
  }

  /** The bytes of the header, one by one. */
  lemma HeaderBytes(n: nat, i: nat)
    requires n < LENGTH_RANGE
    ensures i == 0 ==> Le32(n)[i] == n % 256
    ensures i == 1 ==> Le32(n)[i] == n / 256 % 256
    ensures i == 2 ==> Le32(n)[i] == n / 65536 % 256
    ensures i == 3 ==> Le32(n)[i] == n / 16777216
  {
  }

  /** What SendFramed puts on the wire: the size is cut to 32 bits. */
  function Frame(payload: seq<Byte>): seq<Byte> { Le32(|payload| % LENGTH_RANGE) + payload }

  function Stream(payloads: seq<seq<Byte>>): seq<Byte> {
    if payloads == [] then [] else Frame(payloads[0]) + Stream(payloads[1..])
  }

  predicate Framable(payloads: seq<seq<Byte>>) { forall i :: 0 <= i < |payloads| ==> |payloads[i]| < LENGTH_RANGE }

  // ------------------------------------------------------------ taking frames off the buffer

  /** TryPopBufferedFrame: the first frame and what follows it, if the frame is complete. */
  function Pop(incoming: seq<Byte>): Option<(seq<Byte>, seq<Byte>)> {
    if |incoming| < HEADER then None
    else
      var n := FromLe32(incoming);
      if |incoming| < HEADER + n then None
      else Some((incoming[HEADER..HEADER + n], incoming[HEADER + n..]))
  }

  lemma SameHeader(a: seq<Byte>, b: seq<Byte>)
    requires |a| >= HEADER && |b| >= HEADER && a[..HEADER] == b[..HEADER]
    ensures FromLe32(a) == FromLe32(b)
  {
    assert forall i :: 0 <= i < HEADER ==> a[i] == a[..HEADER][i] && b[i] == b[..HEADER][i];
  }

  /** One framed payload comes back whole exactly if its size fits the header. */
  lemma FrameExact(payload: seq<Byte>, rest: seq<Byte>)
    ensures Pop(Frame(payload) + rest) == Some((payload, rest)) <==> |payload| < 0x1_0000_0000
  {
    var n := |payload| % LENGTH_RANGE;
    var s := Frame(payload) + rest;
    assert s[..HEADER] == Le32(n);
    SameHeader(s, Le32(n));
    if |payload| < LENGTH_RANGE {
      assert s[HEADER..HEADER + n] == payload && s[HEADER + n..] == rest;
    } else {
      assert |s[HEADER..HEADER + n]| != |payload|;
    }
  }

  /** A prefix of the stream from which a frame can be taken starts with the first payload. */
  lemma PopFirst(incoming: seq<Byte>, later: seq<Byte>, payload: seq<Byte>, tail: seq<Byte>)
    requires |payload| < LENGTH_RANGE && incoming + later == Frame(payload) + tail && Pop(incoming).Some?
    ensures Pop(incoming).value.0 == payload && Pop(incoming).value.1 + later == tail
  {
    var s := incoming + later;
    FrameExact(payload, tail);
    assert s[..HEADER] == incoming[..HEADER];
    SameHeader(s, incoming);
    var n := FromLe32(incoming);
    assert s[HEADER..HEADER + n] == incoming[HEADER..HEADER + n];
    assert s[HEADER + n..] == incoming[HEADER + n..] + later;
  }

  /** What cannot be completed by more bytes of an incomplete tail cannot be taken now. */
  lemma PopPrefix(incoming: seq<Byte>, later: seq<Byte>)
    requires Pop(incoming + later).None?
    ensures Pop(incoming).None?
  {
    var s := incoming + later;
    if |incoming| >= HEADER {
      assert s[..HEADER] == incoming[..HEADER];
      SameHeader(s, incoming);
    }
  }

  // ------------------------------------------------------------ receiving

  /** One answer of recv: bytes, nothing for now, orderly shutdown, or an error that closes. */
  datatype Answer = Bytes(chunk: seq<Byte>) | Again | Shutdown | Broken

  datatype Conn = Conn(incoming: seq<Byte>, connected: bool)

  /** The outcome of one ReceiveFramed: a frame or none, and which answers are still to come. */
  datatype Received = Received(frame: Option<seq<Byte>>, conn: Conn, answers: seq<Answer>)

  function Popped(c: Conn, answers: seq<Answer>): Received {
    match Pop(c.incoming)
    case Some((frame, rest)) => Received(Some(frame), c.(incoming := rest), answers)
    case None => Received(None, c, answers)
  }

  /** ReceiveFramed on a connection with answers to come. */
  function Receive(c: Conn, answers: seq<Answer>): Received
    requires answers != []
  {
    if !c.connected then Received(None, c, answers)
    else if Pop(c.incoming).Some? then Popped(c, answers)
    else
      match answers[0]
      case Bytes(chunk) => Popped(c.(incoming := c.incoming + chunk), answers[1..])
      case Again => Received(None, c, answers[1..])
      case Shutdown => Received(None, c.(connected := false), answers[1..])
      case Broken => Received(None, c.(connected := false), answers[1..])
  }

  /** The socket is read only when no complete frame is buffered. */
  lemma ReadsOnlyWhenEmpty(c: Conn, answers: seq<Answer>)
    requires answers != [] && c.connected
    ensures Receive(c, answers).answers == answers <==> Pop(c.incoming).Some?
  {
    assert |answers[1..]| != |answers|;
  }

  /** ListenThreadFunction: call ReceiveFramed until the connection closes or nothing is to come. */
  function Listen(c: Conn, answers: seq<Answer>): (seq<seq<Byte>>, Conn)
    decreases |answers|, |c.incoming|
  {
    if answers == [] || !c.connected then ([], c)
    else
      var r := Receive(c, answers);
      var (later, end) := Listen(r.conn, r.answers);
      (if r.frame.Some? then [r.frame.value] + later else later, end)
  }

  /** All the bytes of an answer script. */
  function Chunks(answers: seq<Answer>): seq<Byte> {
    if answers == [] then [] else (if answers[0].Bytes? then answers[0].chunk else []) + Chunks(answers[1..])
  }

  /** Bytes and pauses, ended by an orderly shutdown of the peer or by an error. */
  predicate EndsInClose(answers: seq<Answer>) {
    answers != [] && if |answers| == 1 then answers[0].Shutdown? || answers[0].Broken?
                     else (answers[0].Bytes? || answers[0].Again?) && EndsInClose(answers[1..])
  }

  /** Once everything has arrived, a frame that is missing can be taken. */
  lemma NothingLeft(incoming: seq<Byte>, payloads: seq<seq<Byte>>, tail: seq<Byte>)
    requires Framable(payloads) && incoming == Stream(payloads) + tail
    ensures payloads != [] ==> Pop(incoming).Some?
  {
    if payloads != [] {
      assert incoming == Frame(payloads[0]) + (Stream(payloads[1..]) + tail);
      FrameExact(payloads[0], Stream(payloads[1..]) + tail);
    }
  }

  lemma TakesNext(incoming: seq<Byte>, later: seq<Byte>, payloads: seq<seq<Byte>>, tail: seq<Byte>)
    requires Framable(payloads) && incoming + later == Stream(payloads) + tail && Pop(tail).None? && Pop(incoming).Some?
    ensures payloads != [] && Pop(incoming).value.0 == payloads[0]
    ensures Pop(incoming).value.1 + later == Stream(payloads[1..]) + tail
  {
    if payloads == [] {
      assert incoming + later == tail;
      PopPrefix(incoming, later);
    } else {
      assert incoming + later == Frame(payloads[0]) + (Stream(payloads[1..]) + tail);
      PopFirst(incoming, later, payloads[0], Stream(payloads[1..]) + tail);
    }
  }

  /** From any point of the stream on: the remaining payloads come out whole, in order, and once
      each; an incomplete frame at the end stays in the buffer. */
  lemma {:induction false} ListenDelivers(c: Conn, answers: seq<Answer>, payloads: seq<seq<Byte>>, tail: seq<Byte>)
    requires c.connected && EndsInClose(answers) && Framable(payloads) && Pop(tail).None?
    requires c.incoming + Chunks(answers) == Stream(payloads) + tail
    ensures Listen(c, answers) == (payloads, Conn(tail, false))
    decreases |answers|, |c.incoming|
  {
    var later := Chunks(answers[1..]);
    if Pop(c.incoming).Some? {
      TakesNext(c.incoming, Chunks(answers), payloads, tail);
      ListenDelivers(Popped(c, answers).conn, answers, payloads[1..], tail);
      assert payloads == [payloads[0]] + payloads[1..];
    } else {
      match answers[0] {
        case Bytes(chunk) =>
          var grown := c.incoming + chunk;
          assert grown + later == c.incoming + Chunks(answers);
          if Pop(grown).Some? {
            TakesNext(grown, later, payloads, tail);
            ListenDelivers(Conn(Pop(grown).value.1, true), answers[1..], payloads[1..], tail);
            assert payloads == [payloads[0]] + payloads[1..];
          } else {
            ListenDelivers(Conn(grown, true), answers[1..], payloads, tail);
          }
        case Again =>
          assert Chunks(answers) == later;
          ListenDelivers(c, answers[1..], payloads, tail);
        case _ =>
          assert Chunks(answers) == [] && c.incoming + [] == c.incoming;
          NothingLeft(c.incoming, payloads, tail);
          assert c.incoming == tail;
      }
    }
  }

  /** Every list of payloads below 4 GiB, empty ones included, survives every way of cutting the
      stream into chunks, with pauses anywhere; when the peer shuts down or the connection breaks, no
      frame that has arrived is lost, and nothing more is read. */
  lemma FramesSurviveChunking(answers: seq<Answer>, payloads: seq<seq<Byte>>, tail: seq<Byte>)
    requires EndsInClose(answers) && Framable(payloads) && Pop(tail).None?
    requires Chunks(answers) == Stream(payloads) + tail
    ensures Listen(Conn([], true), answers) == (payloads, Conn(tail, false))
  {
    assert [] + Chunks(answers) == Chunks(answers);
    ListenDelivers(Conn([], true), answers, payloads, tail);
  }

  // ------------------------------------------------------------ from end to end

  /** What is on the wire after each of a row of sends that put whole frames there. */
  ghost predicate Sends(wires: seq<seq<Byte>>, payloads: seq<seq<Byte>>) {
    |wires| == |payloads| + 1 && forall i :: 0 <= i < |payloads| ==> wires[i + 1] == wires[i] + Frame(payloads[i])
  }

  /** The frames of several sends make up the stream. */
  lemma {:induction false} SendsStream(wires: seq<seq<Byte>>, payloads: seq<seq<Byte>>)
    requires Sends(wires, payloads)
    ensures wires[|payloads|] == wires[0] + Stream(payloads)
    decreases |payloads|
  {
    if payloads == [] {
      assert wires[0] + Stream(payloads) == wires[0];
    } else {
      SendsStream(wires[1..], payloads[1..]);
      Regroup(wires[0], Frame(payloads[0]), Stream(payloads[1..]));
    }
  }

  /** Part of a frame is not a frame. */
  lemma PartOfFrame(payload: seq<Byte>, k: nat)
    requires |payload| < LENGTH_RANGE && k < |Frame(payload)|
    ensures Pop(Frame(payload)[..k]).None?
  {
    if HEADER <= k {
      var part := Frame(payload)[..k];
      assert part[..HEADER] == Le32(|payload|);
      SameHeader(part, Le32(|payload|));
    }
  }

  /** The receiver hands out exactly the payloads that were sent whole, in whatever chunks the wire
      arrives, also if the connection ends within another frame. */
  lemma SentFramesArrive(wires: seq<seq<Byte>>, payloads: seq<seq<Byte>>, last: seq<Byte>, k: nat, answers: seq<Answer>)
    requires Sends(wires, payloads) && wires[0] == [] && Framable(payloads)
    requires |last| < LENGTH_RANGE && k < |Frame(last)|
    requires EndsInClose(answers) && Chunks(answers) == wires[|payloads|] + Frame(last)[..k]
    ensures Listen(Conn([], true), answers) == (payloads, Conn(Frame(last)[..k], false))
  {
    SendsStream(wires, payloads);
    assert [] + Stream(payloads) == Stream(payloads);
    PartOfFrame(last, k);
    FramesSurviveChunking(answers, payloads, Frame(last)[..k]);
  }

  // ------------------------------------------------------------ the socket

  /** One answer of send: bytes taken, interrupted, or an error. */
  datatype Sent = Took(n: nat) | Interrupted | Failed

  lemma YesOrNo(r: Option<bool>)
    ensures r == None || r == Some(true) || r == Some(false)
  {
    if r.Some? {
      assert r == if r.value then Some(true) else Some(false);
    }
  }

  /** The bytes that the answers take, up to the first error. */
  function Room(answers: seq<Sent>): nat {
    if answers == [] then 0
    else match answers[0] case Interrupted => Room(answers[1..]) case Failed => 0 case Took(n) => n + Room(answers[1..])
  }

  predicate Fails(answers: seq<Sent>) { exists i :: 0 <= i < |answers| && answers[i].Failed? }

  /** The answers that a call of Send with `n` bytes leaves. */
  function LeftAfter(answers: seq<Sent>, n: nat): seq<Sent>
    decreases |answers|
  {
    if n == 0 || answers == [] then answers
    else
      match answers[0]
      case Interrupted => LeftAfter(answers[1..], n)
      case Failed => answers[1..]
      case Took(k) => LeftAfter(answers[1..], n - Least(k, n))
  }

  /** No answer takes more than is left of `n` bytes. */
  predicate Honest(answers: seq<Sent>, n: nat)
    decreases |answers|
  {
    n == 0 || answers == [] ||
    match answers[0]
    case Interrupted => Honest(answers[1..], n)
    case Failed => true
    case Took(k) => k <= n && Honest(answers[1..], n - k)
  }

  /** Answers that do not take more than they are given are shared out between two calls. */
  lemma {:induction false} RoomSplits(answers: seq<Sent>, n: nat)
    requires Honest(answers, n) && n <= Room(answers)
    ensures Room(answers) == n + Room(LeftAfter(answers, n))
    decreases |answers|
  {
    if n != 0 && answers != [] {
      match answers[0] {
        case Interrupted => RoomSplits(answers[1..], n);
        case Failed =>
        case Took(k) => RoomSplits(answers[1..], n - k);
      }
    }
  }

  /** What a call of Send on a living connection returns for `n` bytes. */
  function SendResult(answers: seq<Sent>, n: nat): Option<bool> {
    if n <= Room(answers) then Some(true) else if Fails(answers) then Some(false) else None
  }

  lemma FailsFirst(answers: seq<Sent>)
    requires answers != []
    ensures Fails(answers) <==> answers[0].Failed? || Fails(answers[1..])
  {
    if Fails(answers) && !answers[0].Failed? {
      var i :| 0 <= i < |answers| && answers[i].Failed?;
      assert answers[1..][i - 1].Failed?;
    }
    if Fails(answers[1..]) {
      var i :| 0 <= i < |answers[1..]| && answers[1..][i].Failed?;
      assert answers[i + 1].Failed?;
    }
  }

  /** How much of a frame goes out: the header, and behind it the payload. */
  function SentOf(payload: seq<Byte>, answers: seq<Sent>): (n: nat)
    ensures n <= |Frame(payload)|
  {
    if Room(answers) < HEADER then Room(answers)
    else HEADER + Least(|payload|, Room(LeftAfter(answers, HEADER)))
  }

  lemma FramePrefix(payload: seq<Byte>, header: seq<Byte>, i: nat, j: nat)
    requires header == Le32(|payload| % LENGTH_RANGE) && i <= HEADER && j <= |payload| && (0 < j ==> i == HEADER)
    ensures Frame(payload)[..i + j] == header[..i] + payload[..j]
  {
  }

  class ClientSocket {
    var incoming: seq<Byte>
    var connected: bool
    ghost var wire: seq<Byte>

    constructor ()
      ensures connected && incoming == [] && wire == []
    {
      connected, incoming, wire := true, [], [];
    }

    /** Send: `answers` is what send returns, one call after the other; the result is missing if the
        call is still waiting when they are used up.  What goes out, the result and the fate of the
        connection follow from the answers alone. */
    method Send(bytes: seq<Byte>, answers: seq<Sent>) returns (r: Option<bool>, rest: seq<Sent>)
      modifies this`connected, this`wire
      ensures old(!connected) || bytes == [] ==>
                r == Some(false) && rest == answers && wire == old(wire) && connected == old(connected)
      ensures old(connected) && bytes != [] ==>
                && wire == old(wire) + bytes[..Least(|bytes|, Room(answers))]
                && r == SendResult(answers, |bytes|) && connected == (r != Some(false))
                && rest == LeftAfter(answers, |bytes|) && (r == None ==> rest == [])
    {
      rest := answers;
      if !connected || bytes == [] {
        return Some(false), rest;
      }
      var total: nat := 0;
      while total < |bytes| && rest != []
        invariant total <= |bytes| && connected && wire == old(wire) + bytes[..total]
        invariant if total < |bytes| then Room(answers) == total + Room(rest) else |bytes| <= Room(answers)
        invariant total < |bytes| ==> (Fails(answers) <==> Fails(rest))
        invariant LeftAfter(answers, |bytes|) == LeftAfter(rest, |bytes| - total)
        decreases |rest|
      {
        FailsFirst(rest);
        var answer := rest[0];
        rest := rest[1..];
        match answer {
          case Interrupted =>
          case Failed =>
            connected := false;
            return Some(false), rest;
          case Took(n) =>
            var k := if n < |bytes| - total then n else |bytes| - total;
            assert bytes[..total] + bytes[total..total + k] == bytes[..total + k];
            wire := wire + bytes[total..total + k];
            total := total + k;
        }
      }
      r := if total == |bytes| then Some(true) else None;
    }

    /** SendFramed: nothing but the frame goes out, as much of it as the answers take; so enough room
        sends it all.  The result says whether it went out, except for an empty payload on a connection
        that lives. */
    method SendFramed(payload: seq<Byte>, answers: seq<Sent>) returns (r: Option<bool>, rest: seq<Sent>)
      modifies this`connected, this`wire
      ensures !old(connected) ==> r == Some(false) && wire == old(wire)
      ensures old(connected) ==>
                var left := LeftAfter(answers, HEADER);
                && wire == old(wire) + Frame(payload)[..SentOf(payload, answers)]
                && (Room(answers) < HEADER ==> r == SendResult(answers, HEADER) && rest == left)
                && (HEADER <= Room(answers) ==>
                      && r == (if payload == [] then Some(false) else SendResult(left, |payload|))
                      && rest == if payload == [] then left else LeftAfter(left, |payload|))
                && connected == (r != Some(false) || (payload == [] && HEADER <= Room(answers)))
      ensures old(connected) && Honest(answers, HEADER) ==>
                wire == old(wire) + Frame(payload)[..Least(|Frame(payload)|, Room(answers))]
      ensures old(connected) && connected && r.Some? ==> wire == old(wire) + Frame(payload) && (r.value <==> payload != [])
      ensures r.Some? && payload != [] ==> (r.value <==> wire == old(wire) + Frame(payload))
      ensures r.Some? ==> ((r.value <==> wire == old(wire) + Frame(payload)) <==> payload != [] || !old(connected) || !connected)
      ensures !connected ==> r == Some(false)
    {
      var header := Le32(|payload| % LENGTH_RANGE);
      ghost var wire0 := wire;
      r, rest := Send(header, answers);
      YesOrNo(r);
      FramePrefix(payload, header, Least(HEADER, Room(answers)), 0);
      if HEADER <= Room(answers) && Honest(answers, HEADER) {
        RoomSplits(answers, HEADER);
      }
      if r == Some(true) {
        ghost var left := rest;
        r, rest := Send(payload, rest);
        YesOrNo(r);
        FramePrefix(payload, header, HEADER, Least(|payload|, Room(left)));
        assert wire0 + header[..HEADER] + payload[..Least(|payload|, Room(left))]
            == wire0 + (header[..HEADER] + payload[..Least(|payload|, Room(left))]);
        assert payload == [] ==> wire0 + header[..HEADER] == wire0 + header[..HEADER] + payload[..0];
        assert Frame(payload)[..|Frame(payload)|] == Frame(payload);
      }
    }

    /** TryPopBufferedFrame: the loop runs at most once. */
    method TryPopBufferedFrame(out: WBuffer) returns (ok: bool)
      requires out.Valid() && |incoming| <= HALF
      modifies this`incoming, out
      ensures out.Valid() && ok == Pop(old(incoming)).Some?
      ensures ok ==> Queue(out.Now()) == Pop(old(incoming)).value.0 && incoming == Pop(old(incoming)).value.1
      ensures !ok ==> incoming == old(incoming) && out.Now() == old(out.Now())
    {
      ok := false;
      if |incoming| >= HEADER {
        var length := FromLe32(incoming);
        if |incoming| < HEADER + length {
          return;
        }
        out.Reset();
        out.WriteBytes(incoming[HEADER..HEADER + length]);
        incoming := incoming[HEADER + length..];
        ok := true;
      }
    }

    /** ReceiveFramed with the next answer of recv, if it gets to ask. */
    method ReceiveFramed(out: WBuffer, answers: seq<Answer>) returns (ok: bool, rest: seq<Answer>)
      requires out.Valid() && answers != [] && |incoming| + |Chunks(answers[..1])| <= HALF
      modifies this`incoming, this`connected, out
      ensures out.Valid()
      ensures !old(connected) ==> !ok && rest == answers && incoming == old(incoming) && !connected
      ensures var r := Receive(old(Conn(incoming, connected)), answers);
              && Conn(incoming, connected) == r.conn && rest == r.answers && ok == r.frame.Some?
              && (ok ==> Queue(out.Now()) == r.frame.value)
    {
      rest := answers;
      if !connected {
        return false, rest;
      }
      ok := TryPopBufferedFrame(out);
      if ok {
        return;
      }
      rest := answers[1..];
      match answers[0] {
        case Bytes(chunk) =>
          assert answers[..1][1..] == [] && Chunks(answers[..1]) == chunk + [];
          incoming := incoming + chunk;
          ok := TryPopBufferedFrame(out);
        case Again =>
        case Shutdown => connected := false;
        case Broken => connected := false;
      }
    }
  }
}
