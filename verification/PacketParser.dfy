/** ifb_cls_egress of Source/EBPF/EBPFTraffic.h: find the destination port of a packet in its raw
    bytes and choose the mark that shapes it.  Indexing past the end is a failed proof here, so the
    definitions also show that nothing at or behind data_end is read. */
module PacketParser {
  import opened Wrappers
  import opened Bytes

  const ETH_P_IP := 0x0800
  const ETH_P_IPV6 := 0x86DD
  const IPPROTO_TCP := 6
  const IPPROTO_UDP := 17
  const ETH_HEADER := 14

  /** A 16-bit field in network order, as bpf_ntohs yields it. */
  function Field16(data: seq<Byte>, i: nat): (v: int)
    requires i + 2 <= |data|
    ensures 0 <= v < 0x10000
  {
    data[i] as int * 0x100 + data[i + 1] as int
  }

  /** Protocol and transport offset of the IPv4 header at `off`. */
  function Ipv4At(data: seq<Byte>, off: nat): Option<(int, nat)> {
    if off + 20 > |data| then None
    else if data[off] / 16 != 4 then None
    else
      var len := data[off] % 16 * 4;
      if len < 20 || len > 60 then None else Some((data[off + 9], off + len))
  }

  /** The same for IPv6; extension headers are not followed. */
  function Ipv6At(data: seq<Byte>, off: nat): Option<(int, nat)> {
    if off + 40 > |data| then None else Some((data[off + 6], off + 40))
  }

  function TransportOf(data: seq<Byte>): Option<(int, nat)> {
    if |data| < 1 then None
    else
      var version := data[0] / 16;
      if version == 4 then Ipv4At(data, 0)
      else if version == 6 then Ipv6At(data, 0)
      else if ETH_HEADER > |data| then None
      else if Field16(data, 12) == ETH_P_IP then Ipv4At(data, ETH_HEADER)
      else if Field16(data, 12) == ETH_P_IPV6 then Ipv6At(data, ETH_HEADER)
      else None
  }

  /** The destination port, if the packet is TCP or UDP and its transport header is complete. */
  function DestinationPort(data: seq<Byte>): Option<int> {
    match TransportOf(data)
    case None => None
    case Some((proto, off)) =>
      if proto == IPPROTO_TCP then if off + 20 > |data| then None else Some(Field16(data, off + 2))
      else if proto == IPPROTO_UDP then if off + 8 > |data| then None else Some(Field16(data, off + 2))
      else None
  }

  // ------------------------------------------------------------ packets as the standards lay them out

  /** A TCP or UDP header with what follows it; `rest` starts behind the two ports. */
  datatype Segment = Segment(tcp: bool, source: int, dest: int, rest: seq<Byte>) {
    predicate Complete() {
      0 <= source < 0x10000 && 0 <= dest < 0x10000 && |rest| >= if tcp then 16 else 4
    }

    function Protocol(): Byte { if tcp then IPPROTO_TCP else IPPROTO_UDP }
  }

  /** IPv4 (section 3.1 of RFC 791, any header length) and IPv6 without extension headers
      (section 3 of RFC 8200).  `before` and `after` are the header bytes around the protocol. */
  datatype Packet =
    | V4(ihl: int, before: seq<Byte>, after: seq<Byte>, segment: Segment)
    | V6(low: int, before: seq<Byte>, after: seq<Byte>, segment: Segment)
  {
    predicate WellFormed() {
      segment.Complete() &&
      match this
      case V4(ihl, before, after, _) => 5 <= ihl <= 15 && |before| == 8 && |after| == 4 * ihl - 10
      case V6(low, before, after, _) => 0 <= low < 16 && |before| == 5 && |after| == 33
    }
  }

  function Be16(v: int): (s: seq<Byte>)
    requires 0 <= v < 0x10000
    ensures |s| == 2 && Field16(s, 0) == v
  {
    [v / 0x100, v % 0x100]
  }

  function SegmentBytes(s: Segment): seq<Byte>
    requires s.Complete()
  {
    Be16(s.source) + Be16(s.dest) + s.rest
  }

  function PacketBytes(p: Packet): seq<Byte>
    requires p.WellFormed()
  {
    var first: Byte := match p case V4(ihl, _, _, _) => 64 + ihl case V6(low, _, _, _) => 96 + low;
    [first] + p.before + [p.segment.Protocol()] + p.after + SegmentBytes(p.segment)
  }

  function FrameBytes(mac: seq<Byte>, p: Packet): seq<Byte>
    requires |mac| == 12 && p.WellFormed()
  {
    mac + Be16(if p.V4? then ETH_P_IP else ETH_P_IPV6) + PacketBytes(p)
  }

  function HeaderLength(p: Packet): nat
    requires p.WellFormed()
  {
    if p.V4? then 4 * p.ihl else 40
  }

  /** The bytes of a packet that the parser looks at, behind any prefix. */
  lemma PacketLayout(prefix: seq<Byte>, p: Packet)
    requires p.WellFormed()
    ensures var data := prefix + PacketBytes(p); var off := |prefix|; var t := off + HeaderLength(p);
            && |data| == t + 4 + |p.segment.rest|
            && data[off] == (if p.V4? then 64 + p.ihl else 96 + p.low)
            && data[off + if p.V4? then 9 else 6] == p.segment.Protocol()
            && Field16(data, t + 2) == p.segment.dest
  {
    var data := prefix + PacketBytes(p);
    var off := |prefix|;
    var t := off + HeaderLength(p);
    assert data[t..] == SegmentBytes(p.segment);
    assert data[t + 2] == SegmentBytes(p.segment)[2] == Be16(p.segment.dest)[0];
    assert data[t + 3] == SegmentBytes(p.segment)[3] == Be16(p.segment.dest)[1];
  }

  /** A bare packet yields its destination port. */
  lemma BarePacketFound(p: Packet)
    requires p.WellFormed()
    ensures DestinationPort(PacketBytes(p)) == Some(p.segment.dest)
  {
    PacketLayout([], p);
    assert [] + PacketBytes(p) == PacketBytes(p);
  }

  /** So does one behind an Ethernet header, unless the first address nibble looks like an IP version. */
  lemma FramedPacketFound(mac: seq<Byte>, p: Packet)
    requires |mac| == 12 && mac[0] / 16 != 4 && mac[0] / 16 != 6 && p.WellFormed()
    ensures DestinationPort(FrameBytes(mac, p)) == Some(p.segment.dest)
  {
    var head := mac + Be16(if p.V4? then ETH_P_IP else ETH_P_IPV6);
    var data := FrameBytes(mac, p);
    assert data == head + PacketBytes(p);
    PacketLayout(head, p);
    assert data[0] == mac[0];
    assert data[12] == head[12] && data[13] == head[13];
    assert Field16(data, 12) == Field16(head, 12) == if p.V4? then ETH_P_IP else ETH_P_IPV6;
  }

  /** A packet whose port every other address hides. */
  function Probe(): (p: Packet)
    ensures p.WellFormed() && p.segment.dest == 1
  {
    V4(5, seq(8, _ => 0), seq(10, _ => 0), Segment(false, 0, 1, seq(16, _ => 0)))
  }

  lemma ProbeBytes(mac: seq<Byte>)
    requires |mac| == 12
    ensures var data := FrameBytes(mac, Probe());
            && |data| == 54 && data[0] == mac[0] && data[9] == mac[9] && data[6] == mac[6]
            && data[12] == 8 && data[13] == 0 && data[14] == 69 && data[23] == 17 && data[37] == 1
            && forall i :: 15 <= i < 54 && i != 23 && i != 37 ==> data[i] == 0
  {
    var p := Probe();
    var body := PacketBytes(p);
    assert body == [69] + p.before + [17] + p.after + SegmentBytes(p.segment);
    assert SegmentBytes(p.segment) == [0, 0, 0, 1] + p.segment.rest;
    assert FrameBytes(mac, p) == mac + [8, 0] + body;
  }

  lemma ProbeMissed(mac: seq<Byte>)
    requires |mac| == 12 && (mac[0] / 16 == 4 || mac[0] / 16 == 6)
    ensures DestinationPort(FrameBytes(mac, Probe())) != Some(1)
  {
    ProbeBytes(mac);
  }

  /** Addresses that start like an IPv4 header of impossible length even hide the port of every packet
      behind them. */
  lemma FramedPacketMissed(mac: seq<Byte>, p: Packet)
    requires |mac| == 12 && mac[0] / 16 == 4 && mac[0] % 16 < 5 && p.WellFormed()
    ensures DestinationPort(FrameBytes(mac, p)) == None
  {
    var data := FrameBytes(mac, p);
    assert data[0] == mac[0];
    PacketLayout(mac + Be16(if p.V4? then ETH_P_IP else ETH_P_IPV6), p);
  }

  /** Which addresses are safe: behind a hardware address, every well-formed packet yields its port if
      and only if the first nibble of the address does not look like an IP version. */
  lemma SafeAddresses(mac: seq<Byte>)
    requires |mac| == 12
    ensures (forall p: Packet :: p.WellFormed() ==> DestinationPort(FrameBytes(mac, p)) == Some(p.segment.dest))
            <==> mac[0] / 16 != 4 && mac[0] / 16 != 6
  {
    if mac[0] / 16 == 4 || mac[0] / 16 == 6 {
      ProbeMissed(mac);
      assert Probe().WellFormed();
    } else {
      forall p: Packet | p.WellFormed()
        ensures DestinationPort(FrameBytes(mac, p)) == Some(p.segment.dest)
      {
        FramedPacketFound(mac, p);
      }
    }
  }

  /** Conversely, a port is only ever read from a TCP or UDP header that is complete and starts where
      an IP header, bare or behind an Ethernet header, says that it does. */
  lemma FoundPortIsInPacket(data: seq<Byte>) returns (off: nat, t: nat, proto: int, v4: bool)
    requires DestinationPort(data).Some?
    ensures off == (if data[0] / 16 == 4 || data[0] / 16 == 6 then 0 else 14)
    ensures v4 == if off == 0 then data[0] / 16 == 4 else Field16(data, 12) == 0x0800
    ensures off == 14 && !v4 ==> Field16(data, 12) == 0x86DD
    ensures proto == 6 || proto == 17
    ensures t + (if proto == 6 then 20 else 8) <= |data| && off + 20 <= t
    ensures if v4 then data[off] / 16 == 4 && t == off + data[off] % 16 * 4 && t <= off + 60 && data[off + 9] == proto
            else t == off + 40 && data[off + 6] == proto
    ensures DestinationPort(data) == Some(Field16(data, t + 2))
  {
    proto, t := TransportOf(data).value.0, TransportOf(data).value.1;
    off := if data[0] / 16 == 4 || data[0] / 16 == 6 then 0 else ETH_HEADER;
    v4 := if off == 0 then data[0] / 16 == 4 else Field16(data, 12) == ETH_P_IP;
  }

  // ------------------------------------------------------------ the mark

  /** The maps that the classifier consults. */
  datatype Maps = Maps(portMarks: map<int, int>, portToPid: map<int, int>, pidMarks: map<int, int>)

  /** The mark of the packet after the classifier; `mark` is the one it had. */
  function Classified(m: Maps, data: seq<Byte>, mark: int): int {
    match DestinationPort(data)
    case None => mark
    case Some(port) =>
      if port in m.portMarks && m.portMarks[port] != 0 then m.portMarks[port]
      else if port in m.portToPid && m.portToPid[port] in m.pidMarks && m.pidMarks[m.portToPid[port]] != 0
      then m.pidMarks[m.portToPid[port]]
      else mark
  }

  /** A packet to a port without a mark of its own gets the mark of the process that owns the port;
      this holds for every layout that the parser understands. */
  lemma ShapedByOwner(m: Maps, mac: seq<Byte>, p: Packet, mark: int)
    requires p.WellFormed() && |mac| == 12 && mac[0] / 16 != 4 && mac[0] / 16 != 6
    requires var port := p.segment.dest;
             && (port in m.portMarks ==> m.portMarks[port] == 0)
             && port in m.portToPid && m.portToPid[port] in m.pidMarks && m.pidMarks[m.portToPid[port]] != 0
    ensures Classified(m, PacketBytes(p), mark) == m.pidMarks[m.portToPid[p.segment.dest]]
    ensures Classified(m, FrameBytes(mac, p), mark) == m.pidMarks[m.portToPid[p.segment.dest]]
  {
    BarePacketFound(p);
    FramedPacketFound(mac, p);
  }

  /** A mark of the port itself comes first, whoever owns the port. */
  lemma ShapedByPort(m: Maps, mac: seq<Byte>, p: Packet, mark: int)
    requires p.WellFormed() && |mac| == 12 && mac[0] / 16 != 4 && mac[0] / 16 != 6
    requires p.segment.dest in m.portMarks && m.portMarks[p.segment.dest] != 0
    ensures Classified(m, PacketBytes(p), mark) == m.portMarks[p.segment.dest]
    ensures Classified(m, FrameBytes(mac, p), mark) == m.portMarks[p.segment.dest]
  {
    BarePacketFound(p);
    FramedPacketFound(mac, p);
  }

  /** A packet whose port has no mark in either map keeps the mark it had. */
  lemma UnmarkedKept(m: Maps, mac: seq<Byte>, p: Packet, mark: int)
    requires p.WellFormed() && |mac| == 12 && mac[0] / 16 != 4 && mac[0] / 16 != 6
    requires var port := p.segment.dest;
             && (port in m.portMarks ==> m.portMarks[port] == 0)
             && (port in m.portToPid && m.portToPid[port] in m.pidMarks ==> m.pidMarks[m.portToPid[port]] == 0)
    ensures Classified(m, PacketBytes(p), mark) == mark && Classified(m, FrameBytes(mac, p), mark) == mark
  {
    BarePacketFound(p);
    FramedPacketFound(mac, p);
  }

  /** A packet without a port keeps its mark: one that is too short, of another protocol, or no IP at all. */
  lemma NoPortKept(m: Maps, data: seq<Byte>, mark: int)
    requires DestinationPort(data).None?
    ensures Classified(m, data, mark) == mark
  {
  }

  /** So does every IP packet, bare, that carries neither TCP nor UDP. */
  lemma OtherProtocolKept(m: Maps, data: seq<Byte>, mark: int)
    requires |data| >= 40 && (data[0] / 16 == 4 || data[0] / 16 == 6)
    requires var proto := data[if data[0] / 16 == 4 then 9 else 6]; proto != 6 && proto != 17
    ensures Classified(m, data, mark) == mark
  {
  }
}
