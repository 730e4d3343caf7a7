/** What one router does with one packet: internal/router/router.go as a function of its tables. */
module Forwarding {
  import opened Bytes
  import opened Netip
  import opened LabelStack
  import opened Lfib
  import opened IpHeader
  import Fib
  import Nexthop

  datatype PacketType = PacketIP | PacketMPLS

  /** A packet with the bytes it has at one moment; `transport` is where it came in. */
  datatype Packet = Packet(typ: PacketType, data: seq<byte>, transport: string)

  /** A call the router makes to the outside. */
  datatype Output =
    | Inject(nic: string, data: seq<byte>)
    | Write(name: string, pkt: Packet)
  {
    function Bytes(): seq<byte> {
      match this
      case Inject(_, data) => data
      case Write(_, pkt) => pkt.data
    }
  }

  /** Handling a packet makes at most one such call; Crash is Go's index panic. */
  datatype Outcome = Drop | Crash | Sent(out: Output)

  /** Everything a router consults. `order` is the order in which Go happens to visit the
      resolver's map. */
  datatype Tables = Tables(
    routes: seq<Fib.FIBEntry>,
    transportIPs: Nexthop.TransportIPs,
    order: seq<string>,
    resolverRoutes: seq<Fib.FIBEntry>,
    lfib: Option<LabelTable>,
    transports: set<string>,
    isLocal: Addr -> bool,
    nicForAddr: Addr -> (string, bool))

  function DetectPacketType(data: seq<byte>): PacketType {
    if |data| < 1 then PacketIP
    else
      var v := data[0] >> 4;
      if v == 4 || v == 6 then PacketIP
      else if HasLabel(data) then PacketMPLS
      else PacketIP
  }

  function Destination(data: seq<byte>): Addr
    requires IsIp(data)
  {
    if IsV4(data) then AddrFrom4(data[16..20]) else AddrFrom16(data[24..40])
  }

  /** The bytes a destination is read from. */
  function DestinationBytes(data: seq<byte>): seq<byte>
    requires IsIp(data)
  {
    if IsV4(data) then data[16..20] else data[24..40]
  }

  /** Two packets have one destination exactly when version and destination bytes agree. */
  lemma DestinationExactly(data: seq<byte>, data': seq<byte>)
    requires IsIp(data) && IsIp(data')
    ensures Destination(data) == Destination(data')
       <==> IsV4(data) == IsV4(data') && DestinationBytes(data) == DestinationBytes(data')
  {
    if IsV4(data) == IsV4(data') {
      BigEndianInjective(DestinationBytes(data), DestinationBytes(data'));
    }
  }

  /** The destination's value has bytes 16 to 19 of an IPv4 packet, or 24 to 39 of an IPv6 packet,
      in order. */
  lemma DestinationValue(data: seq<byte>)
    requires IsIp(data)
    ensures data[0] >> 4 == 4 ==>
              Destination(data).V4? &&
              forall i :: 0 <= i < 4 ==> ByteAt(Destination(data).value, 4, i) == data[16 + i] as nat
    ensures data[0] >> 4 == 6 ==>
              Destination(data).V6? && Destination(data).zone == "" &&
              forall i :: 0 <= i < 16 ==> ByteAt(Destination(data).value, 16, i) == data[24 + i] as nat
  {
    var bytes := DestinationBytes(data);
    forall i | 0 <= i < |bytes|
      ensures ByteAt(BigEndian(bytes), |bytes|, i) == bytes[i] as nat
    {
      BigEndianBytes(bytes, i);
    }
  }

  /** The transport of the route, else that of its next hop, else the one the packet came in by. */
  function TransportFor(t: Tables, e: Fib.FIBEntry, from: string): string {
    var own := e.transport;
    var resolved :=
      if own == "" && e.nextHop.IsValid()
      then Nexthop.Resolved(t.transportIPs, t.resolverRoutes, t.order, e.nextHop).0 else own;
    if resolved == "" then from else resolved
  }

  function NicFor(t: Tables, e: Fib.FIBEntry, from: string): string {
    var nic := if e.transport == "" then t.nicForAddr(e.nextHop).0 else e.transport;
    if nic == "" then from else nic
  }

  function WriteTo(t: Tables, name: string, pkt: Packet): Outcome {
    if name in t.transports then Sent(Write(name, pkt)) else Drop
  }

  function ForwardByFIB(t: Tables, pkt: Packet, e: Fib.FIBEntry): Outcome {
    match e.action
    case ActionLocal => Sent(Inject(NicFor(t, e, pkt.transport), pkt.data))
    case ActionForward => WriteTo(t, TransportFor(t, e, pkt.transport), pkt)
    case ActionPush =>
      WriteTo(t, TransportFor(t, e, pkt.transport),
              Packet(PacketMPLS, PushAll(pkt.data, e.outLabels), pkt.transport))
  }

  function RouteOut(t: Tables, pkt: Packet, dst: Addr): Outcome {
    match Fib.FirstMatch(t.routes, dst)
    case None => Drop
    case Some(e) => ForwardByFIB(t, pkt, e)
  }

  /** The hop count reaches zero here. */
  predicate Expires(data: seq<byte>)
    requires IsIp(data)
  {
    Ttl(data) == 1
  }

  function ProcessIP(t: Tables, data: seq<byte>, from: string): Outcome {
    if !IsIp(data) then Drop
    else if t.isLocal(Destination(data)) then
      var (nic, ok) := t.nicForAddr(Destination(data));
      if ok then Sent(Inject(nic, data)) else Drop
    else if Expires(data) then Drop
    else RouteOut(t, Packet(PacketIP, Forwarded(data), from), Destination(data))
  }

  function EntryFor(t: Tables, lbl: uint32): Option<LFIBEntry> {
    if t.lfib.Some? then Find(t.lfib.value, lbl) else None
  }

  /** The label table entry that governs a labelled packet. */
  function Governing(t: Tables, data: seq<byte>): Option<LFIBEntry> {
    if Pop(data).Some? then EntryFor(t, Pop(data).value.0) else None
  }

  function Process(t: Tables, typ: PacketType, data: seq<byte>, from: string): Outcome
    decreases |data|, 1
  {
    match typ
    case PacketIP => ProcessIP(t, data, from)
    case PacketMPLS => ProcessMPLS(t, data, from)
  }

  function ProcessMPLS(t: Tables, data: seq<byte>, from: string): Outcome
    decreases |data|, 0
  {
    match Governing(t, data)
    case None => Drop
    case Some(e) =>
      var payload := Pop(data).value.1;
      match e.op
      case OpPop => Process(t, DetectPacketType(payload), payload, from)
      case OpPHP => Process(t, DetectPacketType(payload), payload, from)
      case OpSwap =>
        if e.outLabels == [] then Crash
        else WriteTo(t, e.transport, Packet(PacketMPLS, Push(payload, e.outLabels[0]), from))
      case OpPush => WriteTo(t, e.transport, Packet(PacketMPLS, PushAll(payload, e.outLabels), from))
  }

  // What is left in the packet's buffer

  function ResidueIP(t: Tables, data: seq<byte>): (r: seq<byte>)
    ensures |r| == |data|
  {
    if !IsIp(data) || t.isLocal(Destination(data)) then data
    else if Expires(data) then Aged(data)
    else Forwarded(data)
  }

  /** The bytes the router leaves where the packet was: rewriting and swapping work in place,
      pushing does not. */
  function Residue(t: Tables, typ: PacketType, data: seq<byte>): (r: seq<byte>)
    ensures |r| == |data|
    decreases |data|
  {
    if typ == PacketIP then ResidueIP(t, data)
    else
      match Governing(t, data)
      case None => data
      case Some(e) =>
        var (head, payload) := (data[..4], data[4..]);
        match e.op
        case OpPop => head + Residue(t, DetectPacketType(payload), payload)
        case OpPHP => head + Residue(t, DetectPacketType(payload), payload)
        case OpSwap => if e.outLabels == [] then data else Push(payload, e.outLabels[0])
        case OpPush => data
  }
}
