/** The router object of internal/router/router.go, working on packets in shared buffers. */
module Router {
  import opened Bytes
  import opened Netip
  import opened LabelStack
  import opened Lfib
  import opened IpHeader
  import opened Forwarding
  import Fib
  import Nexthop
  import Checksum

  /** A packet whose bytes live in a buffer others may hold too. */
  datatype PacketRef = PacketRef(typ: PacketType, data: Slice, transport: string)

  function Sendings(o: Outcome): seq<Output> {
    if o.Sent? then [o.out] else []
  }

  class Router {
    const fib: Fib.FIB
    const nexthop: Nexthop.NexthopResolver
    const lfib: LFIB?
    const isLocal: Addr -> bool
    const nicForAddr: Addr -> (string, bool)
    var transports: set<string>
    /** The InjectInbound and Write calls made so far. */
    var outputs: seq<Output>

    constructor (fib: Fib.FIB, nexthop: Nexthop.NexthopResolver, lfib: LFIB?, isLocal: Addr -> bool,
                 nicForAddr: Addr -> (string, bool))
      ensures this.fib == fib && this.nexthop == nexthop && this.lfib == lfib
      ensures this.isLocal == isLocal && this.nicForAddr == nicForAddr
      ensures transports == {} && outputs == []
    {
      this.fib := fib;
      this.nexthop := nexthop;
      this.lfib := lfib;
      this.isLocal := isLocal;
      this.nicForAddr := nicForAddr;
      transports := {};
      outputs := [];
    }

    method AddTransport(name: string)
      modifies this`transports
      ensures transports == old(transports) + {name}
    {
      transports := transports + {name};
    }

    method RemoveTransport(name: string)
      modifies this`transports
      ensures transports == old(transports) - {name}
    {
      transports := transports - {name};
    }

    ghost predicate Valid()
      reads fib, fib.data, nexthop.fib, nexthop.fib.data
    {
      fib.Valid() && nexthop.fib.Valid()
    }

    /** A packet buffer is not a route array: their element types differ. */
    ghost predicate Apart(data: Slice)
      reads fib, nexthop.fib
    {
      data.arr as object != fib.data && data.arr as object != nexthop.fib.data
    }

    /** The tables as they stand, for one visiting order of the resolver's map. */
    ghost function View(order: seq<string>): Tables
      requires Valid()
      reads this, fib, fib.data, nexthop, nexthop.fib, nexthop.fib.data, if lfib == null then {} else {lfib}
    {
      Tables(fib.Routes(), nexthop.transportIPs, order, nexthop.fib.Routes(),
             if lfib == null then None else Some(lfib.entries), transports, isLocal, nicForAddr)
    }

    method WritePacket(name: string, pkt: PacketRef)
      requires pkt.data.Valid()
      modifies this`outputs
      ensures outputs == old(outputs) +
                (if name in transports then [Write(name, Packet(pkt.typ, pkt.data.View(), pkt.transport))] else [])
    {
      if name in transports {
        outputs := outputs + [Write(name, Packet(pkt.typ, pkt.data.arr[pkt.data.lo..pkt.data.hi], pkt.transport))];
      }
    }

    /** The route's transport, with its two fallbacks. */
    method ChooseTransport(entry: Fib.FIBEntry, from: string, order: seq<string>) returns (name: string)
      requires Valid() && Nexthop.IsOrder(order, nexthop.transportIPs.Keys)
      ensures name == TransportFor(View(order), entry, from)
    {
      name := entry.transport;
      if name == "" && entry.nextHop.IsValid() {
        var found;
        name, found := nexthop.Resolve(entry.nextHop, order);
      }
      if name == "" && from != "" {
        name := from;
      }
    }

    method ForwardByFIB(pkt: PacketRef, entry: Fib.FIBEntry, order: seq<string>)
      requires Valid() && pkt.data.Valid() && Nexthop.IsOrder(order, nexthop.transportIPs.Keys)
      modifies this`outputs
      ensures Valid()
      ensures outputs == old(outputs) + Sendings(Forwarding.ForwardByFIB(old(View(order)),
                           Packet(pkt.typ, old(pkt.data.View()), pkt.transport), entry))
    {
      var transportName := ChooseTransport(entry, pkt.transport, order);
      match entry.action {
        case ActionLocal =>
          var nicName := entry.transport;
          if nicName == "" {
            nicName := nicForAddr(entry.nextHop).0;
          }
          if nicName == "" {
            nicName := pkt.transport;
          }
          outputs := outputs + [Inject(nicName, pkt.data.arr[pkt.data.lo..pkt.data.hi])];
        case ActionForward =>
          WritePacket(transportName, pkt);
        case ActionPush =>
          var data := PushLabels(pkt.data, entry.outLabels);
          WritePacket(transportName, PacketRef(PacketMPLS, data, pkt.transport));
      }
    }

    /** Looks the destination up and sends the packet on. */
    method RouteOut(pkt: PacketRef, dst: Addr, order: seq<string>)
      requires Valid() && pkt.data.Valid() && Nexthop.IsOrder(order, nexthop.transportIPs.Keys)
      modifies this`outputs
      ensures Valid()
      ensures outputs == old(outputs) + Sendings(Forwarding.RouteOut(old(View(order)),
                           Packet(pkt.typ, old(pkt.data.View()), pkt.transport), dst))
    {
      var entry := fib.Lookup(dst);
      if entry.Some? {
        ForwardByFIB(pkt, entry.value, order);
      }
    }

    /** Recomputes the checksum of the first 20 bytes where they stand. */
    method RenewChecksum(data: Slice)
      requires data.Valid() && data.Len() >= 20
      modifies data.arr
      ensures Rewrote(data, old(data.arr[..]), Refreshed(old(data.View())))
    {
      Put(data, 10, 0);
      Put(data, 11, 0);
      var header := data.First(20);
      data.FirstView(20);
      var cs := Checksum.Checksum(header);
      Put(data, 10, ToByte(cs / 256));
      Put(data, 11, ToByte(cs % 256));
    }

    /** Decrements the hop count where it stands. */
    method DecrementTtl(data: Slice, v4: bool) returns (ttl: byte)
      requires data.Valid() && IsIp(data.View()) && v4 == IsV4(data.View())
      modifies data.arr
      ensures ttl == Ttl(old(data.View())) - 1
      ensures Rewrote(data, old(data.arr[..]), Aged(old(data.View())))
    {
      var ttlIdx := if v4 then TTL4 else TTL6;
      ttl := data.arr[data.lo + ttlIdx] - 1;
      Put(data, ttlIdx, ttl);
    }

    /** Takes one hop off the packet in its buffer and renews the IPv4 checksum; `alive` says
        the hop count did not reach zero. */
    method AgeInPlace(data: Slice) returns (alive: bool)
      requires data.Valid() && IsIp(data.View())
      modifies data.arr
      ensures alive <==> !Expires(old(data.View()))
      ensures Rewrote(data, old(data.arr[..]), if alive then Forwarded(old(data.View())) else Aged(old(data.View())))
    {
      var v4 := data.arr[data.lo] >> 4 == 4;
      var ttl := DecrementTtl(data, v4);
      alive := ttl != 0;
      if alive && v4 {
        RenewChecksum(data);
      }
    }

    /** The version switch: the destination of a packet long enough for its version. */
    method ReadDestination(data: Slice) returns (dst: Option<Addr>)
      requires data.Valid()
      ensures dst == if IsIp(data.View()) then Some(Destination(data.View())) else None
    {
      if data.Len() < 20 {
        return None;
      }
      var bytes := data.arr[data.lo..data.hi];
      var version := bytes[0] >> 4;
      if version == 4 {
        return Some(AddrFrom4(bytes[16..20]));
      }
      if version == 6 {
        if data.Len() < 40 {
          return None;
        }
        return Some(AddrFrom16(bytes[24..40]));
      }
      return None;
    }

    method DeliverLocally(data: Slice, dst: Addr)
      requires data.Valid()
      modifies this`outputs
      ensures outputs == old(outputs) +
                if nicForAddr(dst).1 then [Inject(nicForAddr(dst).0, data.View())] else []
    {
      var (nic, ok) := nicForAddr(dst);
      if ok {
        outputs := outputs + [Inject(nic, data.arr[data.lo..data.hi])];
      }
    }

    method HandleIPPacket(pkt: PacketRef, order: seq<string>)
      requires pkt.typ == PacketIP && pkt.data.Valid() && Apart(pkt.data)
      requires Valid() && Nexthop.IsOrder(order, nexthop.transportIPs.Keys)
      modifies this`outputs, pkt.data.arr
      ensures Valid()
      ensures outputs == old(outputs) + Sendings(ProcessIP(old(View(order)), old(pkt.data.View()), pkt.transport))
      ensures Rewrote(pkt.data, old(pkt.data.arr[..]), ResidueIP(old(View(order)), old(pkt.data.View())))
    {
      var dst := ReadDestination(pkt.data);
      if dst.None? {
        return;
      }
      if isLocal(dst.value) {
        DeliverLocally(pkt.data, dst.value);
        return;
      }
      var alive := AgeInPlace(pkt.data);
      if !alive {
        return;
      }
      RouteOut(pkt, dst.value, order);
    }

    method HandlePacket(pkt: PacketRef, order: seq<string>) returns (crashed: bool)
      requires pkt.data.Valid() && Apart(pkt.data)
      requires Valid() && Nexthop.IsOrder(order, nexthop.transportIPs.Keys)
      modifies this`outputs, pkt.data.arr
      ensures Valid()
      ensures var outcome := Process(old(View(order)), pkt.typ, old(pkt.data.View()), pkt.transport);
              outputs == old(outputs) + Sendings(outcome) && (crashed <==> outcome.Crash?)
      ensures Rewrote(pkt.data, old(pkt.data.arr[..]), Residue(old(View(order)), pkt.typ, old(pkt.data.View())))
      decreases pkt.data.Len(), 1
    {
      match pkt.typ {
        case PacketIP =>
          crashed := false;
          HandleIPPacket(pkt, order);
        case PacketMPLS =>
          crashed := HandleMPLSPacket(pkt, order);
      }
    }

    method HandleMPLSPacket(pkt: PacketRef, order: seq<string>) returns (crashed: bool)
      requires pkt.typ == PacketMPLS && pkt.data.Valid() && Apart(pkt.data)
      requires Valid() && Nexthop.IsOrder(order, nexthop.transportIPs.Keys)
      modifies this`outputs, pkt.data.arr
      ensures Valid()
      ensures var outcome := ProcessMPLS(old(View(order)), old(pkt.data.View()), pkt.transport);
              outputs == old(outputs) + Sendings(outcome) && (crashed <==> outcome.Crash?)
      ensures Rewrote(pkt.data, old(pkt.data.arr[..]), Residue(old(View(order)), PacketMPLS, old(pkt.data.View())))
      decreases pkt.data.Len(), 0
    {
      crashed := false;
      if lfib == null {
        return;
      }
      var popped := PopLabel(pkt.data);
      if popped.None? {
        return;
      }
      var (lbl, payload) := popped.value;
      var entry := lfib.Lookup(lbl);
      if entry.None? {
        return;
      }
      var e := entry.value;
      assert Governing(View(order), pkt.data.View()) == Some(e);
      match e.op {
        case OpPop =>
          crashed := HandlePayload(pkt, payload, order);
        case OpPHP =>
          crashed := HandlePayload(pkt, payload, order);
        case OpSwap =>
          if e.outLabels == [] {
            return true;
          }
          var ok := SwapLabel(pkt.data, e.outLabels[0]);
          WritePacket(e.transport, pkt);
        case OpPush =>
          var data := PushLabels(payload, e.outLabels);
          WritePacket(e.transport, PacketRef(PacketMPLS, data, pkt.transport));
      }
    }

    /** The pop case: the payload is handled in place, below the popped entry. */
    method HandlePayload(pkt: PacketRef, payload: Slice, order: seq<string>) returns (crashed: bool)
      requires pkt.data.Valid() && pkt.data.Len() >= 4 && payload == pkt.data.From(4) && Apart(pkt.data)
      requires Valid() && Nexthop.IsOrder(order, nexthop.transportIPs.Keys)
      modifies this`outputs, pkt.data.arr
      ensures Valid()
      ensures var rest := old(pkt.data.View())[4..];
              var outcome := Process(old(View(order)), DetectPacketType(rest), rest, pkt.transport);
              outputs == old(outputs) + Sendings(outcome) && (crashed <==> outcome.Crash?)
      ensures var rest := old(pkt.data.View())[4..];
              Rewrote(pkt.data, old(pkt.data.arr[..]),
                      old(pkt.data.View())[..4] + Residue(old(View(order)), DetectPacketType(rest), rest))
      decreases payload.Len(), 2
    {
      ghost var arr, view := pkt.data.arr[..], pkt.data.View();
      assert view[4..] == payload.View() && view[..4] == arr[pkt.data.lo..payload.lo];
      crashed := HandlePacket(PacketRef(DetectPacketType(payload.arr[payload.lo..payload.hi]), payload, pkt.transport),
                              order);
      assert pkt.data.View() == pkt.data.arr[..payload.lo][pkt.data.lo..] + payload.View();
      assert pkt.data.arr[..pkt.data.lo] == pkt.data.arr[..payload.lo][..pkt.data.lo];
    }
  }
}
