/** Where packets end up: what a router does with an IP packet, said in terms of its tables'
    meaning, of byte positions, and of addresses. */
module Delivery {
  import opened Bytes
  import opened Netip
  import opened LabelStack
  import opened Lfib
  import opened Checksum
  import opened IpHeader
  import opened Forwarding
  import opened Stacks
  import opened Fib
  import opened LongestMatch
  import opened Nexthop

  // Which transport

  /** The name a route leaves by: its own transport; else the resolver's answer for a valid next
      hop, an owner of a longest match or else the transport of a longest match of the resolver's
      FIB; and the transport of arrival only if all that gives no name. */
  ghost predicate LeavesBy(t: Tables, e: FIBEntry, from: string, name: string)
    requires Kept(t.resolverRoutes)
  {
    if e.transport != "" then name == e.transport
    else if !e.nextHop.IsValid() then name == from
    else if Held(t.transportIPs, e.nextHop) then
      exists n :: Owns(t.transportIPs, e.nextHop, n) && name == if n != "" then n else from
    else
      exists r :: IsLongest(TableOf(t.resolverRoutes), e.nextHop, r)
                  && name == if r.Some? && r.value.transport != "" then r.value.transport else from
  }

  /** What a resolver that finds no transport prefix answers: a longest match of its FIB. */
  lemma ResolveFallsBack(ips: TransportIPs, routes: seq<FIBEntry>, order: seq<string>, a: Addr)
    requires IsOrder(order, ips.Keys) && Kept(routes) && !Held(ips, a)
    ensures exists r :: IsLongest(TableOf(routes), a, r)
                        && Resolved(ips, routes, order, a) == if r.Some? then (r.value.transport, true) else ("", false)
  {
    ResolveIsLongest(ips, routes, order, a);
    FirstMatchIsLongest(routes, a);
    assert Resolved(ips, routes, order, a)
        == if FirstMatch(routes, a).Some? then (FirstMatch(routes, a).value.transport, true) else ("", false);
  }

  lemma TransportLeavesBy(t: Tables, e: FIBEntry, from: string)
    requires IsOrder(t.order, t.transportIPs.Keys) && Kept(t.resolverRoutes)
    ensures LeavesBy(t, e, from, TransportFor(t, e, from))
  {
    if e.transport == "" && e.nextHop.IsValid() {
      var resolved := Resolved(t.transportIPs, t.resolverRoutes, t.order, e.nextHop).0;
      if Held(t.transportIPs, e.nextHop) {
        ResolveIsLongest(t.transportIPs, t.resolverRoutes, t.order, e.nextHop);
        assert Owns(t.transportIPs, e.nextHop, resolved);
      } else {
        ResolveFallsBack(t.transportIPs, t.resolverRoutes, t.order, e.nextHop);
      }
    }
  }

  /** What ResolveTransport answers: a transport that holds the address, and the address as direct
      next hop; else transport and next hop of a longest match of the FIB; else nothing. */
  lemma ResolveTransportAnswers(ips: TransportIPs, routes: seq<FIBEntry>, order: seq<string>, a: Addr)
    requires IsOrder(order, ips.Keys) && Kept(routes)
    ensures var r := ResolvedTransport(ips, routes, order, a);
            if Held(ips, a) then Holds(ips, a, r.0) && r.1 == a && r.2
            else exists m :: IsLongest(TableOf(routes), a, m)
                             && r == if m.Some? then (m.value.transport, m.value.nextHop, true) else ("", NoAddr, false)
  {
    TransportFound(ips, routes, order, a);
    FirstHolderFound(ips, order, a);
    FirstMatchIsLongest(routes, a);
    if Held(ips, a) {
      var n :| Holds(ips, a, n);
      var i :| 0 <= i < |order| && order[i] == n;
      assert Holds(ips, a, order[i]);
    } else {
      assert FirstHolder(ips, order, a).None?;
    }
  }

  // What becomes of an IP packet

  /** A packet that is neither this router's nor at its last hop. */
  predicate InTransit(t: Tables, data: seq<byte>) {
    && IsIp(data) && !t.isLocal(Destination(data))
    && data[if data[0] >> 4 == 4 then 8 else 7] != 1
  }

  /** A packet at its last hop goes no further. */
  lemma LastHopDrops(t: Tables, data: seq<byte>, from: string)
    requires IsIp(data) && !t.isLocal(Destination(data)) && !InTransit(t, data)
    ensures Process(t, PacketIP, data, from) == Drop
  {
  }

  /** A packet in transit whose destination no route holds is dropped. */
  lemma NoRouteDrops(t: Tables, data: seq<byte>, from: string)
    requires InTransit(t, data) && forall e :: e in t.routes ==> !Contains(e.prefix, Destination(data))
    ensures Process(t, PacketIP, data, from) == Drop
  {
    NoMatch(t.routes, Destination(data));
  }

  lemma {:induction false} NoMatch(routes: seq<FIBEntry>, a: Addr)
    requires forall e :: e in routes ==> !Contains(e.prefix, a)
    ensures FirstMatch(routes, a) == None
  {
    if routes != [] {
      NoMatch(routes[1..], a);
    }
  }

  /** A packet in transit with a forward or push route is written to the transport its route leaves
      by, aged and under the route's labels, if the router has that transport, else dropped. */
  lemma RouteSends(t: Tables, data: seq<byte>, e: FIBEntry, from: string) returns (name: string)
    requires InTransit(t, data) && FirstMatch(t.routes, Destination(data)) == Some(e)
    requires IsOrder(t.order, t.transportIPs.Keys) && Kept(t.resolverRoutes)
    requires e.action != ActionLocal
    ensures LeavesBy(t, e, from, name)
    ensures Process(t, PacketIP, data, from)
         == if name !in t.transports then Drop
            else if e.action == ActionForward then Sent(Write(name, Packet(PacketIP, Forwarded(data), from)))
            else Sent(Write(name, Packet(PacketMPLS, PushAll(Forwarded(data), e.outLabels), from)))
  {
    TransportLeavesBy(t, e, from);
    name := TransportFor(t, e, from);
  }

  /** A local route injects the aged packet: into the NIC it names, else that of its next hop, else
      that of the transport of arrival. */
  lemma LocalRouteInjects(t: Tables, data: seq<byte>, e: FIBEntry, from: string)
    requires InTransit(t, data) && FirstMatch(t.routes, Destination(data)) == Some(e)
    requires e.action == ActionLocal
    ensures Process(t, PacketIP, data, from)
         == Sent(Inject(if e.transport != "" then e.transport
                        else if t.nicForAddr(e.nextHop).0 != "" then t.nicForAddr(e.nextHop).0
                        else from, Forwarded(data)))
  {
  }

  /** A packet for the router itself, at whatever depth of popped labels, is injected if and only if
      its address has a NIC: into that NIC, byte for byte, whatever its hop count and the routes. */
  lemma LocalDelivery(t: Tables, typ: PacketType, data: seq<byte>, from: string)
    requires Exposed(t, typ, data).0 == PacketIP && IsIp(Exposed(t, typ, data).1)
    requires t.isLocal(Destination(Exposed(t, typ, data).1))
    ensures var ip := Exposed(t, typ, data).1;
            var (nic, ok) := t.nicForAddr(Destination(ip));
            Process(t, typ, data, from) == if ok then Sent(Inject(nic, ip)) else Drop
  {
    ProcessExposed(t, typ, data, from);
  }

  // Labels

  /** A packet whose top label the router does not know is dropped, as is one without a label. */
  lemma UnknownLabelDrops(t: Tables, data: seq<byte>, from: string)
    requires Pop(data).Some? ==> EntryFor(t, Pop(data).value.0).None?
    ensures Process(t, PacketMPLS, data, from) == Drop
  {
  }

  /** Whatever is written goes to a transport the router has, as a packet that came in by `from`. */
  lemma {:induction false} WritesGoToOwnTransports(t: Tables, typ: PacketType, data: seq<byte>, from: string)
    requires Process(t, typ, data, from).Sent? && Process(t, typ, data, from).out.Write?
    ensures Process(t, typ, data, from).out.name in t.transports
    ensures Process(t, typ, data, from).out.pkt.transport == from
  {
    ProcessExposed(t, typ, data, from);
    ExposedStops(t, typ, data);
  }

  // Byte by byte

  /** An IPv6 packet leaves only with byte 7 other than 1. What leaves, under whatever labels, has
      byte 7 one less and every other byte as it was. */
  lemma V6Leaves(t: Tables, data: seq<byte>, from: string) returns (labels: seq<uint32>)
    requires |data| >= 40 && data[0] >> 4 == 6 && !t.isLocal(Destination(data))
    requires Process(t, PacketIP, data, from).Sent?
    ensures data[7] != 1
    ensures Process(t, PacketIP, data, from).out.Bytes() == PushAll(data[7 := data[7] - 1], labels)
  {
    ForwardedV6(data);
    labels := LabelsOn(t, data, from);
  }

  /** An IPv4 packet leaves only with byte 8 other than 1. What leaves, under whatever labels, has
      byte 8 one less, a first 20 bytes that verify, and every byte but 8, 10 and 11 as it was. */
  lemma V4Leaves(t: Tables, data: seq<byte>, from: string) returns (labels: seq<uint32>, body: seq<byte>)
    requires |data| >= 20 && data[0] >> 4 == 4 && !t.isLocal(Destination(data))
    requires Process(t, PacketIP, data, from).Sent?
    ensures data[8] != 1
    ensures Process(t, PacketIP, data, from).out.Bytes() == PushAll(body, labels)
    ensures |body| == |data| && body[8] == data[8] - 1 && Verifies(body[..20])
    ensures forall i :: 0 <= i < |data| && i != 8 && i != 10 && i != 11 ==> body[i] == data[i]
  {
    ForwardedV4(data);
    body := Forwarded(data);
    labels := LabelsOn(t, data, from);
  }

  lemma LabelsOn(t: Tables, data: seq<byte>, from: string) returns (labels: seq<uint32>)
    requires IsIp(data) && !t.isLocal(Destination(data)) && ProcessIP(t, data, from).Sent?
    ensures ProcessIP(t, data, from).out.Bytes() == PushAll(Forwarded(data), labels)
  {
    var e := FirstMatch(t.routes, Destination(data)).value;
    labels := if e.action == ActionPush then e.outLabels else [];
  }

  // The packet's buffer

  /** A packet that is no IP packet or is the router's own stays as it is. */
  lemma BufferUntouched(t: Tables, data: seq<byte>)
    requires IsIp(data) ==> t.isLocal(Destination(data))
    ensures Residue(t, PacketIP, data) == data
  {
  }

  /** Any other IPv6 packet is left with byte 7 one less, even when it goes no further. */
  lemma BufferV6(t: Tables, data: seq<byte>)
    requires |data| >= 40 && data[0] >> 4 == 6 && !t.isLocal(Destination(data))
    ensures Residue(t, PacketIP, data) == data[7 := data[7] - 1]
  {
    ForwardedV6(data);
  }

  /** Any other IPv4 packet is left with byte 8 one less, and a renewed checksum only if it lives. */
  lemma BufferV4(t: Tables, data: seq<byte>)
    requires |data| >= 20 && data[0] >> 4 == 4 && !t.isLocal(Destination(data))
    ensures data[8] == 1 ==> Residue(t, PacketIP, data) == data[8 := 0]
    ensures data[8] != 1 ==>
              && Residue(t, PacketIP, data)[8] == data[8] - 1 && Verifies(Residue(t, PacketIP, data)[..20])
              && forall i :: 0 <= i < |data| && i != 8 && i != 10 && i != 11 ==>
                               Residue(t, PacketIP, data)[i] == data[i]
  {
    ForwardedV4(data);
  }

  /** The entry that decides a labelled packet, past its pops, pushes. */
  predicate PushesOver(t: Tables, typ: PacketType, data: seq<byte>) {
    var (typ', rest) := Exposed(t, typ, data);
    typ' == PacketMPLS && Governing(t, rest).Some? && Governing(t, rest).value.op == OpPush
  }

  /** But for such an entry, what leaves the router is in the packet's buffer too, past the entries
      popped, under labels that a route pushed in new storage: a swap is made in place. */
  lemma BufferShowsOutput(t: Tables, typ: PacketType, data: seq<byte>, from: string) returns (pushed: seq<uint32>)
    requires Process(t, typ, data, from).Sent? && !PushesOver(t, typ, data)
    ensures var buffer := Residue(t, typ, data)[4 * PopCount(t, typ, data)..];
            Process(t, typ, data, from).out.Bytes() == PushAll(buffer, pushed)
    ensures Exposed(t, typ, data).0 == PacketMPLS ==> pushed == []
  {
    ProcessExposed(t, typ, data, from);
    ResidueBelowPops(t, typ, data);
    ExposedStops(t, typ, data);
    pushed := [];
    var (typ', rest) := Exposed(t, typ, data);
    if typ' == PacketIP && !t.isLocal(Destination(rest)) {
      pushed := LabelsOn(t, rest, from);
    }
  }

  /** Any other labelled packet stays as it is below its pops. */
  lemma LabelledUntouched(t: Tables, typ: PacketType, data: seq<byte>, from: string)
    requires Exposed(t, typ, data).0 == PacketMPLS
    requires Governing(t, Exposed(t, typ, data).1).Some? && Governing(t, Exposed(t, typ, data).1).value.op == OpSwap
             ==> Governing(t, Exposed(t, typ, data).1).value.outLabels == []
    ensures Residue(t, typ, data) == data
  {
    ResidueBelowPops(t, typ, data);
    ExposedStops(t, typ, data);
    ExposedIsSuffix(t, typ, data);
    var k := 4 * PopCount(t, typ, data);
    assert Residue(t, typ, data) == Residue(t, typ, data)[..k] + Residue(t, typ, data)[k..];
    assert data == data[..k] + data[k..];
  }
}
