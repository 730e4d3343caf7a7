/** What a router does depends on the meaning of its tables alone: not on the order of its route
    list, and not on the order in which Go visits the resolver's map. */
module Determinism {
  import opened Bytes
  import opened Netip
  import opened LabelStack
  import opened Lfib
  import opened IpHeader
  import opened Forwarding
  import opened Fib
  import opened LongestMatch
  import opened Nexthop

  /** The same route table kept in a list, perhaps in another order. */
  ghost predicate SameList(s: seq<FIBEntry>, s': seq<FIBEntry>) {
    Kept(s) && Kept(s') && MaskedTable(TableOf(s)) && TableOf(s) == TableOf(s')
  }

  /** No two transports own a longest match of the address. */
  ghost predicate OneOwner(ips: TransportIPs, a: Addr) {
    forall n, n' :: Owns(ips, a, n) && Owns(ips, a, n') ==> n == n'
  }

  /** Every route that leaves the transport to the resolver has a next hop with one owner. */
  ghost predicate ClearNextHops(t: Tables) {
    forall i :: 0 <= i < |t.routes| && t.routes[i].transport == "" ==> OneOwner(t.transportIPs, t.routes[i].nextHop)
  }

  /** Tables that mean the same. */
  ghost predicate SameMeaning(t: Tables, t': Tables) {
    && SameList(t.routes, t'.routes) && SameList(t.resolverRoutes, t'.resolverRoutes)
    && IsOrder(t.order, t.transportIPs.Keys) && IsOrder(t'.order, t.transportIPs.Keys)
    && t' == t.(routes := t'.routes, resolverRoutes := t'.resolverRoutes, order := t'.order)
  }

  lemma SameResolution(t: Tables, t': Tables, a: Addr)
    requires SameMeaning(t, t') && OneOwner(t.transportIPs, a)
    ensures Resolved(t.transportIPs, t.resolverRoutes, t.order, a)
         == Resolved(t'.transportIPs, t'.resolverRoutes, t'.order, a)
  {
    LookupIgnoresOrder(t.resolverRoutes, t'.resolverRoutes, a);
    ResolveOrderExactly(t.transportIPs, t.resolverRoutes, a);
    assert Resolved(t.transportIPs, t.resolverRoutes, t.order, a)
        == Resolved(t.transportIPs, t.resolverRoutes, t'.order, a);
  }

  lemma SameTransport(t: Tables, t': Tables, e: FIBEntry, from: string)
    requires SameMeaning(t, t') && (e.transport == "" ==> OneOwner(t.transportIPs, e.nextHop))
    ensures TransportFor(t, e, from) == TransportFor(t', e, from)
  {
    if e.transport == "" {
      SameResolution(t, t', e.nextHop);
    }
  }

  lemma SameForward(t: Tables, t': Tables, pkt: Packet, e: FIBEntry)
    requires t.transports == t'.transports && t.nicForAddr == t'.nicForAddr
    requires TransportFor(t, e, pkt.transport) == TransportFor(t', e, pkt.transport)
    ensures ForwardByFIB(t, pkt, e) == ForwardByFIB(t', pkt, e)
  {
  }

  lemma SameRouteOut(t: Tables, t': Tables, pkt: Packet, dst: Addr)
    requires SameMeaning(t, t') && ClearNextHops(t)
    ensures RouteOut(t, pkt, dst) == RouteOut(t', pkt, dst)
  {
    LookupIgnoresOrder(t.routes, t'.routes, dst);
    if FirstMatch(t.routes, dst).Some? {
      var e := FirstMatch(t.routes, dst).value;
      var i := FirstMatchIndex(t.routes, dst);
      assert t.routes[i] == e;
      SameTransport(t, t', e, pkt.transport);
      SameForward(t, t', pkt, e);
    }
  }

  /** Every packet has the same outcome under tables that mean the same. */
  lemma {:induction false} MeaningDecides(t: Tables, t': Tables, typ: PacketType, data: seq<byte>, from: string)
    requires SameMeaning(t, t') && ClearNextHops(t)
    ensures Process(t, typ, data, from) == Process(t', typ, data, from)
    decreases |data|
  {
    if typ == PacketIP {
      if IsIp(data) {
        SameRouteOut(t, t', Packet(PacketIP, Forwarded(data), from), Destination(data));
      }
    } else if Governing(t, data).Some? {
      var payload := Pop(data).value.1;
      MeaningDecides(t, t', DetectPacketType(payload), payload, from);
    }
  }
}
