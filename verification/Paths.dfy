/** Packets crossing several routers: label-switched paths and the bound on a packet's life. */
module Paths {
  import opened Bytes
  import opened Netip
  import opened Label
  import opened LabelStack
  import opened Lfib
  import opened Checksum
  import opened IpHeader
  import opened Forwarding
  import opened Stacks
  import Fib

  /** A router, and the name of the transport by which packets of this path reach it. */
  datatype Hop = Hop(tables: Tables, link: string)

  function Handled(h: Hop, typ: PacketType, data: seq<byte>): Outcome {
    Process(h.tables, typ, data, h.link)
  }

  predicate Written(o: Outcome) {
    o.Sent? && o.out.Write?
  }

  /** What becomes of a packet that each router of a chain hands to the next, over links that
      keep its type and bytes: the outcome at the last router it reaches. */
  function Travel(hops: seq<Hop>, typ: PacketType, data: seq<byte>): Outcome
    requires hops != []
    decreases |hops|
  {
    var o := Handled(hops[0], typ, data);
    if |hops| == 1 || !Written(o) then o else Travel(hops[1..], o.out.pkt.typ, o.out.pkt.data)
  }

  // Label-switched paths

  /** The router replaces top label `a` by `b` and has the transport to send the packet on. */
  predicate Swaps(t: Tables, a: uint32, b: uint32) {
    && EntryFor(t, Clamp(a)).Some?
    && var e := EntryFor(t, Clamp(a)).value;
       e.op == OpSwap && e.outLabels != [] && e.outLabels[0] == b && e.transport in t.transports
  }

  /** `path` names the label on every link between the first and the last router. */
  predicate SwitchedBy(transits: seq<Hop>, path: seq<uint32>) {
    && |path| == |transits| + 1
    && forall i :: 0 <= i < |transits| ==> Swaps(transits[i].tables, path[i], path[i + 1])
  }

  lemma SwapOne(h: Hop, a: uint32, b: uint32, body: seq<byte>)
    requires Swaps(h.tables, a, b)
    ensures Written(Handled(h, PacketMPLS, Push(body, a)))
    ensures Handled(h, PacketMPLS, Push(body, a)).out.pkt == Packet(PacketMPLS, Push(body, b), h.link)
  {
    PopPushed(body, a);
    var e := EntryFor(h.tables, Clamp(a)).value;
    assert Governing(h.tables, Push(body, a)) == Some(e);
    assert ProcessMPLS(h.tables, Push(body, a), h.link)
        == Sent(Write(e.transport, Packet(PacketMPLS, Push(body, b), h.link)));
  }

  /** Any number of transit routers change the top label and nothing else. */
  lemma {:induction false} Transit(transits: seq<Hop>, egress: Hop, path: seq<uint32>, body: seq<byte>)
    requires SwitchedBy(transits, path)
    ensures Travel(transits + [egress], PacketMPLS, Push(body, path[0]))
         == Handled(egress, PacketMPLS, Push(body, path[|transits|]))
    decreases |transits|
  {
    var hops := transits + [egress];
    if transits != [] {
      SwapOne(transits[0], path[0], path[1], body);
      assert hops[1..] == transits[1..] + [egress];
      forall i | 0 <= i < |transits[1..]|
        ensures Swaps(transits[1..][i].tables, path[1..][i], path[1..][i + 1])
      {
        assert Swaps(transits[i + 1].tables, path[i + 1], path[i + 2]);
      }
      Transit(transits[1..], egress, path[1..], body);
    }
  }

  /** The packet gets past the local and TTL checks and matches route `e`. */
  predicate RoutedBy(t: Tables, data: seq<byte>, e: Fib.FIBEntry) {
    && IsIp(data) && !t.isLocal(Destination(data)) && !Expires(data)
    && Fib.FirstMatch(t.routes, Destination(data)) == Some(e)
  }

  /** The same router with every push route made a plain forwarding route. */
  function Unlabelled(t: Tables): Tables {
    t.(routes := Plain(t.routes))
  }

  function PlainEntry(e: Fib.FIBEntry): Fib.FIBEntry {
    if e.action == Fib.ActionPush then e.(action := Fib.ActionForward) else e
  }

  function Plain(routes: seq<Fib.FIBEntry>): (r: seq<Fib.FIBEntry>) {
    if routes == [] then [] else [PlainEntry(routes[0])] + Plain(routes[1..])
  }

  lemma {:induction false} PlainMatch(routes: seq<Fib.FIBEntry>, a: Addr)
    ensures Fib.FirstMatch(Plain(routes), a)
         == if Fib.FirstMatch(routes, a).Some? then Some(PlainEntry(Fib.FirstMatch(routes, a).value)) else None
  {
    if routes != [] {
      assert Plain(routes)[1..] == Plain(routes[1..]);
      PlainMatch(routes[1..], a);
    }
  }

  lemma ForwardedIsIp(data: seq<byte>)
    requires IsIp(data)
    ensures IsIp(Forwarded(data)) && IsV4(Forwarded(data)) == IsV4(data)
    ensures Ttl(Forwarded(data)) == Ttl(data) - 1
    ensures Destination(Forwarded(data)) == Destination(data)
  {
    var out := Forwarded(data);
    assert DestinationBytes(out) == DestinationBytes(data);
    DestinationExactly(out, data);
  }

  /** What the first router of a path sends, with labels and without. */
  lemma Ingress(h: Hop, data: seq<byte>, e: Fib.FIBEntry)
    requires RoutedBy(h.tables, data, e) && e.action == Fib.ActionPush
    requires TransportFor(h.tables, e, h.link) in h.tables.transports
    ensures Handled(h, PacketIP, data)
         == Sent(Write(TransportFor(h.tables, e, h.link),
                       Packet(PacketMPLS, PushAll(Forwarded(data), e.outLabels), h.link)))
    ensures Handled(h.(tables := Unlabelled(h.tables)), PacketIP, data)
         == Sent(Write(TransportFor(h.tables, e, h.link), Packet(PacketIP, Forwarded(data), h.link)))
  {
    PlainMatch(h.tables.routes, Destination(data));
  }

  /** A label-switched path is transparent: the last router handles exactly the IP packet the
      first one would have sent unlabelled, whatever the number of routers in between and the
      depth of the stack. */
  lemma PathIsTransparent(ingress: Hop, transits: seq<Hop>, egress: Hop, path: seq<uint32>,
                          inner: seq<uint32>, data: seq<byte>, e: Fib.FIBEntry)
    requires RoutedBy(ingress.tables, data, e) && e.action == Fib.ActionPush
    requires TransportFor(ingress.tables, e, ingress.link) in ingress.tables.transports
    requires SwitchedBy(transits, path) && e.outLabels == [path[0]] + inner
    requires PopsAll(egress.tables, [path[|transits|]] + inner) && NoneLooksIp(inner)
    ensures var plain := Handled(ingress.(tables := Unlabelled(ingress.tables)), PacketIP, data);
            Written(plain) && plain.out.pkt.typ == PacketIP &&
            Travel([ingress] + transits + [egress], PacketIP, data) == Handled(egress, PacketIP, plain.out.pkt.data)
  {
    Ingress(ingress, data, e);
    var body := PushAll(Forwarded(data), inner);
    var last := path[|transits|];
    assert e.outLabels[1..] == inner;
    assert PushAll(Forwarded(data), e.outLabels) == Push(body, path[0]);
    var hops := [ingress] + transits + [egress];
    assert hops[1..] == transits + [egress];
    Transit(transits, egress, path, body);
    var stack := [last] + inner;
    assert stack[1..] == inner && PushAll(Forwarded(data), stack) == Push(body, last);
    Unwind(egress.tables, Forwarded(data), stack, egress.link);
    ForwardedIsIp(data);
    DetectIp(Forwarded(data));
  }

  /** The condition on inner labels is exact: otherwise the last router exposes other bytes. */
  lemma EgressExposesExactly(egress: Tables, last: uint32, inner: seq<uint32>, data: seq<byte>)
    requires IsIp(data) && PopsAll(egress, [last] + inner)
    ensures Exposed(egress, PacketMPLS, PushAll(data, [last] + inner)) == (PacketIP, data) <==> NoneLooksIp(inner)
  {
    UnwindsExactly(egress, data, [last] + inner);
    assert ([last] + inner)[1..] == inner;
    DetectIp(data);
  }

  // The life of a packet

  function TypeOf(n: nat): PacketType {
    if n == 0 then PacketIP else PacketMPLS
  }

  /** `n` label entries over an IP packet, which popping will expose one by one. */
  predicate Stack(data: seq<byte>, n: nat) {
    if n == 0 then IsIp(data)
    else |data| >= ENTRY_SIZE && Stack(data[ENTRY_SIZE..], n - 1)
         && DetectPacketType(data[ENTRY_SIZE..]) == TypeOf(n - 1)
  }

  function InnerTtl(data: seq<byte>, n: nat): byte
    requires Stack(data, n)
  {
    if n == 0 then Ttl(data) else InnerTtl(data[ENTRY_SIZE..], n - 1)
  }

  /** Push lists are not empty, and no label below the first looks like IP. */
  predicate SoundLabels(labels: seq<uint32>) {
    labels != [] && NoneLooksIp(labels[1..])
  }

  ghost predicate SoundTables(t: Tables) {
    && (forall i :: 0 <= i < |t.routes| && t.routes[i].action == Fib.ActionPush ==> SoundLabels(t.routes[i].outLabels))
    && (forall lbl :: EntryFor(t, lbl).Some? && EntryFor(t, lbl).value.op == OpPush ==>
                        SoundLabels(EntryFor(t, lbl).value.outLabels))
  }

  /** The router exposes an IP packet that is not its own and lives through the TTL check. */
  predicate PassesTtl(t: Tables, typ: PacketType, data: seq<byte>) {
    var (typ', data') := Exposed(t, typ, data);
    typ' == PacketIP && IsIp(data') && !t.isLocal(Destination(data')) && !Expires(data')
  }

  lemma PushedStack(pkt: seq<byte>, lbl: uint32, n: nat)
    requires Stack(pkt, n) && DetectPacketType(pkt) == TypeOf(n)
    ensures Stack(Push(pkt, lbl), n + 1) && InnerTtl(Push(pkt, lbl), n + 1) == InnerTtl(pkt, n)
  {
    assert Push(pkt, lbl)[ENTRY_SIZE..] == pkt;
  }

  lemma {:induction false} PushedAllStack(pkt: seq<byte>, labels: seq<uint32>, n: nat)
    requires Stack(pkt, n) && DetectPacketType(pkt) == TypeOf(n) && SoundLabels(labels)
    ensures Stack(PushAll(pkt, labels), n + |labels|)
    ensures InnerTtl(PushAll(pkt, labels), n + |labels|) == InnerTtl(pkt, n)
  {
    var rest := labels[1..];
    if rest == [] {
      PushedStack(pkt, labels[0], n);
    } else {
      assert rest[1..] == labels[2..] && forall i :: 0 <= i < |rest[1..]| ==> rest[1..][i] == rest[i + 1];
      PushedAllStack(pkt, rest, n);
      DetectPushed(PushAll(pkt, labels[2..]), rest[0]);
      PushedStack(PushAll(pkt, rest), labels[0], n + |rest|);
    }
  }

  /** Popping walks down the stack and keeps the IP packet under it. */
  lemma {:induction false} ExposedStack(t: Tables, data: seq<byte>, n: nat) returns (n': nat)
    requires Stack(data, n)
    ensures n' <= n && Exposed(t, TypeOf(n), data).0 == TypeOf(n')
    ensures Stack(Exposed(t, TypeOf(n), data).1, n')
    ensures InnerTtl(Exposed(t, TypeOf(n), data).1, n') == InnerTtl(data, n)
  {
    n' := n;
    if n > 0 && Pops(t, Pop(data).value.0) {
      n' := ExposedStack(t, data[ENTRY_SIZE..], n - 1);
    }
  }

  /** One router: a stack over an IP packet leaves as one, the hop count less by one if the packet
      was exposed and passed the TTL check, and untouched otherwise. */
  lemma StepKeepsStack(h: Hop, data: seq<byte>, n: nat) returns (n': nat)
    requires SoundTables(h.tables) && Stack(data, n) && Written(Handled(h, TypeOf(n), data))
    ensures var pkt := Handled(h, TypeOf(n), data).out.pkt;
            && Stack(pkt.data, n') && pkt.typ == TypeOf(n')
            && InnerTtl(pkt.data, n')
            == if PassesTtl(h.tables, TypeOf(n), data) then InnerTtl(data, n) - 1 else InnerTtl(data, n)
  {
    var t := h.tables;
    ProcessExposed(t, TypeOf(n), data, h.link);
    ExposedStops(t, TypeOf(n), data);
    var k := ExposedStack(t, data, n);
    var rest := Exposed(t, TypeOf(n), data).1;
    if k == 0 {
      n' := StepIP(h, rest);
    } else {
      n' := StepMPLS(h, rest, k);
    }
  }

  lemma StepIP(h: Hop, data: seq<byte>) returns (n': nat)
    requires SoundTables(h.tables) && IsIp(data) && Written(ProcessIP(h.tables, data, h.link))
    ensures !h.tables.isLocal(Destination(data)) && !Expires(data)
    ensures var pkt := ProcessIP(h.tables, data, h.link).out.pkt;
            Stack(pkt.data, n') && pkt.typ == TypeOf(n') && InnerTtl(pkt.data, n') == Ttl(data) - 1
  {
    ForwardedIsIp(data);
    DetectIp(Forwarded(data));
    var e := Fib.FirstMatch(h.tables.routes, Destination(data)).value;
    n' := 0;
    if e.action == Fib.ActionPush {
      var i := Fib.FirstMatchIndex(h.tables.routes, Destination(data));
      assert h.tables.routes[i] == e;
      PushedAllStack(Forwarded(data), e.outLabels, 0);
      n' := |e.outLabels|;
    }
  }

  lemma StepMPLS(h: Hop, data: seq<byte>, n: nat) returns (n': nat)
    requires SoundTables(h.tables) && n > 0 && Stack(data, n) && Written(ProcessMPLS(h.tables, data, h.link))
    requires Governing(h.tables, data).Some? ==> !Popping(Governing(h.tables, data).value.op)
    ensures var pkt := ProcessMPLS(h.tables, data, h.link).out.pkt;
            Stack(pkt.data, n') && pkt.typ == TypeOf(n') && InnerTtl(pkt.data, n') == InnerTtl(data, n)
  {
    var e := Governing(h.tables, data).value;
    var payload := data[ENTRY_SIZE..];
    if e.op == OpSwap {
      PushedStack(payload, e.outLabels[0], n - 1);
      n' := n;
    } else {
      PushedAllStack(payload, e.outLabels, n - 1);
      n' := n - 1 + |e.outLabels|;
    }
  }

  /** How often a packet passes a TTL check on its way along a chain of routers. */
  function TtlPasses(hops: seq<Hop>, typ: PacketType, data: seq<byte>): nat
    decreases |hops|
  {
    if hops == [] then 0
    else
      var here := if PassesTtl(hops[0].tables, typ, data) then 1 else 0;
      var o := Handled(hops[0], typ, data);
      here + if Written(o) then TtlPasses(hops[1..], o.out.pkt.typ, o.out.pkt.data) else 0
  }

  /** The hops a packet has left; a zero hop count wraps to 255. */
  function Budget(ttl: byte): nat {
    if ttl == 0 then 255 else ttl as nat - 1
  }

  lemma BudgetShrinks(ttl: byte)
    requires ttl != 1
    ensures Budget(ttl) == 1 + Budget(ttl - 1)
  {
  }

  lemma {:induction false} LifetimeByTtl(hops: seq<Hop>, data: seq<byte>, n: nat)
    requires Stack(data, n) && forall i :: 0 <= i < |hops| ==> SoundTables(hops[i].tables)
    ensures TtlPasses(hops, TypeOf(n), data) <= Budget(InnerTtl(data, n))
    decreases |hops|
  {
    if hops != [] {
      var h, o := hops[0], Handled(hops[0], TypeOf(n), data);
      if PassesTtl(h.tables, TypeOf(n), data) {
        var k := ExposedStack(h.tables, data, n);
        BudgetShrinks(InnerTtl(data, n));
      }
      if Written(o) {
        var n' := StepKeepsStack(h, data, n);
        LifetimeByTtl(hops[1..], o.out.pkt.data, n');
      }
    }
  }

  /** The hops an IP packet has left: its byte 8 less one in IPv4, its byte 7 less one in IPv6, and
      255 if that byte is zero. */
  function HopsLeft(ip: seq<byte>): nat
    requires |ip| >= 20
  {
    var b := if ip[0] >> 4 == 4 then ip[8] else ip[7];
    if b == 0 then 255 else b as nat - 1
  }

  lemma {:induction false} InnerPacket(data: seq<byte>, n: nat)
    requires Stack(data, n)
    ensures ENTRY_SIZE * n <= |data| && IsIp(data[ENTRY_SIZE * n..])
    ensures Budget(InnerTtl(data, n)) == HopsLeft(data[ENTRY_SIZE * n..])
  {
    if n == 0 {
      assert data[0..] == data;
    } else {
      InnerPacket(data[ENTRY_SIZE..], n - 1);
      assert data[ENTRY_SIZE..][ENTRY_SIZE * (n - 1)..] == data[ENTRY_SIZE * n..];
    }
  }

  /** Bounded lifetime: along any chain, of any length and with any sound tables, however its
      labels are pushed, swapped and popped, a packet passes at most as many TTL checks as the IP
      packet under its n labels has hops left. */
  lemma BoundedLifetime(hops: seq<Hop>, data: seq<byte>, n: nat)
    requires Stack(data, n) && forall i :: 0 <= i < |hops| ==> SoundTables(hops[i].tables)
    ensures 4 * n <= |data| && |data[4 * n..]| >= 20
    ensures TtlPasses(hops, if n == 0 then PacketIP else PacketMPLS, data) <= HopsLeft(data[4 * n..])
  {
    InnerPacket(data, n);
    LifetimeByTtl(hops, data, n);
  }

  /** A router that sends every living packet for `dst` on as plain IP. */
  ghost predicate AlwaysForwards(h: Hop, dst: Addr) {
    && !h.tables.isLocal(dst)
    && exists e :: Fib.FirstMatch(h.tables.routes, dst) == Some(e) && e.action == Fib.ActionForward
                   && TransportFor(h.tables, e, h.link) in h.tables.transports
  }

  /** A hop takes one off a living packet, and only off a living packet. */
  lemma HopsShrink(data: seq<byte>)
    requires IsIp(data)
    ensures Expires(data) <==> HopsLeft(data) == 0
    ensures !Expires(data) ==> HopsLeft(data) == 1 + HopsLeft(Forwarded(data))
  {
    ForwardedIsIp(data);
    InnerPacket(data, 0);
    InnerPacket(Forwarded(data), 0);
    assert data[0..] == data && Forwarded(data)[0..] == Forwarded(data);
    if !Expires(data) {
      BudgetShrinks(Ttl(data));
    }
  }

  lemma ForwardOne(h: Hop, data: seq<byte>)
    requires IsIp(data) && AlwaysForwards(h, Destination(data))
    ensures PassesTtl(h.tables, PacketIP, data) <==> !Expires(data)
    ensures !Expires(data) ==>
              Handled(h, PacketIP, data).Sent? && Handled(h, PacketIP, data).out.Write? &&
              Handled(h, PacketIP, data).out.pkt == Packet(PacketIP, Forwarded(data), h.link)
    ensures Expires(data) ==> Handled(h, PacketIP, data) == Drop
  {
  }

  lemma PassesUnfolded(hops: seq<Hop>, data: seq<byte>)
    requires hops != [] && IsIp(data) && AlwaysForwards(hops[0], Destination(data))
    ensures TtlPasses(hops, PacketIP, data)
         == if Expires(data) then 0 else 1 + TtlPasses(hops[1..], PacketIP, Forwarded(data))
  {
    ForwardOne(hops[0], data);
  }

  /** The bound is reached: routers that forward everything let exactly that many checks pass. */
  lemma {:induction false} BoundIsReached(hops: seq<Hop>, data: seq<byte>)
    requires IsIp(data) && forall i :: 0 <= i < |hops| ==> AlwaysForwards(hops[i], Destination(data))
    ensures TtlPasses(hops, PacketIP, data) == if |hops| <= HopsLeft(data) then |hops| else HopsLeft(data)
    decreases |hops|
  {
    if hops != [] {
      HopsShrink(data);
      PassesUnfolded(hops, data);
      if !Expires(data) {
        ForwardedIsIp(data);
        BoundIsReached(hops[1..], Forwarded(data));
      }
    }
  }

  // Delivery

  /** The packet after `n` routers have forwarded it. */
  function ForwardedTimes(data: seq<byte>, n: nat): (r: seq<byte>)
    requires IsIp(data)
    ensures |r| == |data| && IsIp(r) && IsV4(r) == IsV4(data) && Destination(r) == Destination(data)
    decreases n
  {
    if n == 0 then data
    else
      ForwardedIsIp(data);
      ForwardedTimes(Forwarded(data), n - 1)
  }

  /** `r` is `data` with `n` taken off byte `k`, modulo 256, and every other byte as it was, but for
      the checksum of IPv4, which is renewed. */
  predicate HopsTakenAt(data: seq<byte>, r: seq<byte>, n: nat, k: nat) {
    && |r| == |data| >= 20 && k < 20
    && r[k] as nat == (data[k] as nat - n) % 256
    && (k == 8 ==> Verifies(r[..20]))
    && forall i :: 0 <= i < |data| && i != k && !(k == 8 && (i == 10 || i == 11)) ==> r[i] == data[i]
  }

  /** `n` hops are taken off a packet: off byte 8 of an IPv4 and off byte 7 of an IPv6 packet. */
  predicate HopsTaken(data: seq<byte>, r: seq<byte>, n: nat) {
    |data| >= 20 && HopsTakenAt(data, r, n, if data[0] >> 4 == 4 then 8 else 7)
  }

  lemma HopTaken(data: seq<byte>)
    requires IsIp(data)
    ensures HopsTaken(data, Forwarded(data), 1)
  {
    if data[0] >> 4 == 4 {
      ForwardedV4(data);
      OneLess(data[8], 1);
    } else {
      ForwardedV6(data);
      OneLess(data[7], 1);
    }
  }

  lemma HopsAddAt(data: seq<byte>, mid: seq<byte>, r: seq<byte>, n: nat, k: nat)
    requires n > 0 && HopsTakenAt(data, mid, 1, k) && HopsTakenAt(mid, r, n, k)
    ensures HopsTakenAt(data, r, n + 1, k)
  {
    LessAgain(data[k] as nat, mid[k] as nat, n);
  }

  lemma LessAgain(x: nat, y: nat, n: nat)
    requires y == (x - 1) % 256
    ensures (y - n) % 256 == (x - (n + 1)) % 256
  {
  }

  lemma HopsAdd(data: seq<byte>, mid: seq<byte>, r: seq<byte>, n: nat)
    requires n > 0 && HopsTaken(data, mid, 1) && HopsTaken(mid, r, n)
    ensures HopsTaken(data, r, n + 1)
  {
    assert mid[0] == data[0];
    HopsAddAt(data, mid, r, n, if data[0] >> 4 == 4 then 8 else 7);
  }

  lemma OneMoreHop(data: seq<byte>, next: seq<byte>, r: seq<byte>, n: nat)
    requires HopsTaken(data, next, 1) && (if n == 0 then r == next else HopsTaken(next, r, n))
    ensures HopsTaken(data, r, n + 1)
  {
    if n > 0 {
      HopsAdd(data, next, r, n);
    }
  }

  /** That packet, byte by byte. */
  lemma {:induction false} ForwardedTimesBytes(data: seq<byte>, n: nat)
    requires IsIp(data)
    ensures if n == 0 then ForwardedTimes(data, n) == data else HopsTaken(data, ForwardedTimes(data, n), n)
    decreases n
  {
    if n > 0 {
      ForwardedIsIp(data);
      HopTaken(data);
      ForwardedTimesBytes(Forwarded(data), n - 1);
      OneMoreHop(data, Forwarded(data), ForwardedTimes(Forwarded(data), n - 1), n - 1);
    }
  }

  lemma OneLess(b: byte, n: int)
    ensures ((b - 1) as int - (n - 1)) % 256 == (b as int - n) % 256
    ensures (b - 1) as int == (b as int - 1) % 256
  {
    if b == 0 {
      assert (b - 1) as int == 255;
    } else {
      assert (b - 1) as int == b as int - 1;
    }
  }

  /** A router that owns the address `dst`, on a NIC. */
  predicate Owner(h: Hop, dst: Addr) {
    h.tables.isLocal(dst) && h.tables.nicForAddr(dst).1
  }

  lemma DeliveredHere(last: Hop, data: seq<byte>)
    requires IsIp(data) && Owner(last, Destination(data))
    ensures Travel([last], PacketIP, data) == Sent(Inject(last.tables.nicForAddr(Destination(data)).0, data))
  {
  }

  lemma OneHopLess(data: seq<byte>, n: nat)
    requires IsIp(data)
    ensures Expires(data) <==> HopsLeft(data) == 0
    ensures IsIp(Forwarded(data)) && Destination(Forwarded(data)) == Destination(data)
    ensures !Expires(data) ==> HopsLeft(data) == 1 + HopsLeft(Forwarded(data))
    ensures ForwardedTimes(data, n + 1) == ForwardedTimes(Forwarded(data), n)
  {
    HopsShrink(data);
    ForwardedIsIp(data);
  }

  lemma TravelUnfolded(hops: seq<Hop>, last: Hop, data: seq<byte>)
    requires hops != [] && IsIp(data) && AlwaysForwards(hops[0], Destination(data))
    ensures Travel(hops + [last], PacketIP, data)
         == if Expires(data) then Drop else Travel(hops[1..] + [last], PacketIP, Forwarded(data))
  {
    ForwardOne(hops[0], data);
    var all := hops + [last];
    assert all[0] == hops[0] && all[1..] == hops[1..] + [last];
  }

  /** A packet sent through routers that forward everything to the router that owns its destination
      is injected there if and only if it survives a TTL check at each router before; the owner
      makes none. What is injected is the packet forwarded that many times. */
  lemma {:induction false} DeliveredExactly(hops: seq<Hop>, last: Hop, data: seq<byte>)
    requires IsIp(data) && Owner(last, Destination(data))
    requires forall i :: 0 <= i < |hops| ==> AlwaysForwards(hops[i], Destination(data))
    ensures Travel(hops + [last], PacketIP, data)
         == if |hops| <= HopsLeft(data)
            then Sent(Inject(last.tables.nicForAddr(Destination(data)).0, ForwardedTimes(data, |hops|)))
            else Drop
    decreases |hops|
  {
    if hops == [] {
      assert [] + [last] == [last];
      DeliveredHere(last, data);
    } else {
      TravelUnfolded(hops, last, data);
      OneHopLess(data, |hops| - 1);
      if !Expires(data) {
        DeliveredExactly(hops[1..], last, Forwarded(data));
      }
    }
  }

  /** A label-switched path delivers: when the last router owns the destination, the IP packet the
      first one would have sent is injected into the NIC of that address, or dropped if it has
      none. */
  lemma PathDelivers(ingress: Hop, transits: seq<Hop>, egress: Hop, path: seq<uint32>,
                     inner: seq<uint32>, data: seq<byte>, e: Fib.FIBEntry)
    requires RoutedBy(ingress.tables, data, e) && e.action == Fib.ActionPush
    requires TransportFor(ingress.tables, e, ingress.link) in ingress.tables.transports
    requires SwitchedBy(transits, path) && e.outLabels == [path[0]] + inner
    requires PopsAll(egress.tables, [path[|transits|]] + inner) && NoneLooksIp(inner)
    requires egress.tables.isLocal(Destination(data))
    ensures Travel([ingress] + transits + [egress], PacketIP, data)
         == if egress.tables.nicForAddr(Destination(data)).1
            then Sent(Inject(egress.tables.nicForAddr(Destination(data)).0, Forwarded(data)))
            else Drop
  {
    PathIsTransparent(ingress, transits, egress, path, inner, data, e);
    Ingress(ingress, data, e);
    ForwardedIsIp(data);
  }

  /** A push route marks what it sends as MPLS, and sends the bare IP packet so exactly when it has
      no labels. */
  lemma EmptyPushMislabels(h: Hop, data: seq<byte>, e: Fib.FIBEntry)
    requires RoutedBy(h.tables, data, e) && e.action == Fib.ActionPush
    requires TransportFor(h.tables, e, h.link) in h.tables.transports
    ensures Written(Handled(h, PacketIP, data)) && Handled(h, PacketIP, data).out.pkt.typ == PacketMPLS
    ensures Handled(h, PacketIP, data).out.pkt.data == Forwarded(data) <==> e.outLabels == []
    ensures DetectPacketType(Forwarded(data)) == PacketIP
  {
    Ingress(h, data, e);
    ForwardedIsIp(data);
    DetectIp(Forwarded(data));
    assert |PushAll(Forwarded(data), e.outLabels)| == ENTRY_SIZE * |e.outLabels| + |data|;
  }

  /** Label switching has no such bound: swaps write TTL 64 and read none, so routers that swap a
      label to itself pass a packet on unchanged, however many there are. */
  lemma {:induction false} LabelLoopNeverExpires(hops: seq<Hop>, a: uint32, body: seq<byte>)
    requires hops != [] && forall i :: 0 <= i < |hops| ==> Swaps(hops[i].tables, a, a)
    ensures var o := Travel(hops, PacketMPLS, Push(body, a));
            Written(o) && o.out.pkt.typ == PacketMPLS && o.out.pkt.data == Push(body, a)
    decreases |hops|
  {
    SwapOne(hops[0], a, a, body);
    if |hops| > 1 {
      LabelLoopNeverExpires(hops[1..], a, body);
    }
  }
}
