/** The next-hop resolver of internal/router/nexthop.go. Go visits a map in no fixed order, so the
    order of the visit is a parameter, and the results are stated for every order. */
module Nexthop {
  import opened Bytes
  import opened Netip
  import opened Fib

  type TransportIPs = map<string, seq<Prefix>>

  /** A way to visit the keys of a map, each once. */
  ghost predicate IsOrder(order: seq<string>, keys: set<string>) {
    && (forall i, j :: 0 <= i < j < |order| ==> order[i] != order[j])
    && (forall n :: n in order <==> n in keys)
  }

  /** The length of the longest of the prefixes that holds the address, -1 if none does. */
  function BestLen(prefixes: seq<Prefix>, a: Addr): (len: int)
    ensures len >= -1
  {
    if prefixes == [] then -1
    else
      var rest := BestLen(prefixes[..|prefixes| - 1], a);
      var last := prefixes[|prefixes| - 1];
      if Contains(last, a) && last.bits > rest then last.bits else rest
  }

  /** A missing key of a Go map reads as the empty slice. */
  function Prefixes(ips: TransportIPs, name: string): seq<Prefix> {
    if name in ips then ips[name] else []
  }

  lemma HasMatch(prefixes: seq<Prefix>, i: nat, a: Addr)
    requires i < |prefixes| && Contains(prefixes[i], a)
    ensures BestLen(prefixes, a) >= 0
  {
    BestLenMeaning(prefixes, a);
  }

  function LenOf(ips: TransportIPs, name: string, a: Addr): int {
    BestLen(Prefixes(ips, name), a)
  }

  /** BestLen bounds every matching length and, unless -1, is one. */
  lemma {:induction false} BestLenMeaning(prefixes: seq<Prefix>, a: Addr)
    ensures forall i :: 0 <= i < |prefixes| && Contains(prefixes[i], a) ==> prefixes[i].bits <= BestLen(prefixes, a)
    ensures BestLen(prefixes, a) >= 0 ==>
              exists i :: 0 <= i < |prefixes| && Contains(prefixes[i], a) && prefixes[i].bits == BestLen(prefixes, a)
  {
    if prefixes != [] {
      var n := |prefixes| - 1;
      BestLenMeaning(prefixes[..n], a);
      assert forall i :: 0 <= i < n ==> prefixes[i] == prefixes[..n][i];
    }
  }

  lemma BestLenStep(prefixes: seq<Prefix>, m: nat, a: Addr)
    requires m < |prefixes|
    ensures BestLen(prefixes[..m + 1], a)
         == if Contains(prefixes[m], a) && prefixes[m].bits > BestLen(prefixes[..m], a)
            then prefixes[m].bits else BestLen(prefixes[..m], a)
  {
    assert prefixes[..m + 1][..m] == prefixes[..m];
  }

  /** The better of two candidates; the first stays on a tie. */
  function Longer(name: string, len: int, name': string, len': int): (string, int) {
    if len' > len then (name', len') else (name, len)
  }

  /** The name and length the nested search holds after visiting `order`. */
  function Scan(ips: TransportIPs, order: seq<string>, a: Addr): (string, int) {
    if order == [] then ("", -1)
    else
      var before := Scan(ips, order[..|order| - 1], a);
      var last := order[|order| - 1];
      Longer(before.0, before.1, last, LenOf(ips, last, a))
  }

  lemma ScanStep(ips: TransportIPs, order: seq<string>, k: nat, a: Addr)
    requires k < |order|
    ensures var before := Scan(ips, order[..k], a);
            Scan(ips, order[..k + 1], a) == Longer(before.0, before.1, order[k], LenOf(ips, order[k], a))
  {
    assert order[..k + 1][..k] == order[..k];
  }

  /** Resolve's answer: the search's if it found a prefix, else that of the FIB. */
  function Resolved(ips: TransportIPs, routes: seq<FIBEntry>, order: seq<string>, a: Addr): (string, bool)
  {
    var (name, len) := Scan(ips, order, a);
    if len >= 0 then (name, true)
    else
      match FirstMatch(routes, a)
      case Some(e) => (e.transport, true)
      case None => ("", false)
  }

  /** The first transport on the visit with a prefix that holds the address. */
  function FirstHolder(ips: TransportIPs, order: seq<string>, a: Addr): Option<string>
  {
    if order == [] then None
    else if LenOf(ips, order[0], a) >= 0 then Some(order[0])
    else FirstHolder(ips, order[1..], a)
  }

  lemma HolderStep(ips: TransportIPs, order: seq<string>, k: nat, a: Addr)
    requires k < |order|
    ensures FirstHolder(ips, order[k..], a)
         == if LenOf(ips, order[k], a) >= 0 then Some(order[k]) else FirstHolder(ips, order[k + 1..], a)
  {
    assert order[k..][1..] == order[k + 1..];
  }

  /** ResolveTransport's answer: transport, direct next hop, found. */
  function ResolvedTransport(ips: TransportIPs, routes: seq<FIBEntry>, order: seq<string>, a: Addr)
      : (string, Addr, bool)
  {
    match FirstHolder(ips, order, a)
    case Some(name) => (name, a, true)
    case None =>
      match FirstMatch(routes, a)
      case Some(e) => (e.transport, e.nextHop, true)
      case None => ("", NoAddr, false)
  }

  class NexthopResolver {
    const fib: FIB
    var transportIPs: TransportIPs

    constructor (fib: FIB)
      ensures this.fib == fib && transportIPs == map[]
    {
      this.fib := fib;
      transportIPs := map[];
    }

    method AddTransport(name: string, prefixes: seq<Prefix>)
      modifies this
      ensures transportIPs == old(transportIPs)[name := prefixes]
    {
      transportIPs := transportIPs[name := prefixes];
    }

    method RemoveTransport(name: string)
      modifies this
      ensures transportIPs == old(transportIPs) - {name}
    {
      transportIPs := transportIPs - {name};
    }

    /** The nested search over all transports and their prefixes. */
    method Search(nexthop: Addr, order: seq<string>) returns (best: string, bestLen: int)
      ensures (best, bestLen) == Scan(transportIPs, order, nexthop)
    {
      best, bestLen := "", -1;
      for k := 0 to |order|
        invariant Scan(transportIPs, order[..k], nexthop) == (best, bestLen)
      {
        var prefixes := Prefixes(transportIPs, order[k]);
        ghost var name, len := best, bestLen;
        for m := 0 to |prefixes|
          invariant (best, bestLen) == Longer(name, len, order[k], BestLen(prefixes[..m], nexthop))
        {
          BestLenStep(prefixes, m, nexthop);
          if Contains(prefixes[m], nexthop) && prefixes[m].bits > bestLen {
            bestLen := prefixes[m].bits;
            best := order[k];
          }
        }
        assert prefixes[..|prefixes|] == prefixes;
        ScanStep(transportIPs, order, k, nexthop);
      }
      assert order[..|order|] == order;
    }

    method Resolve(nexthop: Addr, order: seq<string>) returns (transportName: string, found: bool)
      requires fib.Valid() && IsOrder(order, transportIPs.Keys)
      ensures (transportName, found) == Resolved(transportIPs, fib.Routes(), order, nexthop)
    {
      var best, bestLen := Search(nexthop, order);
      if bestLen >= 0 {
        return best, true;
      }
      var entry := fib.Lookup(nexthop);
      if entry.Some? {
        return entry.value.transport, true;
      }
      return "", false;
    }

    /** The nested search that stops at the first match. */
    method SearchFirst(nexthop: Addr, order: seq<string>) returns (name: Option<string>)
      ensures name == FirstHolder(transportIPs, order, nexthop)
    {
      for k := 0 to |order|
        invariant FirstHolder(transportIPs, order, nexthop) == FirstHolder(transportIPs, order[k..], nexthop)
      {
        var prefixes := Prefixes(transportIPs, order[k]);
        HolderStep(transportIPs, order, k, nexthop);
        for m := 0 to |prefixes|
          invariant BestLen(prefixes[..m], nexthop) == -1
        {
          BestLenStep(prefixes, m, nexthop);
          if Contains(prefixes[m], nexthop) {
            HasMatch(prefixes, m, nexthop);
            return Some(order[k]);
          }
        }
        assert prefixes[..|prefixes|] == prefixes;
      }
      return None;
    }

    method ResolveTransport(nexthop: Addr, order: seq<string>)
      returns (transportName: string, directNextHop: Addr, found: bool)
      requires fib.Valid() && IsOrder(order, transportIPs.Keys)
      ensures (transportName, directNextHop, found)
           == ResolvedTransport(transportIPs, fib.Routes(), order, nexthop)
    {
      var name := SearchFirst(nexthop, order);
      if name.Some? {
        return name.value, nexthop, true;
      }
      var entry := fib.Lookup(nexthop);
      if entry.Some? {
        return entry.value.transport, entry.value.nextHop, true;
      }
      return "", NoAddr, false;
    }
  }

  // Every order

  /** A transport with a prefix that holds the address. */
  ghost predicate Holds(ips: TransportIPs, a: Addr, n: string) {
    n in ips && exists p :: p in ips[n] && Contains(p, a)
  }

  /** A transport with a prefix that is a longest match over all transports. */
  ghost predicate Owns(ips: TransportIPs, a: Addr, n: string) {
    n in ips && exists p :: p in ips[n] && Contains(p, a) && NoneLonger(ips, a, p.bits)
  }

  ghost predicate NoneLonger(ips: TransportIPs, a: Addr, len: int) {
    forall m, q :: m in ips && q in ips[m] && Contains(q, a) ==> q.bits <= len
  }

  lemma HoldsByLen(ips: TransportIPs, a: Addr, n: string)
    ensures Holds(ips, a, n) <==> LenOf(ips, n, a) >= 0
    ensures n in ips ==> forall q :: q in ips[n] && Contains(q, a) ==> q.bits <= LenOf(ips, n, a)
  {
    var prefixes := Prefixes(ips, n);
    BestLenMeaning(prefixes, a);
  }

  /** Lengths decide who holds the address and who owns a longest match. */
  lemma ByLen(ips: TransportIPs, a: Addr)
    ensures forall n :: Holds(ips, a, n) <==> LenOf(ips, n, a) >= 0
    ensures forall n :: Owns(ips, a, n) <==> OwnsByLen(ips, a, n)
  {
    forall n
      ensures Holds(ips, a, n) <==> LenOf(ips, n, a) >= 0
    {
      HoldsByLen(ips, a, n);
    }
    forall n
      ensures Owns(ips, a, n) <==> OwnsByLen(ips, a, n)
    {
      OwnsLen(ips, a, n);
    }
  }

  ghost predicate OwnsByLen(ips: TransportIPs, a: Addr, n: string) {
    LenOf(ips, n, a) >= 0 && forall m :: m in ips ==> LenOf(ips, m, a) <= LenOf(ips, n, a)
  }

  lemma OwnsLen(ips: TransportIPs, a: Addr, n: string)
    ensures Owns(ips, a, n) <==> OwnsByLen(ips, a, n)
  {
    HoldsByLen(ips, a, n);
    BestLenMeaning(Prefixes(ips, n), a);
    if Owns(ips, a, n) {
      forall m | m in ips
        ensures LenOf(ips, m, a) <= LenOf(ips, n, a)
      {
        BestLenMeaning(Prefixes(ips, m), a);
      }
    }
    if OwnsByLen(ips, a, n) {
      var i :| 0 <= i < |ips[n]| && Contains(ips[n][i], a) && ips[n][i].bits == LenOf(ips, n, a);
      forall m, q | m in ips && q in ips[m] && Contains(q, a)
        ensures q.bits <= ips[n][i].bits
      {
        HoldsByLen(ips, a, m);
      }
      assert ips[n][i] in ips[n] && NoneLonger(ips, a, ips[n][i].bits);
    }
  }

  /** The search keeps the first of the visited transports that have the longest match: the one
      visited `k`-th. */
  lemma {:induction false} ScanKeepsFirst(ips: TransportIPs, order: seq<string>, a: Addr) returns (k: nat)
    ensures Scan(ips, order, a).1 >= -1
    ensures forall i :: 0 <= i < |order| ==> LenOf(ips, order[i], a) <= Scan(ips, order, a).1
    ensures Scan(ips, order, a).1 >= 0 ==>
              && k < |order| && Scan(ips, order, a) == (order[k], LenOf(ips, order[k], a))
              && forall i :: 0 <= i < k ==> LenOf(ips, order[i], a) < LenOf(ips, order[k], a)
  {
    k := 0;
    if order != [] {
      var n := |order| - 1;
      var front := order[..n];
      k := ScanKeepsFirst(ips, front, a);
      assert forall i :: 0 <= i < n ==> order[i] == front[i];
      if LenOf(ips, order[n], a) > Scan(ips, front, a).1 {
        k := n;
      }
    }
  }

  lemma ResolveByLen(ips: TransportIPs, routes: seq<FIBEntry>, order: seq<string>, a: Addr)
    requires IsOrder(order, ips.Keys)
    ensures var (name, len) := Scan(ips, order, a);
            if len >= 0 then Resolved(ips, routes, order, a) == (name, true) && OwnsByLen(ips, a, name)
            else forall n :: LenOf(ips, n, a) < 0
  {
    var k := ScanKeepsFirst(ips, order, a);
    forall m | m in ips
      ensures LenOf(ips, m, a) <= Scan(ips, order, a).1
    {
      var i :| 0 <= i < |order| && order[i] == m;
    }
  }

  /** For every visiting order: the FIB is consulted exactly when no transport prefix holds the
      address, and otherwise the answer owns a longest match over all transports. */
  lemma ResolveIsLongest(ips: TransportIPs, routes: seq<FIBEntry>, order: seq<string>, a: Addr)
    requires IsOrder(order, ips.Keys)
    ensures Scan(ips, order, a).1 >= 0 <==> exists n :: Holds(ips, a, n)
    ensures (exists n :: Holds(ips, a, n)) ==>
              Resolved(ips, routes, order, a).1 && Owns(ips, a, Resolved(ips, routes, order, a).0)
  {
    ByLen(ips, a);
    ResolveByLen(ips, routes, order, a);
    if Scan(ips, order, a).1 >= 0 {
      assert Holds(ips, a, Scan(ips, order, a).0);
    }
  }

  lemma {:induction false} FirstHolderFound(ips: TransportIPs, order: seq<string>, a: Addr)
    ensures FirstHolder(ips, order, a).Some? <==> exists i :: 0 <= i < |order| && Holds(ips, a, order[i])
    ensures FirstHolder(ips, order, a).Some? ==> Holds(ips, a, FirstHolder(ips, order, a).value)
  {
    if order != [] {
      HoldsByLen(ips, a, order[0]);
    }
    if order != [] && !Holds(ips, a, order[0]) {
      FirstHolderFound(ips, order[1..], a);
      if i :| 0 <= i < |order| && Holds(ips, a, order[i]) {
        assert order[1..][i - 1] == order[i];
      }
    }
  }

  /** The keys of a map can be visited with any of them first. */
  lemma OrderFrom(keys: set<string>) returns (order: seq<string>)
    ensures IsOrder(order, keys)
    decreases keys
  {
    if keys == {} {
      order := [];
    } else {
      var n :| n in keys;
      order := OrderWithFirst(keys, n);
    }
  }

  lemma OrderWithFirst(keys: set<string>, n: string) returns (order: seq<string>)
    requires n in keys
    ensures IsOrder(order, keys) && order != [] && order[0] == n
    decreases keys, 0
  {
    var rest := OrderFrom(keys - {n});
    order := [n] + rest;
    assert n !in rest;
  }

  lemma OwnerFirst(ips: TransportIPs, routes: seq<FIBEntry>, order: seq<string>, a: Addr)
    requires IsOrder(order, ips.Keys) && order != [] && Owns(ips, a, order[0])
    ensures Resolved(ips, routes, order, a) == (order[0], true)
  {
    var k := ScanKeepsFirst(ips, order, a);
    OwnsLen(ips, a, order[0]);
    assert LenOf(ips, order[0], a) <= Scan(ips, order, a).1;
  }

  /** Resolve depends on the visiting order exactly when two transports own a longest match. */
  lemma ResolveOrderExactly(ips: TransportIPs, routes: seq<FIBEntry>, a: Addr)
    ensures (exists o, o' :: IsOrder(o, ips.Keys) && IsOrder(o', ips.Keys) &&
               Resolved(ips, routes, o, a) != Resolved(ips, routes, o', a))
       <==> (exists n, n' :: n != n' && Owns(ips, a, n) && Owns(ips, a, n'))
  {
    if o, o' :| IsOrder(o, ips.Keys) && IsOrder(o', ips.Keys) &&
                Resolved(ips, routes, o, a) != Resolved(ips, routes, o', a) {
      ResolveIsLongest(ips, routes, o, a);
      ResolveIsLongest(ips, routes, o', a);
      assert Owns(ips, a, Resolved(ips, routes, o, a).0) && Owns(ips, a, Resolved(ips, routes, o', a).0);
    }
    if n, n' :| n != n' && Owns(ips, a, n) && Owns(ips, a, n') {
      var o := OrderWithFirst(ips.Keys, n);
      var o' := OrderWithFirst(ips.Keys, n');
      OwnerFirst(ips, routes, o, a);
      OwnerFirst(ips, routes, o', a);
    }
  }

  ghost predicate Held(ips: TransportIPs, a: Addr) {
    exists n :: Holds(ips, a, n)
  }

  lemma ResolvedFound(ips: TransportIPs, routes: seq<FIBEntry>, order: seq<string>, a: Addr)
    requires IsOrder(order, ips.Keys)
    ensures Resolved(ips, routes, order, a).1 <==> Held(ips, a) || FirstMatch(routes, a).Some?
  {
    ResolveIsLongest(ips, routes, order, a);
  }

  lemma TransportFound(ips: TransportIPs, routes: seq<FIBEntry>, order: seq<string>, a: Addr)
    requires IsOrder(order, ips.Keys)
    ensures ResolvedTransport(ips, routes, order, a).2 <==> Held(ips, a) || FirstMatch(routes, a).Some?
  {
    FirstHolderFound(ips, order, a);
    if n :| Holds(ips, a, n) {
      var i :| 0 <= i < |order| && order[i] == n;
    }
  }

  /** The two searches always agree on whether they found something. */
  lemma FoundAgrees(ips: TransportIPs, routes: seq<FIBEntry>, o: seq<string>, o': seq<string>, a: Addr)
    requires IsOrder(o, ips.Keys) && IsOrder(o', ips.Keys)
    ensures Resolved(ips, routes, o, a).1 == ResolvedTransport(ips, routes, o', a).2
  {
    ResolvedFound(ips, routes, o, a);
    TransportFound(ips, routes, o', a);
  }

  ghost predicate NamesAgree(ips: TransportIPs, routes: seq<FIBEntry>, a: Addr) {
    forall o, o' :: IsOrder(o, ips.Keys) && IsOrder(o', ips.Keys) ==>
                      Resolved(ips, routes, o, a).0 == ResolvedTransport(ips, routes, o', a).0
  }

  ghost predicate OneHolder(ips: TransportIPs, a: Addr) {
    forall n, n' :: Holds(ips, a, n) && Holds(ips, a, n') ==> n == n'
  }

  lemma OneHolderAgrees(ips: TransportIPs, routes: seq<FIBEntry>, o: seq<string>, o': seq<string>, a: Addr)
    requires IsOrder(o, ips.Keys) && IsOrder(o', ips.Keys) && OneHolder(ips, a)
    ensures Resolved(ips, routes, o, a).0 == ResolvedTransport(ips, routes, o', a).0
  {
    ResolveIsLongest(ips, routes, o, a);
    FirstHolderFound(ips, o', a);
    if n :| Holds(ips, a, n) {
      var i :| 0 <= i < |o'| && o'[i] == n;
      assert Holds(ips, a, o'[i]);
      assert Holds(ips, a, Resolved(ips, routes, o, a).0);
    }
  }

  /** The longest-match search and the first-match search name the same transport in all orders
      exactly when at most one transport has a prefix that holds the address. */
  lemma NamesAgreeExactly(ips: TransportIPs, routes: seq<FIBEntry>, a: Addr)
    ensures NamesAgree(ips, routes, a) <==> OneHolder(ips, a)
  {
    if OneHolder(ips, a) {
      forall o, o' | IsOrder(o, ips.Keys) && IsOrder(o', ips.Keys)
        ensures Resolved(ips, routes, o, a).0 == ResolvedTransport(ips, routes, o', a).0
      {
        OneHolderAgrees(ips, routes, o, o', a);
      }
    } else {
      var n, n' :| Holds(ips, a, n) && Holds(ips, a, n') && n != n';
      var o := OrderWithFirst(ips.Keys, n);
      var o' := OrderWithFirst(ips.Keys, n');
      HoldsByLen(ips, a, n);
      HoldsByLen(ips, a, n');
      assert ResolvedTransport(ips, routes, o, a).0 == n && ResolvedTransport(ips, routes, o', a).0 == n';
      assert Resolved(ips, routes, o, a).0 != n || Resolved(ips, routes, o, a).0 != n';
    }
  }
}
