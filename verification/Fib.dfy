/** The forwarding table of internal/router/fib.go: an array kept in order of prefix length. */
module Fib {
  import opened Bytes
  import opened Netip

  datatype Action = ActionForward | ActionPush | ActionLocal

  datatype FIBEntry = FIBEntry(prefix: Prefix, nextHop: Addr, transport: string, action: Action,
                               outLabels: seq<uint32>)

  type Table = map<Prefix, FIBEntry>

  // Route lists

  ghost predicate Sorted(routes: seq<FIBEntry>) {
    forall i, j :: 0 <= i < j < |routes| ==> routes[i].prefix.bits >= routes[j].prefix.bits
  }

  ghost predicate Distinct(routes: seq<FIBEntry>) {
    forall i, j :: 0 <= i < j < |routes| ==> routes[i].prefix != routes[j].prefix
  }

  /** The lists a FIB can hold. */
  ghost predicate Kept(routes: seq<FIBEntry>) {
    Sorted(routes) && Distinct(routes)
  }

  /** What a route list means: one entry per prefix. */
  ghost function TableOf(routes: seq<FIBEntry>): (t: Table)
    requires Distinct(routes)
    ensures forall e :: e in routes <==> e.prefix in t && t[e.prefix] == e
    ensures forall p :: p in t ==> t[p].prefix == p
  {
    map e | e in routes :: e.prefix := e
  }

  /** The scan that stops at the first entry holding the address. */
  function FirstMatch(routes: seq<FIBEntry>, a: Addr): Option<FIBEntry> {
    if routes == [] then None
    else if Contains(routes[0].prefix, a) then Some(routes[0])
    else FirstMatch(routes[1..], a)
  }

  /** Longest prefix match on the table alone (section 5.2.4.3 of RFC 1812). */
  ghost predicate IsLongest(t: Table, a: Addr, r: Option<FIBEntry>) {
    match r
    case None => forall p :: p in t ==> !Contains(p, a)
    case Some(e) =>
      && e.prefix in t && t[e.prefix] == e && Contains(e.prefix, a)
      && forall p :: p in t && Contains(p, a) ==> p.bits <= e.prefix.bits
  }

  lemma {:induction false} FirstMatchAppend(routes: seq<FIBEntry>, e: FIBEntry, a: Addr)
    ensures FirstMatch(routes + [e], a)
         == if FirstMatch(routes, a).Some? then FirstMatch(routes, a)
            else if Contains(e.prefix, a) then Some(e) else None
  {
    if routes == [] {
      assert (routes + [e])[1..] == [];
    } else {
      assert (routes + [e])[1..] == routes[1..] + [e];
      FirstMatchAppend(routes[1..], e, a);
    }
  }

  lemma FirstMatchStep(routes: seq<FIBEntry>, i: nat, a: Addr)
    requires i < |routes|
    ensures FirstMatch(routes[..i + 1], a)
         == if FirstMatch(routes[..i], a).Some? then FirstMatch(routes[..i], a)
            else if Contains(routes[i].prefix, a) then Some(routes[i]) else None
  {
    FirstMatchAppend(routes[..i], routes[i], a);
    assert routes[..i + 1] == routes[..i] + [routes[i]];
  }

  lemma {:induction false} FirstMatchIndex(routes: seq<FIBEntry>, a: Addr) returns (k: nat)
    ensures k <= |routes| && forall i :: 0 <= i < k ==> !Contains(routes[i].prefix, a)
    ensures k < |routes| ==> Contains(routes[k].prefix, a)
    ensures FirstMatch(routes, a) == if k < |routes| then Some(routes[k]) else None
  {
    if routes == [] || Contains(routes[0].prefix, a) {
      k := 0;
    } else {
      var k' := FirstMatchIndex(routes[1..], a);
      k := k' + 1;
    }
  }

  /** In list order the first entry holding an address is a longest match. */
  lemma FirstMatchIsLongest(routes: seq<FIBEntry>, a: Addr)
    requires Kept(routes)
    ensures IsLongest(TableOf(routes), a, FirstMatch(routes, a))
  {
    var t := TableOf(routes);
    var k := FirstMatchIndex(routes, a);
    forall p | p in t && Contains(p, a)
      ensures k < |routes| && p.bits <= routes[k].prefix.bits
    {
      var i :| 0 <= i < |routes| && routes[i] == t[p];
      assert i >= k;
    }
  }

  // Exchanging two entries

  function Swapped(s: seq<FIBEntry>, i: nat, j: nat): (r: seq<FIBEntry>)
    requires i < j < |s|
    ensures |r| == |s|
  {
    s[i := s[j]][j := s[i]]
  }

  /** Two lists that hold the same routes, perhaps in another order. */
  ghost predicate SameRoutes(s: seq<FIBEntry>, r: seq<FIBEntry>) {
    multiset(s) == multiset(r)
  }

  lemma OnceIn(s: seq<FIBEntry>, i: nat)
    requires Distinct(s) && i < |s|
    ensures multiset(s)[s[i]] == 1
  {
    assert s == s[..i] + ([s[i]] + s[i + 1..]);
    assert multiset(s) == multiset(s[..i]) + (multiset([s[i]]) + multiset(s[i + 1..]));
    assert s[i] !in s[..i] && s[i] !in s[i + 1..];
  }

  lemma TwiceIn(r: seq<FIBEntry>, k: nat, m: nat)
    requires k < m < |r| && r[k] == r[m]
    ensures multiset(r)[r[k]] >= 2
  {
    assert r == r[..m] + r[m..];
    assert r[..m][k] == r[k] && r[m..][0] == r[k];
    assert r[k] in multiset(r[..m]) && r[k] in multiset(r[m..]);
  }

  lemma DistinctInAnyOrder(s: seq<FIBEntry>, r: seq<FIBEntry>)
    requires Distinct(s) && SameRoutes(s, r)
    ensures Distinct(r)
  {
    forall k, m | 0 <= k < m < |r|
      ensures r[k].prefix != r[m].prefix
    {
      assert r[k] in multiset(s) && r[m] in multiset(s);
      var i :| 0 <= i < |s| && s[i] == r[k];
      var j :| 0 <= j < |s| && s[j] == r[m];
      OnceIn(s, i);
      if i == j {
        TwiceIn(r, k, m);
      }
    }
  }

  /** Entry `k` is at least as long as every later one before `end`. */
  ghost predicate Leads(s: seq<FIBEntry>, k: nat, end: nat)
    requires k < |s| && end <= |s|
  {
    forall m :: k < m < end ==> s[k].prefix.bits >= s[m].prefix.bits
  }

  /** The first `i` entries have reached their place. */
  ghost predicate Placed(s: seq<FIBEntry>, i: nat)
    requires i <= |s|
  {
    forall k :: 0 <= k < i ==> Leads(s, k, |s|)
  }

  /** One comparison of the exchange sort, and the exchange if it asks for one. */
  function Exchanged(s: seq<FIBEntry>, i: nat, j: nat): (r: seq<FIBEntry>)
    requires i < j < |s|
    ensures |r| == |s|
  {
    if s[j].prefix.bits > s[i].prefix.bits then Swapped(s, i, j) else s
  }

  /** The rest of round `i`, from comparison `j` on. */
  function Round(s: seq<FIBEntry>, i: nat, j: nat): (r: seq<FIBEntry>)
    requires i < j <= |s|
    ensures |r| == |s|
    decreases |s| - j
  {
    if j == |s| then s else Round(Exchanged(s, i, j), i, j + 1)
  }

  /** The rounds from `i` on. */
  function Rounds(s: seq<FIBEntry>, i: nat): (r: seq<FIBEntry>)
    requires i <= |s|
    ensures |r| == |s|
    decreases |s| - i
  {
    if i == |s| then s else Rounds(Round(s, i, i + 1), i + 1)
  }

  lemma RoundStep(s: seq<FIBEntry>, i: nat, j: nat)
    requires i < j < |s|
    ensures Round(s, i, j) == Round(Exchanged(s, i, j), i, j + 1)
  {
  }

  /** The list the exchange sort makes of `s`, entry by entry. */
  function ExchangeSorted(s: seq<FIBEntry>): (r: seq<FIBEntry>)
    ensures |r| == |s|
  {
    Rounds(s, 0)
  }

  lemma ExchangeStep(was: seq<FIBEntry>, s: seq<FIBEntry>, i: nat, j: nat)
    requires i < j < |s| && SameRoutes(was, s) && Placed(s, i) && Leads(s, i, j)
    ensures SameRoutes(was, Exchanged(s, i, j))
    ensures Placed(Exchanged(s, i, j), i) && Leads(Exchanged(s, i, j), i, j + 1)
  {
    var r := Exchanged(s, i, j);
    forall k | 0 <= k < i
      ensures Leads(r, k, |r|)
    {
      assert Leads(s, k, |s|);
      assert r[k] == s[k];
    }
  }

  lemma {:induction false} RoundSorts(was: seq<FIBEntry>, s: seq<FIBEntry>, i: nat, j: nat)
    requires i < j <= |s| && SameRoutes(was, s) && Placed(s, i) && Leads(s, i, j)
    ensures var r := Round(s, i, j);
            SameRoutes(was, r) && Placed(r, i) && Leads(r, i, |r|)
    decreases |s| - j
  {
    if j < |s| {
      ExchangeStep(was, s, i, j);
      RoundSorts(was, Exchanged(s, i, j), i, j + 1);
    }
  }

  lemma RoundEnds(s: seq<FIBEntry>, i: nat)
    requires i < |s| && Placed(s, i) && Leads(s, i, |s|)
    ensures Placed(s, i + 1)
  {
  }

  lemma AllPlaced(s: seq<FIBEntry>)
    requires Placed(s, |s|)
    ensures Sorted(s)
  {
    forall i, j | 0 <= i < j < |s|
      ensures s[i].prefix.bits >= s[j].prefix.bits
    {
      assert Leads(s, i, |s|);
    }
  }

  lemma {:induction false} RoundsSort(was: seq<FIBEntry>, s: seq<FIBEntry>, i: nat)
    requires i <= |s| && SameRoutes(was, s) && Placed(s, i)
    ensures SameRoutes(was, Rounds(s, i)) && Placed(Rounds(s, i), |s|)
    decreases |s| - i
  {
    if i < |s| {
      var r := Round(s, i, i + 1);
      RoundSorts(was, s, i, i + 1);
      RoundEnds(r, i);
      RoundsSort(was, r, i + 1);
    }
  }

  /** The exchange sort orders the list and keeps its entries. */
  lemma ExchangeSorts(s: seq<FIBEntry>)
    ensures Sorted(ExchangeSorted(s)) && SameRoutes(s, ExchangeSorted(s))
  {
    RoundsSort(s, s, 0);
    AllPlaced(ExchangeSorted(s));
  }

  lemma {:induction false} RoundStays(s: seq<FIBEntry>, i: nat, j: nat)
    requires Sorted(s) && i < j <= |s|
    ensures Round(s, i, j) == s
    decreases |s| - j
  {
    if j < |s| {
      RoundStays(s, i, j + 1);
    }
  }

  lemma {:induction false} RoundsStay(s: seq<FIBEntry>, i: nat)
    requires Sorted(s) && i <= |s|
    ensures Rounds(s, i) == s
    decreases |s| - i
  {
    if i < |s| {
      RoundStays(s, i, i + 1);
      RoundsStay(s, i + 1);
    }
  }

  /** It changes a list exactly when the list is out of order. */
  lemma SortedStaysExactly(s: seq<FIBEntry>)
    ensures ExchangeSorted(s) == s <==> Sorted(s)
  {
    ExchangeSorts(s);
    if Sorted(s) {
      RoundsStay(s, 0);
    }
  }

  lemma SameTable(s: seq<FIBEntry>, r: seq<FIBEntry>)
    requires Distinct(s) && SameRoutes(s, r)
    ensures Distinct(r) && TableOf(s) == TableOf(r)
  {
    DistinctInAnyOrder(s, r);
    forall e
      ensures e in s <==> e in r
    {
      assert e in s <==> e in multiset(s);
      assert e in r <==> e in multiset(r);
    }
    var t, u := TableOf(s), TableOf(r);
    assert forall p :: p in t ==> t[p] in s && t[p] in r;
    assert forall p :: p in u ==> u[p] in r && u[p] in s;
  }

  // The list after an operation

  /** Where the first entry of a prefix stands, or the length of the list. */
  function IndexOf(s: seq<FIBEntry>, p: Prefix): (i: nat)
    ensures i <= |s| && (i < |s| ==> s[i].prefix == p)
  {
    if s == [] || s[0].prefix == p then 0 else 1 + IndexOf(s[1..], p)
  }

  /** `p` is not the prefix of any of the first `i` entries. */
  ghost predicate AbsentBefore(s: seq<FIBEntry>, p: Prefix, i: nat)
    requires i <= |s|
  {
    forall k :: 0 <= k < i ==> s[k].prefix != p
  }

  lemma {:induction false} IndexIsFirst(s: seq<FIBEntry>, p: Prefix)
    ensures AbsentBefore(s, p, IndexOf(s, p))
  {
    if s != [] && s[0].prefix != p {
      IndexIsFirst(s[1..], p);
      assert forall k :: 0 < k < |s| ==> s[k] == s[1..][k - 1];
    }
  }

  lemma {:induction false} FoundAt(s: seq<FIBEntry>, p: Prefix, i: nat)
    requires i <= |s| && AbsentBefore(s, p, i) && (i < |s| ==> s[i].prefix == p)
    ensures IndexOf(s, p) == i
  {
    if s != [] && s[0].prefix != p {
      assert forall k :: 0 <= k < i - 1 ==> s[1..][k] == s[k + 1];
      FoundAt(s[1..], p, i - 1);
    }
  }

  /** The list Add leaves. */
  function Inserted(s: seq<FIBEntry>, e: FIBEntry): seq<FIBEntry> {
    var i := IndexOf(s, e.prefix);
    ExchangeSorted(if i < |s| then s[i := e] else s + [e])
  }

  function Without(s: seq<FIBEntry>, i: nat): seq<FIBEntry>
    requires i < |s|
  {
    s[..i] + s[i + 1..]
  }

  /** The list Remove leaves. */
  function Deleted(s: seq<FIBEntry>, p: Prefix): seq<FIBEntry> {
    var i := IndexOf(s, p);
    if i < |s| then Without(s, i) else s
  }

  class FIB {
    var data: array<FIBEntry>
    var size: nat

    ghost function Routes(): (s: seq<FIBEntry>)
      requires size <= data.Length
      reads this, data
    {
      data[..size]
    }

    ghost predicate Valid()
      reads this, data
    {
      size <= data.Length && Kept(Routes())
    }

    ghost function Contents(): Table
      requires Valid()
      reads this, data
    {
      TableOf(Routes())
    }

    constructor ()
      ensures Valid() && fresh(data)
      ensures Routes() == [] && Contents() == map[]
    {
      data := new FIBEntry[0];
      size := 0;
    }

    /** The scan by which Add, Remove and HasExact look for a prefix. */
    method Scan(prefix: Prefix) returns (i: nat)
      requires size <= data.Length
      ensures i == IndexOf(Routes(), prefix)
    {
      i := 0;
      while i < size && data[i].prefix != prefix
        invariant 0 <= i <= size
        invariant AbsentBefore(Routes(), prefix, i)
      {
        i := i + 1;
      }
      FoundAt(Routes(), prefix, i);
    }

    /** Sets the entry of a prefix, in place or at the end, and restores the order. */
    method Add(entry: FIBEntry)
      requires Valid()
      modifies this, data
      ensures Valid() && (data == old(data) || fresh(data))
      ensures Routes() == Inserted(old(Routes()), entry)
      ensures Contents() == old(Contents())[entry.prefix := entry]
    {
      ghost var was := Routes();
      var i := Scan(entry.prefix);
      if i < size {
        data[i] := entry;
        assert Routes() == was[i := entry];
      } else {
        if size == data.Length {
          Grow();
        }
        data[size] := entry;
        size := size + 1;
        assert Routes() == was + [entry];
      }
      Sort();
      InsertedKept(was, entry);
    }

    /** Takes the entry of a prefix out and shifts the rest down. */
    method Remove(prefix: Prefix)
      requires Valid()
      modifies this, data
      ensures Valid() && data == old(data)
      ensures Routes() == Deleted(old(Routes()), prefix)
      ensures Contents() == old(Contents()) - {prefix}
    {
      ghost var was := Routes();
      var i := Scan(prefix);
      if i < size {
        CloseGap(i);
      }
      DeletedKept(was, prefix);
    }

    /** The copy in Go's `append(routes[:i], routes[i+1:]...)`. */
    method CloseGap(i: nat)
      requires i < size <= data.Length
      modifies this`size, data
      ensures size == old(size) - 1
      ensures Routes() == Without(old(Routes()), i)
    {
      forall k | i <= k < size - 1 {
        data[k] := data[k + 1];
      }
      size := size - 1;
    }

    method HasExact(prefix: Prefix) returns (r: Option<FIBEntry>)
      requires Valid()
      ensures r == if prefix in Contents() then Some(Contents()[prefix]) else None
    {
      var i := Scan(prefix);
      IndexIsFirst(Routes(), prefix);
      if i < size {
        assert data[i] in Routes();
        return Some(data[i]);
      }
      return None;
    }

    /** The full scan for the longest match: it agrees with the scan that stops at the first
        match, and both with longest prefix match on the table. */
    method Lookup(a: Addr) returns (best: Option<FIBEntry>)
      requires Valid()
      ensures best == FirstMatch(Routes(), a)
      ensures IsLongest(Contents(), a, best)
    {
      ghost var s := Routes();
      best := None;
      var bestLen, i := -1, 0;
      while i < size
        invariant 0 <= i <= size
        invariant best == FirstMatch(s[..i], a)
        invariant bestLen == if best.Some? then best.value.prefix.bits else -1
        invariant best.Some? ==> forall k :: i <= k < size ==> s[k].prefix.bits <= bestLen
      {
        FirstMatchStep(s, i, a);
        assert Leads(s, i, |s|);
        if Contains(data[i].prefix, a) {
          if data[i].prefix.bits > bestLen {
            bestLen := data[i].prefix.bits;
            best := Some(data[i]);
          }
        }
        i := i + 1;
      }
      assert s[..size] == s;
      FirstMatchIsLongest(s, a);
    }

    method List() returns (result: seq<FIBEntry>)
      requires Valid()
      ensures result == Routes()
    {
      result := data[..size];
    }

    /** The inner loop: brings the longest of the entries from `i` on to place `i`. */
    method SortRound(i: nat)
      requires i < size <= data.Length
      modifies data
      ensures Routes() == Round(old(Routes()), i, i + 1)
    {
      ghost var was, now := Routes(), Routes();
      var j := i + 1;
      while j < size
        invariant i < j <= size
        invariant Routes() == now && Round(now, i, j) == Round(was, i, i + 1)
      {
        if data[j].prefix.bits > data[i].prefix.bits {
          data[i], data[j] := data[j], data[i];
        }
        RoundStep(now, i, j);
        now := Exchanged(now, i, j);
        j := j + 1;
      }
    }

    /** An exchange sort by falling prefix length; equal lengths may change order. */
    method Sort()
      requires size <= data.Length
      modifies data
      ensures Routes() == ExchangeSorted(old(Routes()))
      ensures Sorted(Routes()) && SameRoutes(old(Routes()), Routes())
    {
      ghost var was := Routes();
      var i := 0;
      while i < size
        invariant 0 <= i <= size
        invariant Rounds(Routes(), i) == ExchangeSorted(was)
      {
        SortRound(i);
        i := i + 1;
      }
      ExchangeSorts(was);
    }

    /** Room for one more entry, as append makes it. */
    method Grow()
      requires size <= data.Length
      modifies this
      ensures fresh(data) && size == old(size) && size < data.Length
      ensures Routes() == old(Routes())
    {
      var more := new FIBEntry[2 * data.Length + 1];
      forall i | 0 <= i < data.Length {
        more[i] := data[i];
      }
      assert more[..size] == data[..size];
      data := more;
    }
  }

  lemma ReplacedMembers(routes: seq<FIBEntry>, i: nat, e: FIBEntry, x: FIBEntry)
    requires Distinct(routes) && i < |routes| && routes[i].prefix == e.prefix
    ensures x in routes[i := e] <==> x == e || (x in routes && x.prefix != e.prefix)
  {
    var r := routes[i := e];
    if x in r {
      var k :| 0 <= k < |r| && r[k] == x;
      assert k == i || x == routes[k];
    }
    if x == e {
      assert r[i] == x;
    } else if x in routes && x.prefix != e.prefix {
      var k :| 0 <= k < |routes| && routes[k] == x;
      assert r[k] == x;
    }
  }

  lemma Replaced(routes: seq<FIBEntry>, i: nat, e: FIBEntry)
    requires Distinct(routes) && i < |routes| && routes[i].prefix == e.prefix
    ensures Distinct(routes[i := e])
    ensures TableOf(routes[i := e]) == TableOf(routes)[e.prefix := e]
  {
    forall x: FIBEntry
      ensures x in routes[i := e] <==> x == e || (x in routes && x.prefix != e.prefix)
    {
      ReplacedMembers(routes, i, e, x);
    }
    SameMaps(TableOf(routes[i := e]), TableOf(routes)[e.prefix := e]);
  }

  lemma Appended(routes: seq<FIBEntry>, e: FIBEntry)
    requires Distinct(routes) && forall k :: 0 <= k < |routes| ==> routes[k].prefix != e.prefix
    ensures Distinct(routes + [e])
    ensures TableOf(routes + [e]) == TableOf(routes)[e.prefix := e]
  {
    assert forall x :: x in routes + [e] <==> x in routes || x == e;
    SameMaps(TableOf(routes + [e]), TableOf(routes)[e.prefix := e]);
  }

  lemma WithoutMembers(routes: seq<FIBEntry>, i: nat, x: FIBEntry)
    requires Distinct(routes) && i < |routes|
    ensures x in Without(routes, i) <==> x in routes && x != routes[i]
  {
    if x in routes && x != routes[i] {
      var k :| 0 <= k < |routes| && routes[k] == x;
      assert Without(routes, i)[if k < i then k else k - 1] == x;
    }
    if x in Without(routes, i) {
      var k :| 0 <= k < |Without(routes, i)| && Without(routes, i)[k] == x;
      assert x == routes[if k < i then k else k + 1];
    }
  }

  lemma WithoutKept(routes: seq<FIBEntry>, i: nat)
    requires Kept(routes) && i < |routes|
    ensures Kept(Without(routes, i))
  {
    var r := Without(routes, i);
    assert forall k :: 0 <= k < |r| ==> r[k] == routes[if k < i then k else k + 1];
  }

  lemma Dropped(routes: seq<FIBEntry>, i: nat)
    requires Kept(routes) && i < |routes|
    ensures Kept(Without(routes, i))
    ensures TableOf(Without(routes, i)) == TableOf(routes) - {routes[i].prefix}
  {
    WithoutKept(routes, i);
    var r := Without(routes, i);
    forall x: FIBEntry
      ensures x in r <==> x in routes && x != routes[i]
    {
      WithoutMembers(routes, i, x);
    }
    SameMaps(TableOf(r), TableOf(routes) - {routes[i].prefix});
  }

  lemma InsertedKept(s: seq<FIBEntry>, e: FIBEntry)
    requires Distinct(s)
    ensures Kept(Inserted(s, e)) && TableOf(Inserted(s, e)) == TableOf(s)[e.prefix := e]
  {
    IndexIsFirst(s, e.prefix);
    var i := IndexOf(s, e.prefix);
    if i < |s| {
      Replaced(s, i, e);
    } else {
      Appended(s, e);
    }
    var u := if i < |s| then s[i := e] else s + [e];
    ExchangeSorts(u);
    SameTable(u, ExchangeSorted(u));
  }

  lemma DeletedKept(s: seq<FIBEntry>, p: Prefix)
    requires Kept(s)
    ensures Kept(Deleted(s, p)) && TableOf(Deleted(s, p)) == TableOf(s) - {p}
  {
    IndexIsFirst(s, p);
    var i := IndexOf(s, p);
    if i < |s| {
      Dropped(s, i);
    } else {
      assert p !in TableOf(s);
    }
  }

  /** A new prefix whose place is the end of the list goes there. */
  lemma InsertedLast(s: seq<FIBEntry>, e: FIBEntry)
    requires Kept(s + [e])
    ensures Inserted(s, e) == s + [e]
  {
    forall k | 0 <= k < |s|
      ensures s[k].prefix != e.prefix
    {
      assert (s + [e])[k] == s[k] && (s + [e])[|s|] == e;
    }
    FoundAt(s, e.prefix, |s|);
    SortedStaysExactly(s + [e]);
  }

  /** Tables are equal when they hold the same entries under their own prefixes. */
  lemma SameMaps(t: Table, u: Table)
    requires forall p :: p in t ==> t[p].prefix == p
    requires forall p :: p in u ==> u[p].prefix == p
    requires forall e: FIBEntry :: (e.prefix in t && t[e.prefix] == e) <==> (e.prefix in u && u[e.prefix] == e)
    ensures t == u
  {
    forall p | p in t
      ensures p in u && u[p] == t[p]
    {
      assert t[p].prefix in t && t[t[p].prefix] == t[p];
    }
    forall p | p in u
      ensures p in t
    {
      assert u[p].prefix in u && u[u[p].prefix] == u[p];
    }
  }
}
