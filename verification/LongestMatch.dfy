/** What the route order of internal/router/fib.go can and cannot influence. */
module LongestMatch {
  import opened Bytes
  import opened Netip
  import opened Fib

  /** A table whose keys are its entries' own prefixes, none with host bits. */
  ghost predicate MaskedTable(t: Table) {
    forall p :: p in t ==> t[p].prefix == p && Masked(p)
  }

  /** Longest prefix match determines the entry when prefixes are masked. */
  lemma LongestUnique(t: Table, a: Addr, r: Option<FIBEntry>, r': Option<FIBEntry>)
    requires MaskedTable(t)
    requires IsLongest(t, a, r) && IsLongest(t, a, r')
    ensures r == r'
  {
    if r.Some? && r'.Some? {
      MaskedUnique(r.value.prefix, r'.value.prefix, a);
    }
  }

  /** With masked prefixes a lookup depends on the table only: any two lists the FIB can hold for
      it, however they came about, give the same answer. */
  lemma LookupIgnoresOrder(s: seq<FIBEntry>, s': seq<FIBEntry>, a: Addr)
    requires Kept(s) && Kept(s') && TableOf(s) == TableOf(s')
    requires MaskedTable(TableOf(s))
    ensures FirstMatch(s, a) == FirstMatch(s', a)
  {
    FirstMatchIsLongest(s, a);
    FirstMatchIsLongest(s', a);
    LongestUnique(TableOf(s), a, FirstMatch(s, a), FirstMatch(s', a));
  }

  /** With masked prefixes a lookup finds an entry exactly when the entry's interval of addresses
      holds the address and no smaller interval of a listed prefix does. */
  lemma LookupExactly(s: seq<FIBEntry>, a: Addr, e: FIBEntry)
    requires Kept(s) && MaskedTable(TableOf(s))
    ensures FirstMatch(s, a) == Some(e) <==>
              && e in s && InInterval(e.prefix, a)
              && forall x :: x in s && InInterval(x.prefix, a) ==> x.prefix.bits <= e.prefix.bits
  {
    FirstMatchIsLongest(s, a);
    forall x | x in s
      ensures Contains(x.prefix, a) <==> InInterval(x.prefix, a)
    {
      MaskedContainsExactly(x.prefix, a);
    }
    if
      && e in s && InInterval(e.prefix, a)
      && forall x :: x in s && InInterval(x.prefix, a) ==> x.prefix.bits <= e.prefix.bits
    {
      assert IsLongest(TableOf(s), a, Some(e));
      LongestUnique(TableOf(s), a, FirstMatch(s, a), Some(e));
    }
  }

  /** A lookup misses exactly when no listed interval holds the address. */
  lemma LookupMissesExactly(s: seq<FIBEntry>, a: Addr)
    requires Kept(s) && MaskedTable(TableOf(s))
    ensures FirstMatch(s, a) == None <==> forall x :: x in s ==> !InInterval(x.prefix, a)
  {
    FirstMatchIsLongest(s, a);
    forall x | x in s
      ensures Contains(x.prefix, a) <==> InInterval(x.prefix, a)
    {
      MaskedContainsExactly(x.prefix, a);
    }
  }

  /** Two different entries are both longest matches of an address. */
  ghost predicate Tied(t: Table, a: Addr) {
    exists e, e' :: e != e' && IsLongest(t, a, Some(e)) && IsLongest(t, a, Some(e'))
  }

  ghost predicate OrderMatters(s: seq<FIBEntry>, a: Addr)
    requires Kept(s)
  {
    exists s' :: Kept(s') && TableOf(s') == TableOf(s) && FirstMatch(s', a) != FirstMatch(s, a)
  }

  /** Without masking, the order decides a lookup exactly for the addresses with tied entries. */
  lemma OrderMattersExactly(s: seq<FIBEntry>, a: Addr)
    requires Kept(s)
    ensures OrderMatters(s, a) <==> Tied(TableOf(s), a)
  {
    var t := TableOf(s);
    FirstMatchIsLongest(s, a);
    if OrderMatters(s, a) {
      var s' :| Kept(s') && TableOf(s') == t && FirstMatch(s', a) != FirstMatch(s, a);
      FirstMatchIsLongest(s', a);
      assert IsLongest(t, a, Some(FirstMatch(s, a).value)) && IsLongest(t, a, Some(FirstMatch(s', a).value));
    }
    if Tied(t, a) {
      var e, e' :| e != e' && IsLongest(t, a, Some(e)) && IsLongest(t, a, Some(e'));
      var other := if FirstMatch(s, a) == Some(e) then e' else e;
      var r := BringForward(s, a, other);
    }
  }

  lemma SwappedSorted(s: seq<FIBEntry>, i: nat, j: nat)
    requires Sorted(s) && i < j < |s| && s[i].prefix.bits == s[j].prefix.bits
    ensures Sorted(Swapped(s, i, j))
  {
    var r := Swapped(s, i, j);
    assert forall k :: 0 <= k < |s| ==> r[k].prefix.bits == s[k].prefix.bits;
  }

  lemma SwappedKept(s: seq<FIBEntry>, i: nat, j: nat)
    requires Kept(s) && i < j < |s| && s[i].prefix.bits == s[j].prefix.bits
    ensures Kept(Swapped(s, i, j)) && TableOf(Swapped(s, i, j)) == TableOf(s)
  {
    SwappedSorted(s, i, j);
    SameTable(s, Swapped(s, i, j));
  }

  lemma {:induction false} FirstMatchAt(s: seq<FIBEntry>, i: nat, a: Addr)
    requires i < |s| && Contains(s[i].prefix, a)
    requires forall e :: e in s[..i] ==> !Contains(e.prefix, a)
    ensures FirstMatch(s, a) == Some(s[i])
  {
    if i > 0 {
      assert s[0] in s[..i] && s[1..][..i - 1] == s[..i][1..];
      FirstMatchAt(s[1..], i - 1, a);
    }
  }

  lemma TiedAfter(s: seq<FIBEntry>, a: Addr, e: FIBEntry) returns (i: nat, j: nat)
    requires Kept(s) && IsLongest(TableOf(s), a, Some(e)) && FirstMatch(s, a) != Some(e)
    ensures i < j < |s| && s[j] == e && s[i].prefix.bits == e.prefix.bits && Contains(e.prefix, a)
    ensures forall e :: e in s[..i] ==> !Contains(e.prefix, a)
  {
    i := FirstMatchIndex(s, a);
    assert e in s;
    j :| 0 <= j < |s| && s[j] == e;
    FirstMatchIsLongest(s, a);
    assert s[i] in s;
  }

  /** A tied entry comes first after one exchange that respects the order by length. */
  lemma BringForward(s: seq<FIBEntry>, a: Addr, e: FIBEntry) returns (r: seq<FIBEntry>)
    requires Kept(s) && IsLongest(TableOf(s), a, Some(e)) && FirstMatch(s, a) != Some(e)
    ensures Kept(r) && TableOf(r) == TableOf(s) && FirstMatch(r, a) == Some(e)
  {
    var i, j := TiedAfter(s, a, e);
    r := Swapped(s, i, j);
    SwappedKept(s, i, j);
    assert r[i] == e && r[..i] == s[..i];
    FirstMatchAt(r, i, a);
  }

  /** Adding a route changes lookups only inside its prefix, and there only where no longer
      prefix covers the address. */
  lemma AddIsLocal(s: seq<FIBEntry>, e: FIBEntry, a: Addr)
    requires Kept(s) && MaskedTable(TableOf(s)) && Masked(e.prefix)
    ensures FirstMatch(Inserted(s, e), a)
         == if Contains(e.prefix, a) &&
               (FirstMatch(s, a).Some? ==> FirstMatch(s, a).value.prefix.bits <= e.prefix.bits)
            then Some(e) else FirstMatch(s, a)
  {
    var s' := Inserted(s, e);
    InsertedKept(s, e);
    FirstMatchIsLongest(s, a);
    FirstMatchIsLongest(s', a);
    AddedMatch(TableOf(s), e, a, FirstMatch(s, a), FirstMatch(s', a));
  }

  /** The same on tables: `r` and `r'` are longest matches before and after. */
  lemma AddedMatch(t: Table, e: FIBEntry, a: Addr, r: Option<FIBEntry>, r': Option<FIBEntry>)
    requires MaskedTable(t) && Masked(e.prefix)
    requires IsLongest(t, a, r) && IsLongest(t[e.prefix := e], a, r')
    ensures r' == if Contains(e.prefix, a) && (r.Some? ==> r.value.prefix.bits <= e.prefix.bits) then Some(e) else r
  {
    var t' := t[e.prefix := e];
    var want := if Contains(e.prefix, a) && (r.Some? ==> r.value.prefix.bits <= e.prefix.bits) then Some(e) else r;
    assert IsLongest(t', a, want);
    LongestUnique(t', a, r', want);
  }

  /** Removing a prefix changes lookups only where it was the answer; there the next longest
      covering prefix takes over, and it is strictly shorter. */
  lemma RemoveFallsBack(s: seq<FIBEntry>, p: Prefix, a: Addr)
    requires Kept(s) && MaskedTable(TableOf(s))
    ensures var r, r' := FirstMatch(s, a), FirstMatch(Deleted(s, p), a);
            if r.Some? && r.value.prefix == p
            then IsLongest(TableOf(s) - {p}, a, r') && (r'.Some? ==> r'.value.prefix.bits < p.bits)
            else r' == r
  {
    DeletedKept(s, p);
    FirstMatchIsLongest(s, a);
    FirstMatchIsLongest(Deleted(s, p), a);
    RemovedMatch(TableOf(s), p, a, FirstMatch(s, a), FirstMatch(Deleted(s, p), a));
  }

  lemma RemovedMatch(t: Table, p: Prefix, a: Addr, r: Option<FIBEntry>, r': Option<FIBEntry>)
    requires MaskedTable(t) && IsLongest(t, a, r) && IsLongest(t - {p}, a, r')
    ensures if r.Some? && r.value.prefix == p then r'.Some? ==> r'.value.prefix.bits < p.bits else r' == r
  {
    if r.Some? && r.value.prefix == p {
      if r'.Some? && r'.value.prefix.bits >= p.bits {
        MaskedUnique(p, r'.value.prefix, a);
        assert false;
      }
    } else {
      assert IsLongest(t - {p}, a, r);
      LongestUnique(t - {p}, a, r, r');
    }
  }

  // Runs of table updates

  datatype Update = Put(entry: FIBEntry) | Delete(prefix: Prefix) {
    function Key(): Prefix {
      match this
      case Put(e) => e.prefix
      case Delete(p) => p
    }
  }

  function Applied(t: Table, u: Update): Table {
    match u
    case Put(e) => t[e.prefix := e]
    case Delete(p) => t - {p}
  }

  /** The table after a run of updates, the first of the list first. */
  function Replayed(t: Table, us: seq<Update>): Table {
    if us == [] then t else Applied(Replayed(t, us[..|us| - 1]), us[|us| - 1])
  }

  function Get(t: Table, p: Prefix): Option<FIBEntry> {
    if p in t then Some(t[p]) else None
  }

  function OnPrefix(us: seq<Update>, p: Prefix): seq<Update> {
    if us == [] then []
    else OnPrefix(us[..|us| - 1], p) + if us[|us| - 1].Key() == p then [us[|us| - 1]] else []
  }

  /** The last update that concerns a prefix. */
  function LastOn(us: seq<Update>, p: Prefix): (r: Option<Update>)
    ensures r.Some? ==> r.value.Key() == p
  {
    if us == [] then None
    else if us[|us| - 1].Key() == p then Some(us[|us| - 1])
    else LastOn(us[..|us| - 1], p)
  }

  /** After any run a prefix holds what its last update says, or what it held before. */
  lemma {:induction false} LastUpdateWins(t: Table, us: seq<Update>, p: Prefix)
    ensures Get(Replayed(t, us), p)
         == match LastOn(us, p)
            case None => Get(t, p)
            case Some(Put(e)) => Some(e)
            case Some(Delete(_)) => None
  {
    if us != [] && us[|us| - 1].Key() != p {
      LastUpdateWins(t, us[..|us| - 1], p);
    }
  }

  lemma {:induction false} ReplayMasked(t: Table, us: seq<Update>)
    requires MaskedTable(t) && forall i :: 0 <= i < |us| ==> Masked(us[i].Key())
    ensures MaskedTable(Replayed(t, us))
  {
    if us != [] {
      ReplayMasked(t, us[..|us| - 1]);
    }
  }

  lemma SameGets(t: Table, t': Table)
    requires forall p: Prefix :: Get(t, p) == Get(t', p)
    ensures t == t'
  {
    assert forall p :: p in t <==> Get(t, p).Some?;
    assert forall p :: p in t' <==> Get(t', p).Some?;
    assert forall p :: p in t ==> Get(t, p).value == t[p];
    assert forall p :: p in t' ==> Get(t', p).value == t'[p];
  }

  ghost predicate SameLast(us: seq<Update>, vs: seq<Update>) {
    forall p: Prefix :: LastOn(us, p) == LastOn(vs, p)
  }

  ghost predicate SameEffect(us: seq<Update>, vs: seq<Update>) {
    forall t: Table :: Replayed(t, us) == Replayed(t, vs)
  }

  lemma SameLastReplay(t: Table, us: seq<Update>, vs: seq<Update>)
    requires SameLast(us, vs)
    ensures Replayed(t, us) == Replayed(t, vs)
  {
    forall p: Prefix
      ensures Get(Replayed(t, us), p) == Get(Replayed(t, vs), p)
    {
      LastUpdateWins(t, us, p);
      LastUpdateWins(t, vs, p);
    }
    SameGets(Replayed(t, us), Replayed(t, vs));
  }

  /** Two runs always leave the same table exactly when they agree on the last update of every
      prefix. */
  lemma SameEffectExactly(us: seq<Update>, vs: seq<Update>)
    ensures SameEffect(us, vs) <==> SameLast(us, vs)
  {
    if SameLast(us, vs) {
      forall t: Table
        ensures Replayed(t, us) == Replayed(t, vs)
      {
        SameLastReplay(t, us, vs);
      }
    }
    if SameEffect(us, vs) {
      forall p: Prefix
        ensures LastOn(us, p) == LastOn(vs, p)
      {
        SameEffectOn(us, vs, p);
      }
    }
  }

  lemma SameEffectOn(us: seq<Update>, vs: seq<Update>, p: Prefix)
    requires SameEffect(us, vs)
    ensures LastOn(us, p) == LastOn(vs, p)
  {
    var t: Table := map[];
    var t': Table := map[p := FIBEntry(p, NoAddr, "", ActionForward, [])];
    assert Replayed(t, us) == Replayed(t, vs);
    assert Replayed(t', us) == Replayed(t', vs);
    LastUpdateWins(t, us, p);
    LastUpdateWins(t, vs, p);
    LastUpdateWins(t', us, p);
    LastUpdateWins(t', vs, p);
    assert Get(t, p) == None && Get(t', p).Some?;
  }

  /** The list of a FIB after an operation, and after a run of them. */
  function ListAfter(s: seq<FIBEntry>, u: Update): seq<FIBEntry> {
    match u
    case Put(e) => Inserted(s, e)
    case Delete(p) => Deleted(s, p)
  }

  function ListRun(s: seq<FIBEntry>, us: seq<Update>): seq<FIBEntry> {
    if us == [] then s else ListAfter(ListRun(s, us[..|us| - 1]), us[|us| - 1])
  }

  method PerformOne(fib: FIB, u: Update)
    requires fib.Valid()
    modifies fib, fib.data
    ensures fib.Valid() && (fib.data == old(fib.data) || fresh(fib.data))
    ensures fib.Routes() == ListAfter(old(fib.Routes()), u)
  {
    match u {
      case Put(e) => fib.Add(e);
      case Delete(p) => fib.Remove(p);
    }
  }

  /** Runs a list of operations on a FIB. */
  method Perform(fib: FIB, us: seq<Update>)
    requires fib.Valid()
    modifies fib, fib.data
    ensures fib.Valid() && (fib.data == old(fib.data) || fresh(fib.data))
    ensures fib.Routes() == ListRun(old(fib.Routes()), us)
  {
    ghost var s := fib.Routes();
    for i := 0 to |us|
      invariant fib.Valid() && (fib.data == old(fib.data) || fresh(fib.data))
      invariant fib.Routes() == ListRun(s, us[..i])
    {
      PerformOne(fib, us[i]);
      ListRunStep(s, us, i);
    }
    assert us[..|us|] == us;
  }

  lemma ListRunStep(s: seq<FIBEntry>, us: seq<Update>, i: nat)
    requires i < |us|
    ensures ListRun(s, us[..i + 1]) == ListAfter(ListRun(s, us[..i]), us[i])
  {
    assert us[..i + 1][..i] == us[..i];
  }

  lemma ListAfterKept(s: seq<FIBEntry>, u: Update)
    requires Kept(s)
    ensures Kept(ListAfter(s, u)) && TableOf(ListAfter(s, u)) == Applied(TableOf(s), u)
  {
    match u
    case Put(e) => InsertedKept(s, e);
    case Delete(p) => DeletedKept(s, p);
  }

  lemma {:induction false} ListRunReplays(s: seq<FIBEntry>, us: seq<Update>)
    requires Kept(s)
    ensures Kept(ListRun(s, us)) && TableOf(ListRun(s, us)) == Replayed(TableOf(s), us)
  {
    if us != [] {
      ListRunReplays(s, us[..|us| - 1]);
      ListAfterKept(ListRun(s, us[..|us| - 1]), us[|us| - 1]);
    }
  }

  lemma NotYetThere(s: seq<FIBEntry>)
    requires s != [] && Distinct(s)
    ensures s[|s| - 1].prefix !in TableOf(s[..|s| - 1])
  {
  }

  lemma NewKeyCounts(t: Table, e: FIBEntry)
    requires e.prefix !in t
    ensures |t[e.prefix := e]| == |t| + 1
  {
  }

  lemma {:induction false} OneEntryPerPrefix(s: seq<FIBEntry>)
    requires Distinct(s)
    ensures |TableOf(s)| == |s|
  {
    if s == [] {
      assert TableOf(s) == map[];
    } else {
      var n := |s| - 1;
      var front := s[..n];
      assert s == front + [s[n]];
      OneEntryPerPrefix(front);
      NotYetThere(s);
      Appended(front, s[n]);
      NewKeyCounts(TableOf(front), s[n]);
    }
  }

  /** Every run refines a finite map: from the empty FIB, whatever is added and removed in
      whatever order, the list is one entry per prefix of the replayed map, and with masked
      prefixes a lookup is the map's only longest match. */
  lemma RunRefinesMap(us: seq<Update>, a: Addr)
    requires forall i :: 0 <= i < |us| ==> Masked(us[i].Key())
    ensures var t, s := Replayed(map[], us), ListRun([], us);
            && Kept(s) && TableOf(s) == t && |s| == |t|
            && (forall r :: IsLongest(t, a, r) <==> r == FirstMatch(s, a))
  {
    var t, s := Replayed(map[], us), ListRun([], us);
    ListRunReplays([], us);
    assert TableOf([]) == map[];
    OneEntryPerPrefix(s);
    ReplayMasked(map[], us);
    FirstMatchIsLongest(s, a);
    forall r | IsLongest(t, a, r)
      ensures r == FirstMatch(s, a)
    {
      LongestUnique(t, a, r, FirstMatch(s, a));
    }
  }

  // Insertion order

  /** Adding the entries of a list, one by one, to an empty FIB. */
  function Puts(es: seq<FIBEntry>): seq<Update> {
    if es == [] then [] else Puts(es[..|es| - 1]) + [Put(es[|es| - 1])]
  }

  function Loaded(es: seq<FIBEntry>): seq<FIBEntry> {
    ListRun([], Puts(es))
  }

  lemma LoadedStep(es: seq<FIBEntry>)
    requires es != []
    ensures Loaded(es) == Inserted(Loaded(es[..|es| - 1]), es[|es| - 1])
  {
    var front := Puts(es[..|es| - 1]);
    assert Puts(es)[..|front|] == front;
  }

  lemma LastAppended(es: seq<FIBEntry>)
    requires es != [] && Distinct(es)
    ensures var front, last := es[..|es| - 1], es[|es| - 1];
            Distinct(front) && TableOf(es) == TableOf(front)[last.prefix := last]
  {
    var front, last := es[..|es| - 1], es[|es| - 1];
    assert es == front + [last];
    Appended(front, last);
  }

  lemma {:induction false} LoadedTable(es: seq<FIBEntry>)
    requires Distinct(es)
    ensures Kept(Loaded(es)) && TableOf(Loaded(es)) == TableOf(es)
  {
    if es == [] {
      assert TableOf([]) == map[];
    } else {
      var front, last := es[..|es| - 1], es[|es| - 1];
      LastAppended(es);
      LoadedTable(front);
      LoadedStep(es);
      InsertedKept(Loaded(front), last);
    }
  }

  /** Every list in order, without repeated prefixes, is one a FIB comes to hold: by adding its
      entries from first to last. */
  lemma {:induction false} EveryKeptListIsReached(s: seq<FIBEntry>)
    requires Kept(s)
    ensures Loaded(s) == s
  {
    if s != [] {
      var front, last := s[..|s| - 1], s[|s| - 1];
      assert s == front + [last];
      LoadedStep(s);
      EveryKeptListIsReached(front);
      InsertedLast(front, last);
    }
  }

  /** The entries of `s` can be added to an empty FIB in two orders that answer `a` differently. */
  ghost predicate InsertionOrderMatters(s: seq<FIBEntry>, a: Addr)
    requires Kept(s)
  {
    exists es, es' :: Distinct(es) && Distinct(es') && TableOf(es) == TableOf(s) == TableOf(es')
                      && FirstMatch(Loaded(es), a) != FirstMatch(Loaded(es'), a)
  }

  /** Without masking, insertion order decides a lookup exactly for the addresses with tied
      entries. */
  lemma InsertionOrderExactly(s: seq<FIBEntry>, a: Addr)
    requires Kept(s)
    ensures InsertionOrderMatters(s, a) <==> Tied(TableOf(s), a)
  {
    OrderMattersExactly(s, a);
    if OrderMatters(s, a) {
      var s' :| Kept(s') && TableOf(s') == TableOf(s) && FirstMatch(s', a) != FirstMatch(s, a);
      EveryKeptListIsReached(s);
      EveryKeptListIsReached(s');
      assert FirstMatch(Loaded(s), a) != FirstMatch(Loaded(s'), a);
    }
    if InsertionOrderMatters(s, a) {
      var es, es' :| Distinct(es) && Distinct(es') && TableOf(es) == TableOf(s) == TableOf(es')
                     && FirstMatch(Loaded(es), a) != FirstMatch(Loaded(es'), a);
      LoadedTable(es);
      LoadedTable(es');
      OrderMattersExactly(Loaded(es), a);
    }
  }

  // Reordering

  lemma {:induction false} LastOfFilter(us: seq<Update>, p: Prefix)
    ensures LastOn(us, p)
         == if OnPrefix(us, p) == [] then None else Some(OnPrefix(us, p)[|OnPrefix(us, p)| - 1])
  {
    if us != [] {
      LastOfFilter(us[..|us| - 1], p);
    }
  }

  /** Updates of different prefixes may be reordered: two runs that agree prefix by prefix leave
      lists that answer every lookup alike. */
  lemma ReorderingIsInvisible(s: seq<FIBEntry>, us: seq<Update>, vs: seq<Update>, a: Addr)
    requires Kept(s) && MaskedTable(TableOf(s)) && forall i :: 0 <= i < |us| ==> Masked(us[i].Key())
    requires forall p: Prefix :: OnPrefix(us, p) == OnPrefix(vs, p)
    ensures FirstMatch(ListRun(s, us), a) == FirstMatch(ListRun(s, vs), a)
  {
    forall p: Prefix
      ensures LastOn(us, p) == LastOn(vs, p)
    {
      LastOfFilter(us, p);
      LastOfFilter(vs, p);
    }
    SameLastReplay(TableOf(s), us, vs);
    ReplayMasked(TableOf(s), us);
    ListRunReplays(s, us);
    ListRunReplays(s, vs);
    LookupIgnoresOrder(ListRun(s, us), ListRun(s, vs), a);
  }
}
