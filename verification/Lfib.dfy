/** The label table and the label allocator of internal/mpls/lfib.go. */
module Lfib {
  import opened Bytes
  import opened Netip

  datatype LabelOp = OpPop | OpSwap | OpPush | OpPHP

  datatype LFIBEntry = LFIBEntry(inLabel: uint32, op: LabelOp, outLabels: seq<uint32>, nextHop: Addr,
                                 transport: string)

  /** Labels as map keys. */
  datatype Key = Key(lbl: uint32)

  type LabelTable = map<Key, LFIBEntry>

  function Find(table: LabelTable, lbl: uint32): Option<LFIBEntry> {
    if Key(lbl) in table then Some(table[Key(lbl)]) else None
  }

  class LFIB {
    var entries: LabelTable

    constructor ()
      ensures entries == map[]
    {
      entries := map[];
    }

    method Add(entry: LFIBEntry)
      modifies this
      ensures entries == old(entries)[Key(entry.inLabel) := entry]
    {
      entries := entries[Key(entry.inLabel) := entry];
    }

    method Remove(inLabel: uint32)
      modifies this
      ensures entries == old(entries) - {Key(inLabel)}
    {
      entries := entries - {Key(inLabel)};
    }

    function Lookup(lbl: uint32): Option<LFIBEntry>
      reads this
    {
      Find(entries, lbl)
    }
  }
}

/** Label allocation: one counter, advanced by an atomic add and reset by an atomic store. */
module LabelAllocation {
  import opened Bytes

  const RESERVED_MAX: nat := 15
  const MAX: nat := 0xFFFFF
  const START: nat := RESERVED_MAX + 1
  const WORD32: nat := 0x1_0000_0000
  const WORD64: nat := 0x1_0000_0000_0000_0000

  // One goroutine

  /** The label a lone caller gets when the counter stands at `next`. */
  function Successor(next: nat): nat {
    if next < MAX then next + 1 else START + 1
  }

  class LabelAllocator {
    var next: nat

    ghost predicate Valid()
      reads this
    {
      START <= next <= MAX
    }

    constructor ()
      ensures Valid() && next == START
    {
      next := START;
    }

    /** The retry loop; called alone it goes round at most twice. */
    method Allocate() returns (lbl: nat, ghost rounds: nat)
      requires Valid()
      modifies this
      ensures Valid() && next == lbl && lbl == Successor(old(next))
      ensures lbl == if old(next) < 1048575 then old(next) + 1 else 17
      ensures rounds == if old(next) < MAX then 1 else 2
    {
      rounds := 0;
      while true
        invariant Valid()
        invariant next == if rounds == 0 then old(next) else START
        invariant rounds == 0 || (rounds == 1 && old(next) == MAX)
        decreases 2 - rounds
      {
        rounds := rounds + 1;
        next := (next + 1) % WORD64;
        lbl := next % WORD32;
        if lbl > MAX {
          next := START;
          continue;
        }
        if lbl <= RESERVED_MAX {
          continue;
        }
        return;
      }
    }
  }

  /** The counter of a new allocator after `n` calls. */
  function After(n: nat): nat {
    if n == 0 then START else Successor(After(n - 1))
  }

  const PERIOD: nat := MAX - START

  /** The label of the n-th call, counted from 0. */
  function Call(n: nat): nat {
    After(n + 1)
  }

  lemma {:induction false} NthLabel(n: nat)
    ensures Call(n) == 17 + n % 1048559
  {
    if n > 0 {
      NthLabel(n - 1);
    }
  }

  /** Any 1048559 consecutive calls hand out every unreserved label above 16 exactly once. */
  lemma WindowIsPermutation(first: nat, lbl: nat)
    requires 17 <= lbl <= 1048575
    ensures exists n :: first <= n < first + 1048559 && Call(n) == lbl
    ensures forall m, n :: first <= m < n < first + 1048559 ==> Call(m) != Call(n)
  {
    var want := lbl - START - 1;
    var n := first + (want - first) % PERIOD;
    NthLabel(n);
    SameResidue(first, want);
    forall m, n | first <= m < n < first + PERIOD
      ensures Call(m) != Call(n)
    {
      NthLabel(m);
      NthLabel(n);
      CloseResidues(m, n);
    }
  }

  lemma SameResidue(first: nat, want: nat)
    requires want < PERIOD
    ensures (first + (want - first) % PERIOD) % PERIOD == want
  {
    var q := (want - first) / PERIOD;
    assert first + (want - first) % PERIOD == want - q * PERIOD;
    assert (want - q * PERIOD) % PERIOD == want;
  }

  lemma CloseResidues(m: nat, n: nat)
    requires m < n < m + PERIOD
    ensures m % PERIOD != n % PERIOD
  {
  }

  // Any number of goroutines

  /** The counter, and the goroutines that have added past the end and not stored yet. */
  datatype Machine = Machine(next: nat, pending: set<nat>)

  /** The atomic actions of goroutine `g`. */
  datatype Step = AddStep(g: nat) | StoreStep(g: nat)

  const INITIAL := Machine(START, {})

  predicate Enabled(m: Machine, s: Step) {
    match s
    case AddStep(g) => g !in m.pending
    case StoreStep(g) => g in m.pending
  }

  function Taken(m: Machine, s: Step): Machine {
    match s
    case StoreStep(g) => Machine(START, m.pending - {g})
    case AddStep(g) =>
      var v := (m.next + 1) % WORD64;
      if v % WORD32 > MAX then Machine(v, m.pending + {g}) else Machine(v, m.pending)
  }

  /** The label a step returns to its caller. */
  function Returned(m: Machine, s: Step): Option<nat> {
    match s
    case StoreStep(_) => None
    case AddStep(_) =>
      var lbl := (m.next + 1) % WORD64 % WORD32;
      if lbl > MAX || lbl <= RESERVED_MAX then None else Some(lbl)
  }

  function Run(steps: seq<Step>): Machine {
    if steps == [] then INITIAL else Taken(Run(steps[..|steps| - 1]), steps[|steps| - 1])
  }

  /** An interleaving of the goroutines 0 .. k. */
  predicate Interleaving(steps: seq<Step>, k: nat) {
    steps == [] ||
    var front, last := steps[..|steps| - 1], steps[|steps| - 1];
    Interleaving(front, k) && last.g < k && Enabled(Run(front), last)
  }

  function LabelAt(steps: seq<Step>, i: nat): Option<nat>
    requires i < |steps|
  {
    Returned(Run(steps[..i]), steps[i])
  }

  ghost predicate Safe(m: Machine, k: nat) {
    START <= m.next <= MAX + |m.pending| && forall g :: g in m.pending ==> g < k
  }

  function UpTo(k: nat): (s: set<nat>)
    ensures forall g: nat :: g in s <==> g < k
    ensures |s| == k
  {
    if k == 0 then {}
    else
      var s := UpTo(k - 1);
      assert k - 1 !in s;
      s + {k - 1}
  }

  lemma SubsetSize(a: set<nat>, b: set<nat>)
    requires a <= b
    ensures |a| <= |b|
  {
    assert b == a + (b - a);
  }

  lemma PendingRoom(m: Machine, g: nat, k: nat)
    requires Safe(m, k) && g < k && g !in m.pending
    ensures |m.pending| + 1 <= k
  {
    SubsetSize(m.pending + {g}, UpTo(k));
  }

  /** One step keeps the counter within reach of the goroutines that overshot. */
  lemma StepSafe(m: Machine, s: Step, k: nat)
    requires Safe(m, k) && s.g < k && Enabled(m, s) && k <= 4293918720
    ensures Safe(Taken(m, s), k)
    ensures s.AddStep? ==> m.next + 1 < WORD32 && Taken(m, s).next == m.next + 1
    ensures Returned(m, s).Some? ==> Returned(m, s).value == m.next + 1 == Taken(m, s).next <= MAX
  {
    if s.AddStep? {
      PendingRoom(m, s.g, k);
      assert |m.pending + {s.g}| == |m.pending| + 1;
    }
  }

  /** In every interleaving the counter stays in range, whatever point it has reached. */
  lemma {:induction false} RunSafe(steps: seq<Step>, k: nat)
    requires Interleaving(steps, k) && k <= 4293918720
    ensures Safe(Run(steps), k)
  {
    if steps != [] {
      var n := |steps| - 1;
      RunSafe(steps[..n], k);
      StepSafe(Run(steps[..n]), steps[n], k);
    }
  }

  lemma {:induction false} PrefixInterleaving(steps: seq<Step>, i: nat, k: nat)
    requires Interleaving(steps, k) && i <= |steps|
    ensures Interleaving(steps[..i], k)
    ensures i < |steps| ==> steps[i].g < k && Enabled(Run(steps[..i]), steps[i])
  {
    var n := |steps| - 1;
    if i < n {
      PrefixInterleaving(steps[..n], i, k);
      assert steps[..n][..i] == steps[..i];
    } else if i == n + 1 {
      assert steps[..i] == steps;
    }
  }

  /** Every label handed out is unreserved and has 20 bits; the 32-bit cast loses nothing. */
  lemma LabelsInRange(steps: seq<Step>, i: nat, k: nat)
    requires Interleaving(steps, k) && k <= 4293918720 && i < |steps|
    ensures LabelAt(steps, i).Some? ==>
              && 17 <= LabelAt(steps, i).value <= 1048575
              && steps[i].AddStep? && LabelAt(steps, i).value == Run(steps[..i]).next + 1
    ensures steps[i].AddStep? ==>
              Run(steps[..i]).next + 1 < 4294967296 && Taken(Run(steps[..i]), steps[i]).next == Run(steps[..i]).next + 1
  {
    PrefixInterleaving(steps, i, k);
    RunSafe(steps[..i], k);
    StepSafe(Run(steps[..i]), steps[i], k);
  }

  lemma AddAdvances(steps: seq<Step>, i: nat, k: nat)
    requires Interleaving(steps, k) && k <= 4293918720 && i < |steps| && steps[i].AddStep?
    ensures Run(steps[..i + 1]).next == Run(steps[..i]).next + 1
  {
    LabelsInRange(steps, i, k);
    assert steps[..i + 1][..i] == steps[..i];
    assert Run(steps[..i + 1]) == Taken(Run(steps[..i]), steps[i]);
  }

  lemma {:induction false} CounterGrows(steps: seq<Step>, i: nat, n: nat, k: nat)
    requires Interleaving(steps, k) && k <= 4293918720 && i + n <= |steps|
    requires forall m :: i <= m < i + n ==> steps[m].AddStep?
    ensures Run(steps[..i + n]).next == Run(steps[..i]).next + n
  {
    if n > 0 {
      CounterGrows(steps, i, n - 1, k);
      assert i + n - 1 + 1 == i + n;
      AddAdvances(steps, i + n - 1, k);
    }
  }

  /** Labels returned with no store in between strictly increase. */
  lemma LabelsIncrease(steps: seq<Step>, i: nat, j: nat, k: nat)
    requires Interleaving(steps, k) && k <= 4293918720 && i < j < |steps|
    requires LabelAt(steps, i).Some? && LabelAt(steps, j).Some?
    requires forall m :: i < m < j ==> steps[m].AddStep?
    ensures LabelAt(steps, i).value < LabelAt(steps, j).value
  {
    LabelsInRange(steps, i, k);
    LabelsInRange(steps, j, k);
    CounterGrows(steps, i, j - i, k);
  }

  /** So a label comes back only after some goroutine has reset the counter. */
  lemma RepeatNeedsStore(steps: seq<Step>, i: nat, j: nat, k: nat)
    requires Interleaving(steps, k) && k <= 4293918720 && i < j < |steps|
    requires LabelAt(steps, i).Some? && LabelAt(steps, i) == LabelAt(steps, j)
    ensures exists m :: i < m < j && steps[m].StoreStep?
  {
    if forall m :: i < m < j ==> steps[m].AddStep? {
      LabelsIncrease(steps, i, j, k);
    }
  }

  // When a label is given twice

  /** A store that finds the counter at a label in use: it takes back labels already given. */
  predicate Rewinds(steps: seq<Step>, m: nat)
    requires m < |steps|
  {
    steps[m].StoreStep? && 16 < Run(steps[..m]).next <= 1048575
  }

  /** One label at two steps, and no goroutine has run past the end of the label space between
      them: not the reuse that follows a wrap. */
  predicate GivenTwice(steps: seq<Step>, i: nat, j: nat)
    requires i < j < |steps|
  {
    && LabelAt(steps, i).Some? && LabelAt(steps, i) == LabelAt(steps, j)
    && forall m :: i < m < j && steps[m].AddStep? ==> LabelAt(steps, m).Some?
  }

  /** The adds since the last store, or since the start. */
  lemma {:induction false} SinceStore(steps: seq<Step>, m: nat, k: nat) returns (r: nat)
    requires Interleaving(steps, k) && k <= 4293918720 && m <= |steps|
    ensures r <= m && Run(steps[..r]).next == START && forall x :: r <= x < m ==> steps[x].AddStep?
    ensures Run(steps[..m]).next == START + (m - r)
  {
    if m == 0 {
      r := 0;
    } else if steps[m - 1].StoreStep? {
      r := m;
      assert steps[..m][..m - 1] == steps[..m - 1];
    } else {
      r := SinceStore(steps, m - 1, k);
      AddAdvances(steps, m - 1, k);
    }
  }

  /** An add that finds the counter inside the label space returns the next label. */
  lemma AddReturns(steps: seq<Step>, i: nat)
    requires i < |steps| && steps[i].AddStep? && START <= Run(steps[..i]).next < MAX
    ensures LabelAt(steps, i) == Some(Run(steps[..i]).next + 1)
  {
  }

  lemma StoreResets(steps: seq<Step>, m: nat)
    requires m < |steps| && steps[m].StoreStep?
    ensures Run(steps[..m + 1]).next == START
  {
    assert steps[..m + 1][..m] == steps[..m];
  }

  /** The first add after a store, which finds the counter where the store put it. */
  lemma {:induction false} NextAdd(steps: seq<Step>, m: nat, n: nat) returns (j: nat)
    requires m <= n < |steps| && steps[n].AddStep? && Run(steps[..m]).next == START
    ensures m <= j <= n && steps[j].AddStep? && Run(steps[..j]).next == START
    ensures forall x :: m <= x < j ==> steps[x].StoreStep?
    decreases n - m
  {
    j := m;
    if steps[m].StoreStep? {
      StoreResets(steps, m);
      j := NextAdd(steps, m + 1, n);
    }
  }

  /** A rewinding store makes the next add return label 17 again. */
  lemma RewindRepeats(steps: seq<Step>, m: nat, n: nat, k: nat) returns (i: nat, j: nat)
    requires Interleaving(steps, k) && k <= 4293918720
    requires m < n < |steps| && Rewinds(steps, m) && steps[n].AddStep?
    ensures i < m < j <= n && GivenTwice(steps, i, j) && LabelAt(steps, j) == Some(17)
  {
    i := SinceStore(steps, m, k);
    StoreResets(steps, m);
    j := NextAdd(steps, m + 1, n);
    AddReturns(steps, i);
    AddReturns(steps, j);
    forall x | i < x < j && steps[x].AddStep?
      ensures LabelAt(steps, x).Some?
    {
      assert x < m;
      CounterGrows(steps, i, x - i, k);
      AddReturns(steps, x);
    }
  }

  lemma {:induction false} FirstStore(steps: seq<Step>, i: nat, j: nat) returns (m: nat)
    requires i <= j <= |steps| && exists x :: i <= x < j && steps[x].StoreStep?
    ensures i <= m < j && steps[m].StoreStep? && forall x :: i <= x < m ==> steps[x].AddStep?
    decreases j - i
  {
    m := i;
    if steps[i].AddStep? {
      m := FirstStore(steps, i + 1, j);
    }
  }

  lemma AfterLabel(steps: seq<Step>, i: nat, k: nat)
    requires Interleaving(steps, k) && k <= 4293918720 && i < |steps| && LabelAt(steps, i).Some?
    ensures START < Run(steps[..i + 1]).next <= MAX
  {
    LabelsInRange(steps, i, k);
    AddAdvances(steps, i, k);
  }

  /** A repetition that is no wrap has a rewinding store in it. */
  lemma RepeatRewinds(steps: seq<Step>, i: nat, j: nat, k: nat) returns (m: nat)
    requires Interleaving(steps, k) && k <= 4293918720 && i < j < |steps| && GivenTwice(steps, i, j)
    ensures i < m < j && Rewinds(steps, m)
  {
    RepeatNeedsStore(steps, i, j, k);
    m := FirstStore(steps, i + 1, j);
    AfterLabel(steps, m - 1, k);
  }

  ghost predicate SomeLabelGivenTwice(steps: seq<Step>) {
    exists i, j :: 0 <= i < j < |steps| && GivenTwice(steps, i, j)
  }

  ghost predicate SomeStoreRewinds(steps: seq<Step>) {
    exists m, n :: 0 <= m < n < |steps| && Rewinds(steps, m) && steps[n].AddStep?
  }

  /** In every interleaving some label is given twice, without a wrap between, exactly when some
      store rewinds a counter in use and an add follows it. */
  lemma GivenTwiceExactly(steps: seq<Step>, k: nat)
    requires Interleaving(steps, k) && k <= 4293918720
    ensures SomeLabelGivenTwice(steps) <==> SomeStoreRewinds(steps)
  {
    if SomeStoreRewinds(steps) {
      var m, n :| 0 <= m < n < |steps| && Rewinds(steps, m) && steps[n].AddStep?;
      var i, j := RewindRepeats(steps, m, n, k);
    }
    if SomeLabelGivenTwice(steps) {
      var i, j :| 0 <= i < j < |steps| && GivenTwice(steps, i, j);
      var m := RepeatRewinds(steps, i, j, k);
      LabelsInRange(steps, j, k);
    }
  }

  /** Alone, the machine is the sequential allocator: an add, or an add, a store and an add. */
  lemma AloneIsSequential(next: nat, g: nat)
    requires START <= next <= MAX
    ensures var m, a := Machine(next, {}), AddStep(g);
            if next < MAX then
              Returned(m, a) == Some(Successor(next)) && Taken(m, a) == Machine(Successor(next), {})
            else
              var m1 := Taken(m, a);
              var m2 := Taken(m1, StoreStep(g));
              && Returned(m, a) == None && Enabled(m1, StoreStep(g)) && !Enabled(m1, a)
              && Returned(m2, a) == Some(Successor(next)) && Taken(m2, a) == Machine(Successor(next), {})
  {
  }

  // Two goroutines at the end of the label space

  function Adds(n: nat): seq<Step> {
    seq(n, i => AddStep(0))
  }

  lemma StepOn(steps: seq<Step>, s: Step, k: nat)
    requires Interleaving(steps, k) && Enabled(Run(steps), s) && s.g < k
    ensures Interleaving(steps + [s], k)
    ensures Run(steps + [s]) == Taken(Run(steps), s)
  {
    assert (steps + [s])[..|steps|] == steps;
  }

  lemma {:induction false} AddsInterleave(n: nat)
    requires n <= PERIOD
    ensures Interleaving(Adds(n), 2) && Run(Adds(n)) == Machine(START + n, {})
  {
    if n > 0 {
      assert Adds(n) == Adds(n - 1) + [AddStep(0)];
      AddsInterleave(n - 1);
      StepOn(Adds(n - 1), AddStep(0), 2);
      AloneIsSequential(START + (n - 1), 0);
    }
  }

  /** The states of two goroutines racing at the end of the label space. */
  lemma RaceStates()
    ensures Taken(Machine(MAX, {}), AddStep(0)) == Machine(MAX + 1, {0})
    ensures Taken(Machine(MAX + 1, {0}), AddStep(1)) == Machine(MAX + 2, {0, 1})
    ensures Taken(Machine(MAX + 2, {0, 1}), StoreStep(0)) == Machine(START, {1})
    ensures Taken(Machine(START, {1}), AddStep(0)) == Machine(START + 1, {1})
    ensures Taken(Machine(START + 1, {1}), StoreStep(1)) == Machine(START, {})
    ensures Returned(Machine(START, {1}), AddStep(0)) == Some(START + 1)
    ensures Returned(Machine(START, {}), AddStep(1)) == Some(START + 1)
  {
  }

  lemma RaceBegins() returns (steps: seq<Step>)
    ensures Interleaving(steps, 2) && Run(steps) == Machine(START, {1})
  {
    RaceStates();
    AddsInterleave(PERIOD);
    steps := Adds(PERIOD);
    StepOn(steps, AddStep(0), 2);
    steps := steps + [AddStep(0)];
    StepOn(steps, AddStep(1), 2);
    steps := steps + [AddStep(1)];
    StepOn(steps, StoreStep(0), 2);
    steps := steps + [StoreStep(0)];
  }

  /** At the end of the label space both overshoot, and each resets the counter before its next
      add: the two adds return the same label. */
  lemma RacersShareLabel() returns (steps: seq<Step>, i: nat, j: nat)
    ensures i < j < |steps| && Interleaving(steps, 2)
    ensures LabelAt(steps, i) == LabelAt(steps, j) == Some(17) && GivenTwice(steps, i, j)
  {
    RaceStates();
    var s3 := RaceBegins();
    var s4, s5 := s3 + [AddStep(0)], s3 + [AddStep(0)] + [StoreStep(1)];
    StepOn(s3, AddStep(0), 2);
    StepOn(s4, StoreStep(1), 2);
    StepOn(s5, AddStep(1), 2);
    steps, i, j := s5 + [AddStep(1)], |s3|, |s5|;
    assert steps[..i] == s3 && steps[..j] == s5;
    assert forall m :: i < m < j ==> steps[m] == StoreStep(1);
  }
}
