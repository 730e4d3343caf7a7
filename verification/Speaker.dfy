/** The BGP speaker's best-path events (internal/bgp/speaker.go): how they drive the tables. */
module Speaker {
  import opened Bytes
  import opened Netip
  import opened Fib
  import opened LongestMatch
  import opened Lfib
  import LabelStack
  import Forwarding
  import Stacks

  /** A best path as extracted from a GoBGP event: no NLRI when its type is not the family's, and
      the zero Addr when it has no next hop. */
  datatype Path =
    | Unicast(nlri: Option<Prefix>, nextHop: Addr, withdrawal: bool)
    | Labeled(nlri: Option<Prefix>, labels: seq<uint32>, nextHop: Addr, withdrawal: bool)
    | SRPolicy(endpoint: Option<seq<byte>>, segments: seq<uint32>, withdrawal: bool)
    | OtherFamily

  /** `resolveNH` may read the routes the FIB holds at the time of the call. */
  datatype Config = Config(routerID: Addr, resolveNH: Option<(seq<FIBEntry>, Addr) -> string>)

  function ResolveTransport(cfg: Config, routes: seq<FIBEntry>, nh: Addr): string {
    if cfg.resolveNH.Some? then cfg.resolveNH.value(routes, nh) else ""
  }

  /** What one path does to the tables. */
  datatype Change = NoChange | Route(update: Update) | Label(entry: LFIBEntry)

  function UnicastChange(cfg: Config, p: Path, routes: seq<FIBEntry>): Change
    requires p.Unicast?
  {
    if p.nlri.None? || !p.nextHop.IsValid() then NoChange
    else if p.withdrawal then Route(Delete(p.nlri.value))
    else Route(Put(FIBEntry(p.nlri.value, p.nextHop, ResolveTransport(cfg, routes, p.nextHop), ActionForward, [])))
  }

  function LabeledChange(cfg: Config, p: Path, routes: seq<FIBEntry>): Change
    requires p.Labeled?
  {
    if p.nlri.None? || !p.nextHop.IsValid() || p.labels == [] then NoChange
    else if p.withdrawal then Route(Delete(p.nlri.value))
    else if p.nextHop == cfg.routerID then Label(LFIBEntry(p.labels[0], OpPop, [], p.nextHop, ""))
    else Route(Put(FIBEntry(p.nlri.value, p.nextHop, ResolveTransport(cfg, routes, p.nextHop), ActionPush, p.labels)))
  }

  /** The endpoint's first four bytes name an IPv4 host route, whatever the policy's family. */
  function EndpointPrefix(endpoint: seq<byte>): Prefix
    requires |endpoint| >= 4
  {
    PrefixFrom(AddrFrom4(endpoint[..4]), 32)
  }

  function SRPolicyChange(p: Path): Change
    requires p.SRPolicy?
  {
    if p.endpoint.None? || |p.endpoint.value| < 4 then NoChange
    else
      var prefix := EndpointPrefix(p.endpoint.value);
      if p.withdrawal then Route(Delete(prefix))
      else Route(Put(FIBEntry(prefix, AddrFrom4(p.endpoint.value[..4]), "", ActionPush, p.segments)))
  }

  function ChangeOf(cfg: Config, p: Path, routes: seq<FIBEntry>): Change {
    match p
    case Unicast(_, _, _) => UnicastChange(cfg, p, routes)
    case Labeled(_, _, _, _) => LabeledChange(cfg, p, routes)
    case SRPolicy(_, _, _) => SRPolicyChange(p)
    case OtherFamily => NoChange
  }

  // Runs of paths

  /** The route list after one change. */
  function Listed(s: seq<FIBEntry>, c: Change): seq<FIBEntry> {
    if c.Route? then ListAfter(s, c.update) else s
  }

  function LabelsAfter(labels: LabelTable, c: Change): LabelTable {
    if c.Label? then labels[Key(c.entry.inLabel) := c.entry] else labels
  }

  /** The route list after a run of paths; a path's resolver sees what the paths before it left. */
  function Ran(cfg: Config, s: seq<FIBEntry>, paths: seq<Path>): seq<FIBEntry> {
    if paths == [] then s
    else
      var before := Ran(cfg, s, paths[..|paths| - 1]);
      Listed(before, ChangeOf(cfg, paths[|paths| - 1], before))
  }

  /** The label table after a run of paths. */
  function Relabelled(cfg: Config, labels: LabelTable, paths: seq<Path>): LabelTable {
    if paths == [] then labels
    else LabelsAfter(Relabelled(cfg, labels, paths[..|paths| - 1]), ChangeOf(cfg, paths[|paths| - 1], []))
  }

  /** The routes play no part in what happens to labels. */
  lemma SameLabels(cfg: Config, labels: LabelTable, p: Path, routes: seq<FIBEntry>)
    ensures LabelsAfter(labels, ChangeOf(cfg, p, routes)) == LabelsAfter(labels, ChangeOf(cfg, p, []))
  {
  }

  lemma RanStep(cfg: Config, s: seq<FIBEntry>, labels: LabelTable, paths: seq<Path>, i: nat)
    requires i < |paths|
    ensures var before := Ran(cfg, s, paths[..i]);
            Ran(cfg, s, paths[..i + 1]) == Listed(before, ChangeOf(cfg, paths[i], before))
    ensures Relabelled(cfg, labels, paths[..i + 1])
         == LabelsAfter(Relabelled(cfg, labels, paths[..i]), ChangeOf(cfg, paths[i], []))
  {
    assert paths[..i + 1][..i] == paths[..i];
  }

  lemma {:induction false} RanAppend(cfg: Config, s: seq<FIBEntry>, labels: LabelTable, ps: seq<Path>, qs: seq<Path>)
    ensures Ran(cfg, s, ps + qs) == Ran(cfg, Ran(cfg, s, ps), qs)
    ensures Relabelled(cfg, labels, ps + qs) == Relabelled(cfg, Relabelled(cfg, labels, ps), qs)
  {
    if qs == [] {
      assert ps + qs == ps;
    } else {
      var n := |qs| - 1;
      RanAppend(cfg, s, labels, ps, qs[..n]);
      assert (ps + qs)[..|ps| + n] == ps + qs[..n] && (ps + qs)[|ps| + n] == qs[n];
    }
  }

  /** The paths of a list of events, in order. */
  function Flattened(events: seq<seq<Path>>): seq<Path> {
    if events == [] then [] else Flattened(events[..|events| - 1]) + events[|events| - 1]
  }

  /** Every event's paths come after those of the earlier events and before those of the later. */
  lemma {:induction false} FlattenedInOrder(events: seq<seq<Path>>, i: nat)
    requires i < |events|
    ensures Flattened(events) == Flattened(events[..i]) + events[i] + Flattened(events[i + 1..])
  {
    var n := |events| - 1;
    if i == n {
      assert events[i + 1..] == [];
    } else {
      FlattenedInOrder(events[..n], i);
      assert events[..n][..i] == events[..i] && events[..n][i + 1..] == events[i + 1..][..n - i - 1];
      assert Flattened(events[i + 1..]) == Flattened(events[i + 1..][..n - i - 1]) + events[n];
    }
  }

  class Speaker {
    const cfg: Config
    const fib: FIB
    const lfib: LFIB

    constructor (cfg: Config, fib: FIB, lfib: LFIB)
      ensures this.cfg == cfg && this.fib == fib && this.lfib == lfib
    {
      this.cfg := cfg;
      this.fib := fib;
      this.lfib := lfib;
    }

    method HandleUnicastPath(p: Path)
      requires p.Unicast? && fib.Valid()
      modifies fib, fib.data
      ensures fib.Valid() && (fib.data == old(fib.data) || fresh(fib.data))
      ensures fib.Routes() == Listed(old(fib.Routes()), ChangeOf(cfg, p, old(fib.Routes())))
    {
      if p.nlri.None? || !p.nextHop.IsValid() {
        return;
      }
      if p.withdrawal {
        fib.Remove(p.nlri.value);
      } else {
        var list := fib.List();
        fib.Add(FIBEntry(p.nlri.value, p.nextHop, ResolveTransport(cfg, list, p.nextHop), ActionForward, []));
      }
    }

    method HandleLabeledPath(p: Path)
      requires p.Labeled? && fib.Valid()
      modifies fib, fib.data, lfib
      ensures fib.Valid() && (fib.data == old(fib.data) || fresh(fib.data))
      ensures fib.Routes() == Listed(old(fib.Routes()), ChangeOf(cfg, p, old(fib.Routes())))
      ensures lfib.entries == LabelsAfter(old(lfib.entries), ChangeOf(cfg, p, []))
    {
      ghost var routes := fib.Routes();
      ghost var c := ChangeOf(cfg, p, routes);
      SameLabels(cfg, lfib.entries, p, routes);
      if p.nlri.None? || !p.nextHop.IsValid() || p.labels == [] {
        assert c == NoChange;
        return;
      }
      var lbl := p.labels[0];
      if p.withdrawal {
        assert c == Route(Delete(p.nlri.value));
        fib.Remove(p.nlri.value);
        return;
      }
      if p.nextHop == cfg.routerID {
        var own := LFIBEntry(lbl, OpPop, [], p.nextHop, "");
        assert c == Label(own);
        lfib.Add(own);
      } else {
        var list := fib.List();
        var learned := FIBEntry(p.nlri.value, p.nextHop, ResolveTransport(cfg, list, p.nextHop), ActionPush, p.labels);
        assert c == Route(Put(learned));
        fib.Add(learned);
      }
    }

    method HandleSRPolicy(p: Path)
      requires p.SRPolicy? && fib.Valid()
      modifies fib, fib.data
      ensures fib.Valid() && (fib.data == old(fib.data) || fresh(fib.data))
      ensures fib.Routes() == Listed(old(fib.Routes()), SRPolicyChange(p))
    {
      if p.endpoint.None? {
        return;
      }
      var endp := NoAddr;
      if |p.endpoint.value| >= 4 {
        endp := AddrFrom4(p.endpoint.value[..4]);
      }
      if !endp.IsValid() {
        return;
      }
      var endpointPrefix := PrefixFrom(endp, 32);
      if p.withdrawal {
        fib.Remove(endpointPrefix);
      } else {
        fib.Add(FIBEntry(endpointPrefix, endp, "", ActionPush, p.segments));
      }
    }

    /** The switch on the path's family. */
    method HandlePath(p: Path)
      requires fib.Valid()
      modifies fib, fib.data, lfib
      ensures fib.Valid() && (fib.data == old(fib.data) || fresh(fib.data))
      ensures fib.Routes() == Listed(old(fib.Routes()), ChangeOf(cfg, p, old(fib.Routes())))
      ensures lfib.entries == LabelsAfter(old(lfib.entries), ChangeOf(cfg, p, []))
    {
      match p {
        case Unicast(_, _, _) => HandleUnicastPath(p);
        case Labeled(_, _, _, _) => HandleLabeledPath(p);
        case SRPolicy(_, _, _) => HandleSRPolicy(p);
        case OtherFamily =>
      }
    }

    /** Handles the paths of one event in order. */
    method HandleBestPath(paths: seq<Path>)
      requires fib.Valid()
      modifies fib, fib.data, lfib
      ensures fib.Valid() && (fib.data == old(fib.data) || fresh(fib.data))
      ensures fib.Routes() == Ran(cfg, old(fib.Routes()), paths)
      ensures lfib.entries == Relabelled(cfg, old(lfib.entries), paths)
    {
      ghost var s, labels := fib.Routes(), lfib.entries;
      for i := 0 to |paths|
        invariant fib.Valid() && (fib.data == old(fib.data) || fresh(fib.data))
        invariant fib.Routes() == Ran(cfg, s, paths[..i])
        invariant lfib.entries == Relabelled(cfg, labels, paths[..i])
      {
        HandlePath(paths[i]);
        RanStep(cfg, s, labels, paths, i);
      }
      assert paths[..|paths|] == paths;
    }

    /** The events of a session, one call of the callback each. */
    method Watch(events: seq<seq<Path>>)
      requires fib.Valid()
      modifies fib, fib.data, lfib
      ensures fib.Valid() && (fib.data == old(fib.data) || fresh(fib.data))
      ensures fib.Routes() == Ran(cfg, old(fib.Routes()), Flattened(events))
      ensures lfib.entries == Relabelled(cfg, old(lfib.entries), Flattened(events))
    {
      ghost var s, labels := fib.Routes(), lfib.entries;
      for i := 0 to |events|
        invariant fib.Valid() && (fib.data == old(fib.data) || fresh(fib.data))
        invariant fib.Routes() == Ran(cfg, s, Flattened(events[..i]))
        invariant lfib.entries == Relabelled(cfg, labels, Flattened(events[..i]))
      {
        HandleBestPath(events[i]);
        assert events[..i + 1][..i] == events[..i];
        RanAppend(cfg, s, labels, Flattened(events[..i]), events[i]);
      }
      assert events[..|events|] == events;
    }
  }

  // What a run of paths leaves

  /** The prefix a path writes or withdraws, if any. */
  function Target(cfg: Config, p: Path): Option<Prefix> {
    match ChangeOf(cfg, p, [])
    case Route(u) => Some(u.Key())
    case NoChange => None
    case Label(_) => None
  }

  /** Which paths concern a prefix: those with an NLRI and a next hop, but for labelled ones
      without labels or originated here, and policies by the first four bytes of the endpoint. */
  lemma TargetExactly(cfg: Config, p: Path, prefix: Prefix)
    ensures Target(cfg, p) == Some(prefix) <==>
              match p
              case Unicast(nlri, nh, _) => nlri == Some(prefix) && nh.IsValid()
              case Labeled(nlri, labels, nh, w) =>
                nlri == Some(prefix) && nh.IsValid() && labels != [] && (w || nh != cfg.routerID)
              case SRPolicy(endpoint, _, _) =>
                endpoint.Some? && |endpoint.value| >= 4 && prefix == Prefix(AddrFrom4(endpoint.value[..4]), 32)
              case OtherFamily => false
  {
  }

  lemma SameKey(cfg: Config, p: Path, routes: seq<FIBEntry>)
    ensures ChangeOf(cfg, p, routes).Route? <==> Target(cfg, p).Some?
    ensures Target(cfg, p).Some? ==> ChangeOf(cfg, p, routes).update.Key() == Target(cfg, p).value
  {
  }

  lemma {:induction false} RanKept(cfg: Config, s: seq<FIBEntry>, paths: seq<Path>)
    requires Kept(s)
    ensures Kept(Ran(cfg, s, paths))
  {
    if paths != [] {
      var before := Ran(cfg, s, paths[..|paths| - 1]);
      RanKept(cfg, s, paths[..|paths| - 1]);
      var c := ChangeOf(cfg, paths[|paths| - 1], before);
      if c.Route? {
        ListAfterKept(before, c.update);
      }
    }
  }

  /** The entry a list holds for a prefix. */
  ghost function Entry(s: seq<FIBEntry>, p: Prefix): Option<FIBEntry>
    requires Kept(s)
  {
    Get(TableOf(s), p)
  }

  lemma EntryAfter(cfg: Config, s: seq<FIBEntry>, path: Path, p: Prefix)
    requires Kept(s)
    ensures var c := ChangeOf(cfg, path, s);
            && Kept(Listed(s, c))
            && Entry(Listed(s, c), p)
               == if Target(cfg, path) != Some(p) then Entry(s, p)
                  else if c.update.Put? then Some(c.update.entry) else None
  {
    var c := ChangeOf(cfg, path, s);
    SameKey(cfg, path, s);
    if c.Route? {
      ListAfterKept(s, c.update);
    }
  }

  /** What a path leaves for its prefix, `routes` being the routes it met: the entry it builds, or
      nothing after a withdrawal. */
  ghost predicate Leaves(cfg: Config, path: Path, routes: seq<FIBEntry>, p: Prefix, r: Option<FIBEntry>) {
    match path
    case Unicast(_, nh, w) =>
      var transport := if cfg.resolveNH.None? then "" else cfg.resolveNH.value(routes, nh);
      r == if w then None else Some(FIBEntry(p, nh, transport, ActionForward, []))
    case Labeled(_, labels, nh, w) =>
      var transport := if cfg.resolveNH.None? then "" else cfg.resolveNH.value(routes, nh);
      r == if w then None else Some(FIBEntry(p, nh, transport, ActionPush, labels))
    case SRPolicy(_, segments, w) =>
      r == if w then None else Some(FIBEntry(p, p.addr, "", ActionPush, segments))
    case OtherFamily => false
  }

  lemma LeavesEntry(cfg: Config, s: seq<FIBEntry>, path: Path, p: Prefix)
    requires Target(cfg, path) == Some(p)
    ensures var c := ChangeOf(cfg, path, s);
            c.Route? && Leaves(cfg, path, s, p, if c.update.Put? then Some(c.update.entry) else None)
  {
    TargetExactly(cfg, path, p);
  }

  /** A prefix no path writes or withdraws keeps its entry. */
  lemma {:induction false} UntouchedPrefix(cfg: Config, s: seq<FIBEntry>, paths: seq<Path>, p: Prefix)
    requires Kept(s) && forall j :: 0 <= j < |paths| ==> Target(cfg, paths[j]) != Some(p)
    ensures Kept(Ran(cfg, s, paths)) && Entry(Ran(cfg, s, paths), p) == Entry(s, p)
  {
    if paths != [] {
      var front := paths[..|paths| - 1];
      UntouchedPrefix(cfg, s, front, p);
      EntryAfter(cfg, Ran(cfg, s, front), paths[|paths| - 1], p);
    }
  }

  lemma PathLeaves(cfg: Config, s: seq<FIBEntry>, path: Path, p: Prefix)
    requires Kept(s) && Target(cfg, path) == Some(p)
    ensures Kept(Listed(s, ChangeOf(cfg, path, s)))
    ensures Leaves(cfg, path, s, p, Entry(Listed(s, ChangeOf(cfg, path, s)), p))
  {
    EntryAfter(cfg, s, path, p);
    LeavesEntry(cfg, s, path, p);
  }

  lemma EntryAt(cfg: Config, s: seq<FIBEntry>, paths: seq<Path>, k: nat, p: Prefix)
    requires Kept(s) && k < |paths| && Target(cfg, paths[k]) == Some(p)
    ensures Kept(Ran(cfg, s, paths[..k + 1]))
    ensures Leaves(cfg, paths[k], Ran(cfg, s, paths[..k]), p, Entry(Ran(cfg, s, paths[..k + 1]), p))
  {
    RanKept(cfg, s, paths[..k]);
    RanStep(cfg, s, map[], paths, k);
    PathLeaves(cfg, Ran(cfg, s, paths[..k]), paths[k], p);
  }

  lemma EntryStands(cfg: Config, s: seq<FIBEntry>, paths: seq<Path>, k: nat, p: Prefix)
    requires k <= |paths| && Kept(Ran(cfg, s, paths[..k]))
    requires forall j :: k <= j < |paths| ==> Target(cfg, paths[j]) != Some(p)
    ensures Kept(Ran(cfg, s, paths)) && Entry(Ran(cfg, s, paths), p) == Entry(Ran(cfg, s, paths[..k]), p)
  {
    assert paths == paths[..k] + paths[k..];
    RanAppend(cfg, s, map[], paths[..k], paths[k..]);
    UntouchedPrefix(cfg, Ran(cfg, s, paths[..k]), paths[k..], p);
  }

  /** After any run of paths a prefix holds exactly the entry the last path that writes it built,
      from the routes that path met, or nothing if the last path withdrew it. */
  lemma LastPathDecides(cfg: Config, s: seq<FIBEntry>, paths: seq<Path>, k: nat, p: Prefix)
    requires Kept(s) && k < |paths| && Target(cfg, paths[k]) == Some(p)
    requires forall j :: k < j < |paths| ==> Target(cfg, paths[j]) != Some(p)
    ensures Kept(Ran(cfg, s, paths))
    ensures Leaves(cfg, paths[k], Ran(cfg, s, paths[..k]), p, Entry(Ran(cfg, s, paths), p))
  {
    EntryAt(cfg, s, paths, k, p);
    EntryStands(cfg, s, paths, k + 1, p);
  }

  /** The label a path announces as this router's own. */
  function OwnLabel(cfg: Config, p: Path): Option<uint32> {
    if p.Labeled? && p.nlri.Some? && p.nextHop.IsValid() && p.labels != [] && !p.withdrawal && p.nextHop == cfg.routerID
    then Some(p.labels[0]) else None
  }

  lemma FindAfter(cfg: Config, labels: LabelTable, p: Path, lbl: uint32)
    ensures Find(LabelsAfter(labels, ChangeOf(cfg, p, [])), lbl)
         == if OwnLabel(cfg, p) == Some(lbl) then Some(LFIBEntry(lbl, OpPop, [], cfg.routerID, ""))
            else Find(labels, lbl)
  {
  }

  /** After any run of paths a label is popped if some path announced it as this router's own, and
      is as it was before otherwise: BGP never takes a label away, and only ever installs pops. */
  lemma {:induction false} LabelsExactly(cfg: Config, labels: LabelTable, paths: seq<Path>, lbl: uint32)
    ensures Find(Relabelled(cfg, labels, paths), lbl)
         == if exists i :: 0 <= i < |paths| && OwnLabel(cfg, paths[i]) == Some(lbl)
            then Some(LFIBEntry(lbl, OpPop, [], cfg.routerID, "")) else Find(labels, lbl)
  {
    if paths != [] {
      var n := |paths| - 1;
      LabelsExactly(cfg, labels, paths[..n], lbl);
      FindAfter(cfg, Relabelled(cfg, labels, paths[..n]), paths[n], lbl);
      assert forall i :: 0 <= i < n ==> paths[..n][i] == paths[i];
    }
  }

  /** So a router whose label table comes from BGP alone never crashes and never swaps. */
  lemma BgpLabelsNeverCrash(cfg: Config, paths: seq<Path>, t: Forwarding.Tables, typ: Forwarding.PacketType,
                            data: seq<byte>, from: string)
    requires t.lfib == Some(Relabelled(cfg, map[], paths))
    ensures !Forwarding.Process(t, typ, data, from).Crash?
    ensures Stacks.Exposed(t, typ, data).0 == Forwarding.PacketMPLS ==>
              Forwarding.Process(t, typ, data, from) == Forwarding.Drop
  {
    Stacks.CrashExactly(t, typ, data, from);
    Stacks.ProcessExposed(t, typ, data, from);
    Stacks.ExposedStops(t, typ, data);
    var data' := Stacks.Exposed(t, typ, data).1;
    if Forwarding.Governing(t, data').Some? {
      LabelsExactly(cfg, map[], paths, LabelStack.Pop(data').value.0);
    }
  }

  // Reordering

  /** The next-hop resolver does not look at the FIB. */
  ghost predicate IgnoresRoutes(cfg: Config) {
    forall r, r', nh :: ResolveTransport(cfg, r, nh) == ResolveTransport(cfg, r', nh)
  }

  /** The paths of a run that concern one prefix. */
  function PathsOn(cfg: Config, paths: seq<Path>, p: Prefix): seq<Path> {
    if paths == [] then []
    else PathsOn(cfg, paths[..|paths| - 1], p)
         + if Target(cfg, paths[|paths| - 1]) == Some(p) then [paths[|paths| - 1]] else []
  }

  function UpdatesOf(cfg: Config, paths: seq<Path>): seq<Update> {
    if paths == [] then []
    else UpdatesOf(cfg, paths[..|paths| - 1])
         + match ChangeOf(cfg, paths[|paths| - 1], [])
           case Route(u) => [u]
           case NoChange => []
           case Label(_) => []
  }

  lemma {:induction false} RanReplays(cfg: Config, s: seq<FIBEntry>, paths: seq<Path>)
    requires IgnoresRoutes(cfg)
    ensures Ran(cfg, s, paths) == ListRun(s, UpdatesOf(cfg, paths))
  {
    if paths != [] {
      var n := |paths| - 1;
      var us := UpdatesOf(cfg, paths[..n]);
      RanReplays(cfg, s, paths[..n]);
      SameChange(cfg, paths[n], Ran(cfg, s, paths[..n]));
      var c := ChangeOf(cfg, paths[n], []);
      if c.Route? {
        assert UpdatesOf(cfg, paths) == us + [c.update];
        assert (us + [c.update])[..|us|] == us;
      } else {
        assert UpdatesOf(cfg, paths) == us;
      }
    }
  }

  lemma SameChange(cfg: Config, p: Path, routes: seq<FIBEntry>)
    requires IgnoresRoutes(cfg)
    ensures ChangeOf(cfg, p, routes) == ChangeOf(cfg, p, [])
  {
    if p.Unicast? || p.Labeled? {
      assert ResolveTransport(cfg, routes, p.nextHop) == ResolveTransport(cfg, [], p.nextHop);
    }
  }

  lemma {:induction false} OnPrefixOfPaths(cfg: Config, paths: seq<Path>, p: Prefix)
    ensures OnPrefix(UpdatesOf(cfg, paths), p) == UpdatesOf(cfg, PathsOn(cfg, paths, p))
  {
    if paths != [] {
      var n := |paths| - 1;
      var us, last := UpdatesOf(cfg, paths[..n]), ChangeOf(cfg, paths[n], []);
      OnPrefixOfPaths(cfg, paths[..n], p);
      var front := PathsOn(cfg, paths[..n], p);
      if last.Route? {
        assert UpdatesOf(cfg, paths) == us + [last.update];
        assert (us + [last.update])[..|us|] == us;
        assert OnPrefix(us + [last.update], p)
            == OnPrefix(us, p) + if last.update.Key() == p then [last.update] else [];
        assert (front + [paths[n]])[..|front|] == front;
        assert UpdatesOf(cfg, front + [paths[n]]) == UpdatesOf(cfg, front) + [last.update];
        assert Target(cfg, paths[n]) == Some(last.update.Key());
        assert PathsOn(cfg, paths, p) == if last.update.Key() == p then front + [paths[n]] else front;
      } else {
        assert UpdatesOf(cfg, paths) == us;
        assert PathsOn(cfg, paths, p) == front;
      }
    }
  }

  ghost predicate MaskedTargets(cfg: Config, paths: seq<Path>) {
    forall i :: 0 <= i < |paths| && Target(cfg, paths[i]).Some? ==> Masked(Target(cfg, paths[i]).value)
  }

  lemma {:induction false} UpdatesMasked(cfg: Config, paths: seq<Path>)
    requires MaskedTargets(cfg, paths)
    ensures forall i :: 0 <= i < |UpdatesOf(cfg, paths)| ==> Masked(UpdatesOf(cfg, paths)[i].Key())
  {
    if paths != [] {
      var n := |paths| - 1;
      UpdatesMasked(cfg, paths[..n]);
      assert Target(cfg, paths[n]).Some? ==> Masked(Target(cfg, paths[n]).value);
    }
  }

  /** Paths for different prefixes may arrive in any order: two runs that agree prefix by prefix
      leave FIBs that answer every lookup alike. */
  lemma PathOrderIsInvisible(cfg: Config, s: seq<FIBEntry>, paths: seq<Path>, paths': seq<Path>, a: Addr)
    requires IgnoresRoutes(cfg) && Kept(s) && MaskedTable(TableOf(s)) && MaskedTargets(cfg, paths)
    requires forall p: Prefix :: PathsOn(cfg, paths, p) == PathsOn(cfg, paths', p)
    ensures FirstMatch(Ran(cfg, s, paths), a) == FirstMatch(Ran(cfg, s, paths'), a)
  {
    RanReplays(cfg, s, paths);
    RanReplays(cfg, s, paths');
    UpdatesMasked(cfg, paths);
    var us, us' := UpdatesOf(cfg, paths), UpdatesOf(cfg, paths');
    forall p: Prefix
      ensures OnPrefix(us, p) == OnPrefix(us', p)
    {
      OnPrefixOfPaths(cfg, paths, p);
      OnPrefixOfPaths(cfg, paths', p);
    }
    ReorderingIsInvisible(s, us, us', a);
  }

  // Segment-routing policies

  /** A policy's route answers one address: the IPv4 address of the endpoint's first four bytes. */
  lemma PolicyTarget(cfg: Config, p: Path)
    requires p.SRPolicy? && p.endpoint.Some? && |p.endpoint.value| >= 4
    ensures Target(cfg, p).Some? && Masked(Target(cfg, p).value)
    ensures Target(cfg, p).value == Prefix(AddrFrom4(p.endpoint.value[..4]), 32)
    ensures forall a :: Contains(Target(cfg, p).value, a) <==> a == AddrFrom4(p.endpoint.value[..4])
  {
    var prefix := Target(cfg, p).value;
    assert Pow2(0) == 1;
    forall a
      ensures Contains(prefix, a) <==> a == AddrFrom4(p.endpoint.value[..4])
    {
      MaskedContainsExactly(prefix, a);
    }
  }

  /** So handling a policy changes the lookup of that address and of no other: it then finds the
      policy's push route, or after a withdrawal the longest match among the other prefixes. */
  lemma PolicyAnswersOneAddress(cfg: Config, s: seq<FIBEntry>, p: Path, a: Addr)
    requires p.SRPolicy? && Kept(s) && MaskedTable(TableOf(s))
    ensures var r := FirstMatch(Ran(cfg, s, [p]), a);
            if p.endpoint.None? || |p.endpoint.value| < 4 || a != AddrFrom4(p.endpoint.value[..4])
            then r == FirstMatch(s, a)
            else if p.withdrawal then IsLongest(TableOf(s) - {Prefix(a, 32)}, a, r)
            else r == Some(FIBEntry(Prefix(a, 32), a, "", ActionPush, p.segments))
  {
    assert [p][..0] == [] && Ran(cfg, s, [p][..0]) == s;
    assert Ran(cfg, s, [p]) == Listed(s, SRPolicyChange(p));
    if p.endpoint.Some? && |p.endpoint.value| >= 4 {
      PolicyTarget(cfg, p);
      FirstMatchIsLongest(s, a);
      var u := SRPolicyChange(p).update;
      match u
      case Put(e) => AddIsLocal(s, e, a);
      case Delete(prefix) =>
        RemoveFallsBack(s, prefix, a);
        DeletedKept(s, prefix);
        FirstMatchIsLongest(Deleted(s, prefix), a);
    }
  }

  /** Two endpoints name one route exactly when their first four bytes agree, whatever the rest of
      a longer, IPv6 endpoint says. */
  lemma EndpointsCollideExactly(e: seq<byte>, e': seq<byte>)
    requires |e| >= 4 && |e'| >= 4
    ensures EndpointPrefix(e) == EndpointPrefix(e') <==> e[..4] == e'[..4]
  {
    BigEndianInjective(e[..4], e'[..4]);
  }

  /** So of two policies handled in turn, the route of the first survives exactly when those bytes
      differ, or its segments are the second's. */
  lemma LaterPolicyOverwrites(cfg: Config, s: seq<FIBEntry>, e: seq<byte>, e': seq<byte>, segments: seq<uint32>,
                              segments': seq<uint32>)
    requires Kept(s) && |e| >= 4 && |e'| >= 4
    ensures var paths := [SRPolicy(Some(e), segments, false), SRPolicy(Some(e'), segments', false)];
            var after := Ran(cfg, s, paths);
            && Kept(after)
            && (Leaves(cfg, paths[0], s, EndpointPrefix(e), Entry(after, EndpointPrefix(e)))
                <==> e[..4] != e'[..4] || segments == segments')
  {
    var paths := [SRPolicy(Some(e), segments, false), SRPolicy(Some(e'), segments', false)];
    EndpointsCollideExactly(e, e');
    LastPathDecides(cfg, s, paths, if e[..4] == e'[..4] then 1 else 0, EndpointPrefix(e));
  }

  /** The one kind of path that installs a push route without labels. */
  lemma EmptyPushExactly(cfg: Config, p: Path, routes: seq<FIBEntry>)
    ensures (var c := ChangeOf(cfg, p, routes);
             c.Route? && c.update.Put? && c.update.entry.action == ActionPush && c.update.entry.outLabels == [])
       <==> p.SRPolicy? && p.segments == [] && !p.withdrawal && p.endpoint.Some? && |p.endpoint.value| >= 4
  {
  }
}
