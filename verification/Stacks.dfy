/** Label stacks inside one router: what popping exposes and what is sent on. */
module Stacks {
  import opened Bytes
  import opened Label
  import opened LabelStack
  import opened Lfib
  import opened IpHeader
  import opened Forwarding
  import Fib

  predicate Popping(op: LabelOp) {
    op.OpPop? || op.OpPHP?
  }

  /** The labels a table pops. */
  predicate Pops(t: Tables, lbl: uint32) {
    EntryFor(t, lbl).Some? && Popping(EntryFor(t, lbl).value.op)
  }

  predicate PopsAll(t: Tables, labels: seq<uint32>) {
    forall i :: 0 <= i < |labels| ==> Pops(t, Clamp(labels[i]))
  }

  /** A label whose encoding starts like an IP packet: its top four bits are 4 or 6. */
  predicate LooksIp(lbl: uint32) {
    Clamp(lbl) >> 16 == 4 || Clamp(lbl) >> 16 == 6
  }

  predicate NoneLooksIp(labels: seq<uint32>) {
    forall i :: 0 <= i < |labels| ==> !LooksIp(labels[i])
  }

  /** How many labels come before the first that looks like IP. */
  function PlainPrefix(labels: seq<uint32>): (k: nat)
    ensures k <= |labels| && NoneLooksIp(labels[..k])
    ensures k < |labels| ==> LooksIp(labels[k])
    ensures k == |labels| ==> NoneLooksIp(labels)
  {
    if labels == [] || LooksIp(labels[0]) then 0
    else
      var k := 1 + PlainPrefix(labels[1..]);
      assert forall i :: 0 < i < |labels| ==> labels[i] == labels[1..][i - 1];
      k
  }

  /** When a labelled packet that reaches the IP handler can pass for an IP packet. */
  lemma PassesForIpExactly(pkt: seq<byte>, lbl: uint32)
    ensures IsIp(Push(pkt, lbl))
       <==> (Clamp(lbl) >> 16 == 4 && |pkt| >= 16) || (Clamp(lbl) >> 16 == 6 && |pkt| >= 36)
  {
    TopNibble(lbl);
    NibbleOfLabel(Clamp(lbl));
    assert Push(pkt, lbl)[0] == StackEntry(lbl)[0];
  }

  // Popping

  /** The number of labels a router pops off a packet. */
  function PopCount(t: Tables, typ: PacketType, data: seq<byte>): (n: nat)
    ensures ENTRY_SIZE * n <= |data|
    decreases |data|
  {
    if typ == PacketMPLS && Pop(data).Some? && Pops(t, Pop(data).value.0)
    then 1 + PopCount(t, DetectPacketType(data[ENTRY_SIZE..]), data[ENTRY_SIZE..])
    else 0
  }

  /** The packet whose handling is not a pop: what the recursion of the handlers ends with. */
  function Exposed(t: Tables, typ: PacketType, data: seq<byte>): (PacketType, seq<byte>)
    decreases |data|
  {
    if typ == PacketMPLS && Pop(data).Some? && Pops(t, Pop(data).value.0)
    then Exposed(t, DetectPacketType(data[ENTRY_SIZE..]), data[ENTRY_SIZE..])
    else (typ, data)
  }

  /** Handling a packet is handling what its pops expose. */
  lemma {:induction false} ProcessExposed(t: Tables, typ: PacketType, data: seq<byte>, from: string)
    ensures Process(t, typ, data, from) == Process(t, Exposed(t, typ, data).0, Exposed(t, typ, data).1, from)
    decreases |data|
  {
    if typ == PacketMPLS && Pop(data).Some? && Pops(t, Pop(data).value.0) {
      ProcessExposed(t, DetectPacketType(data[ENTRY_SIZE..]), data[ENTRY_SIZE..], from);
    }
  }

  lemma {:induction false} ExposedIsSuffix(t: Tables, typ: PacketType, data: seq<byte>)
    ensures Exposed(t, typ, data).1 == data[ENTRY_SIZE * PopCount(t, typ, data)..]
    decreases |data|
  {
    if typ == PacketMPLS && Pop(data).Some? && Pops(t, Pop(data).value.0) {
      ExposedIsSuffix(t, DetectPacketType(data[ENTRY_SIZE..]), data[ENTRY_SIZE..]);
    }
  }

  /** In the packet's buffer the popped entries stay as they were; below them it shows what the
      exposed packet leaves. */
  lemma {:induction false} ResidueBelowPops(t: Tables, typ: PacketType, data: seq<byte>)
    ensures var k := ENTRY_SIZE * PopCount(t, typ, data);
            && Residue(t, typ, data)[..k] == data[..k]
            && Residue(t, typ, data)[k..] == Residue(t, Exposed(t, typ, data).0, Exposed(t, typ, data).1)
    decreases |data|
  {
    if typ == PacketMPLS && Pop(data).Some? && Pops(t, Pop(data).value.0) {
      var payload := data[ENTRY_SIZE..];
      var typ' := DetectPacketType(payload);
      var k := ENTRY_SIZE * PopCount(t, typ', payload);
      ResidueBelowPops(t, typ', payload);
      assert Residue(t, typ, data) == data[..ENTRY_SIZE] + Residue(t, typ', payload);
      assert Residue(t, typ, data)[..ENTRY_SIZE + k] == data[..ENTRY_SIZE] + Residue(t, typ', payload)[..k];
      assert Residue(t, typ, data)[ENTRY_SIZE + k..] == Residue(t, typ', payload)[k..];
      assert data[..ENTRY_SIZE + k] == data[..ENTRY_SIZE] + payload[..k];
    }
  }

  lemma NibbleOfLabel(c: uint32)
    requires c <= LABEL_MAX
    ensures (c >> 16) as byte == 4 <==> c >> 16 == 4
    ensures (c >> 16) as byte == 6 <==> c >> 16 == 6
  {
  }

  /** The type guess is right about a pushed entry exactly when its label does not look like IP. */
  lemma DetectPushed(pkt: seq<byte>, lbl: uint32)
    ensures DetectPacketType(Push(pkt, lbl)) == if LooksIp(lbl) then PacketIP else PacketMPLS
  {
    TopNibble(lbl);
    NibbleOfLabel(Clamp(lbl));
    assert Push(pkt, lbl)[0] == StackEntry(lbl)[0];
  }

  lemma DetectIp(data: seq<byte>)
    requires IsIp(data)
    ensures DetectPacketType(data) == PacketIP
  {
  }

  /** The guess is MPLS for exactly the packets that can hold an entry and do not start like IP. */
  lemma GuessExactly(data: seq<byte>)
    ensures DetectPacketType(data) == PacketMPLS <==> |data| >= 4 && data[0] >> 4 != 4 && data[0] >> 4 != 6
  {
  }

  /** One pop. */
  lemma ExposePushed(t: Tables, pkt: seq<byte>, lbl: uint32)
    requires Pops(t, Clamp(lbl))
    ensures Exposed(t, PacketMPLS, Push(pkt, lbl)) == Exposed(t, DetectPacketType(pkt), pkt)
  {
    PopPushed(pkt, lbl);
  }

  /** Unwinding a stack: if the table pops every label and no label under the first looks like
      IP, the packet is handled as its payload alone would be. */
  lemma {:induction false} Unwind(t: Tables, pkt: seq<byte>, labels: seq<uint32>, from: string)
    requires labels != [] && PopsAll(t, labels) && NoneLooksIp(labels[1..])
    ensures Exposed(t, PacketMPLS, PushAll(pkt, labels)) == Exposed(t, DetectPacketType(pkt), pkt)
    ensures Process(t, PacketMPLS, PushAll(pkt, labels), from) == Process(t, DetectPacketType(pkt), pkt, from)
  {
    var rest := PushAll(pkt, labels[1..]);
    ExposePushed(t, rest, labels[0]);
    if labels[1..] != [] {
      DetectPushed(PushAll(pkt, labels[2..]), labels[1]);
      assert labels[1..][1..] == labels[2..];
      Unwind(t, pkt, labels[1..], from);
    }
    ProcessExposed(t, PacketMPLS, PushAll(pkt, labels), from);
    ProcessExposed(t, DetectPacketType(pkt), pkt, from);
  }

  /** A label that looks like IP below the top stops the unwinding: the rest of the stack goes to
      the IP handler, label bytes and all. */
  lemma {:induction false} StuckAtIpLabel(t: Tables, pkt: seq<byte>, labels: seq<uint32>, k: nat)
    requires 0 < k < |labels| && PopsAll(t, labels[..k]) && LooksIp(labels[k]) && NoneLooksIp(labels[1..k])
    ensures Exposed(t, PacketMPLS, PushAll(pkt, labels)) == (PacketIP, PushAll(pkt, labels[k..]))
  {
    var rest := PushAll(pkt, labels[1..]);
    assert Pops(t, Clamp(labels[..k][0]));
    ExposePushed(t, rest, labels[0]);
    assert labels[1..][1..] == labels[2..];
    DetectPushed(PushAll(pkt, labels[2..]), labels[1]);
    if k > 1 {
      assert labels[1..k][0] == labels[1];
      assert labels[1..][..k - 1] == labels[..k][1..] && labels[1..][1..k - 1] == labels[1..k][1..];
      StuckAtIpLabel(t, pkt, labels[1..], k - 1);
      assert labels[1..][k - 1..] == labels[k..];
    }
  }

  /** So the payload is what comes out exactly when no inner label looks like IP. */
  lemma UnwindsExactly(t: Tables, pkt: seq<byte>, labels: seq<uint32>)
    requires labels != [] && PopsAll(t, labels)
    ensures Exposed(t, PacketMPLS, PushAll(pkt, labels)) == Exposed(t, DetectPacketType(pkt), pkt)
       <==> NoneLooksIp(labels[1..])
  {
    if NoneLooksIp(labels[1..]) {
      Unwind(t, pkt, labels, "");
    } else {
      var k := 1 + PlainPrefix(labels[1..]);
      assert labels[k] == labels[1..][k - 1] && labels[1..k] == labels[1..][..k - 1];
      StuckAtIpLabel(t, pkt, labels, k);
      ExposedIsSuffix(t, DetectPacketType(pkt), pkt);
      assert |PushAll(pkt, labels[k..])| > |pkt|;
    }
  }

  /** Pops and then a swap: the inner packet leaves with the new label. */
  lemma UnwindThenSwap(t: Tables, pkt: seq<byte>, labels: seq<uint32>, lbl: uint32, e: LFIBEntry, from: string)
    requires PopsAll(t, labels) && (labels == [] || NoneLooksIp(labels[1..] + [lbl]))
    requires EntryFor(t, Clamp(lbl)) == Some(e)
    requires e.op == OpSwap && e.outLabels != [] && e.transport in t.transports
    ensures Process(t, PacketMPLS, PushAll(pkt, labels + [lbl]), from)
         == Sent(Write(e.transport, Packet(PacketMPLS, Push(pkt, e.outLabels[0]), from)))
  {
    var inner := PushAll(pkt, [lbl]);
    OneLabel(pkt, lbl);
    PushAllSplit(pkt, labels, [lbl]);
    PopPushed(pkt, lbl);
    if labels != [] {
      assert forall i :: 0 <= i < |labels[1..]| ==> (labels[1..] + [lbl])[i] == labels[1..][i];
      assert (labels[1..] + [lbl])[|labels| - 1] == lbl;
      DetectPushed(pkt, lbl);
      Unwind(t, inner, labels, from);
    } else {
      assert labels + [lbl] == [lbl];
    }
  }

  /** A swap entry and a push entry with the same out labels send the same packet exactly when
      there is one label: a swap uses the first and ignores the rest. */
  lemma SwapIsPushExactly(t: Tables, t': Tables, swap: LFIBEntry, data: seq<byte>, from: string)
    requires Governing(t, data) == Some(swap) && Governing(t', data) == Some(swap.(op := OpPush))
    requires swap.op == OpSwap && swap.outLabels != []
    requires swap.transport in t.transports && swap.transport in t'.transports
    ensures Process(t, PacketMPLS, data, from) == Process(t', PacketMPLS, data, from) <==> |swap.outLabels| == 1
  {
    var payload := Pop(data).value.1;
    assert |Push(payload, swap.outLabels[0])| == ENTRY_SIZE + |payload|;
    assert |PushAll(payload, swap.outLabels)| == ENTRY_SIZE * |swap.outLabels| + |payload|;
    if |swap.outLabels| == 1 {
      OneLabel(payload, swap.outLabels[0]);
      assert swap.outLabels == [swap.outLabels[0]];
    }
  }

  /** A push entry replaces the top label by its out labels: popping as many off what was written
      yields them, clamped to 20 bits, and then the old payload. */
  lemma PushReplacesTop(t: Tables, data: seq<byte>, e: LFIBEntry, from: string)
    requires Governing(t, data) == Some(e) && e.op == OpPush && e.transport in t.transports
    ensures var o := Process(t, PacketMPLS, data, from);
            && o.Sent? && o.out.Write? && o.out.name == e.transport && o.out.pkt.typ == PacketMPLS
            && PopN(o.out.pkt.data, |e.outLabels|) == Some((Clamped(e.outLabels), data[ENTRY_SIZE..]))
  {
    PopPushedAll(data[ENTRY_SIZE..], e.outLabels);
  }

  lemma OneLabel(pkt: seq<byte>, lbl: uint32)
    ensures PushAll(pkt, [lbl]) == Push(pkt, lbl)
  {
    assert [lbl][1..] == [];
  }

  /** The packets that crash the router: the first label not popped has a swap entry without out
      labels. */
  lemma CrashExactly(t: Tables, typ: PacketType, data: seq<byte>, from: string)
    ensures Process(t, typ, data, from).Crash?
       <==> var (typ', data') := Exposed(t, typ, data);
            typ' == PacketMPLS && Governing(t, data').Some? &&
            Governing(t, data').value.op == OpSwap && Governing(t, data').value.outLabels == []
  {
    ProcessExposed(t, typ, data, from);
    ExposedStops(t, typ, data);
  }

  lemma {:induction false} ExposedStops(t: Tables, typ: PacketType, data: seq<byte>)
    ensures var (typ', data') := Exposed(t, typ, data);
            typ' == PacketMPLS && Governing(t, data').Some? ==> !Popping(Governing(t, data').value.op)
    decreases |data|
  {
    if typ == PacketMPLS && Pop(data).Some? && Pops(t, Pop(data).value.0) {
      ExposedStops(t, DetectPacketType(data[ENTRY_SIZE..]), data[ENTRY_SIZE..]);
    }
  }

  // Fields nothing reads

  /** The first `n` entries agree in their labels, though perhaps not in class, S and TTL; all
      other bytes agree. */
  predicate SameLabels(data: seq<byte>, data': seq<byte>, n: nat) {
    if n == 0 then data == data'
    else
      && Pop(data).Some? && Pop(data').Some? && Pop(data).value.0 == Pop(data').value.0
      && SameLabels(data[ENTRY_SIZE..], data'[ENTRY_SIZE..], n - 1)
  }

  lemma {:induction false} SameLength(data: seq<byte>, data': seq<byte>, n: nat)
    requires SameLabels(data, data', n)
    ensures |data| == |data'|
  {
    if n > 0 {
      SameLength(data[ENTRY_SIZE..], data'[ENTRY_SIZE..], n - 1);
    }
  }

  lemma SameDetection(data: seq<byte>, data': seq<byte>, n: nat)
    requires SameLabels(data, data', n)
    ensures DetectPacketType(data) == DetectPacketType(data')
  {
    SameLength(data, data', n);
    if n > 0 {
      SameNibble(data, data');
    }
  }

  /** The entries a router takes note of: those it pops and the one that decides what it does. */
  function EntriesRead(t: Tables, typ: PacketType, data: seq<byte>): nat {
    PopCount(t, typ, data) + if Exposed(t, typ, data).0 == PacketMPLS then 1 else 0
  }

  /** Of those entries only the labels count: class, S and TTL change no outcome. */
  lemma {:induction false} OnlyLabelsAreRead(t: Tables, typ: PacketType, data: seq<byte>, data': seq<byte>, n: nat,
                                             from: string)
    requires SameLabels(data, data', n) && n <= EntriesRead(t, typ, data)
    ensures Process(t, typ, data, from) == Process(t, typ, data', from)
    decreases |data|
  {
    if n > 0 {
      var rest, rest' := data[ENTRY_SIZE..], data'[ENTRY_SIZE..];
      assert Governing(t, data) == Governing(t, data');
      if Pops(t, Pop(data).value.0) {
        SameDetection(rest, rest', n - 1);
        OnlyLabelsAreRead(t, DetectPacketType(rest), rest, rest', n - 1, from);
      } else {
        assert n == 1 && rest == rest';
      }
    }
  }

  // What may leave the router

  /** `r` is `s` but for the hop count and, for IPv4, the checksum. */
  predicate OnlyAged(s: seq<byte>, r: seq<byte>) {
    && |r| == |s|
    && forall i :: 0 <= i < |s| && r[i] != s[i] ==>
         IsIp(s) && (i == TtlIndex(s) || (IsV4(s) && (i == 10 || i == 11)))
  }

  lemma ForwardedOnlyAges(data: seq<byte>)
    requires IsIp(data)
    ensures OnlyAged(data, Forwarded(data))
  {
  }

  /** Whatever the tables say, the one packet a router may emit is a stack of entries it wrote
      over a suffix of the input, the suffix at most aged. */
  lemma EmittedShape(t: Tables, typ: PacketType, data: seq<byte>, from: string)
    returns (pops: nat, labels: seq<uint32>, body: seq<byte>)
    requires Process(t, typ, data, from).Sent?
    ensures ENTRY_SIZE * pops <= |data| && OnlyAged(data[ENTRY_SIZE * pops..], body)
    ensures Process(t, typ, data, from).out.Bytes() == PushAll(body, labels)
  {
    ProcessExposed(t, typ, data, from);
    ExposedStops(t, typ, data);
    ExposedIsSuffix(t, typ, data);
    pops := PopCount(t, typ, data);
    var (typ', rest) := Exposed(t, typ, data);
    if typ' == PacketIP {
      labels, body := EmittedIP(t, rest, from);
    } else {
      var e := Governing(t, rest).value;
      pops, body := pops + 1, rest[ENTRY_SIZE..];
      assert data[ENTRY_SIZE * pops..] == body;
      labels := e.outLabels;
      if e.op == OpSwap {
        labels := [e.outLabels[0]];
        OneLabel(body, e.outLabels[0]);
      }
    }
  }

  lemma EmittedIP(t: Tables, data: seq<byte>, from: string) returns (labels: seq<uint32>, body: seq<byte>)
    requires ProcessIP(t, data, from).Sent?
    ensures OnlyAged(data, body) && ProcessIP(t, data, from).out.Bytes() == PushAll(body, labels)
  {
    labels := [];
    if t.isLocal(Destination(data)) {
      body := data;
    } else {
      body := Forwarded(data);
      ForwardedOnlyAges(data);
      var e := Fib.FirstMatch(t.routes, Destination(data)).value;
      if e.action == Fib.ActionPush {
        labels := e.outLabels;
      }
    }
  }
}
