/** Label stack operations of internal/mpls/label.go, on byte strings and on shared buffers. */
module LabelStack {
  import opened Bytes
  import opened Label

  // The byte strings the operations produce

  /** Every entry the router writes has traffic class 0, S set and TTL 64. */
  function StackEntry(lbl: uint32): (entry: seq<byte>)
    ensures |entry| == ENTRY_SIZE
  {
    EncodeLabel(lbl, 0, true, 64)
  }

  function Push(pkt: seq<byte>, lbl: uint32): seq<byte> {
    StackEntry(lbl) + pkt
  }

  function PushAll(pkt: seq<byte>, labels: seq<uint32>): (r: seq<byte>)
    ensures |r| == ENTRY_SIZE * |labels| + |pkt|
  {
    if labels == [] then pkt else Push(PushAll(pkt, labels[1..]), labels[0])
  }

  function Pop(pkt: seq<byte>): (r: Option<(uint32, seq<byte>)>)
    ensures r.Some? <==> |pkt| >= ENTRY_SIZE
    ensures r.Some? ==> r.value.1 == pkt[ENTRY_SIZE..]
  {
    match ParseLabel(pkt)
    case None => None
    case Some(f) => Some((f.lbl, pkt[ENTRY_SIZE..]))
  }

  /** Pops `n` labels; the labels come first, then what is left. */
  function PopN(pkt: seq<byte>, n: nat): Option<(seq<uint32>, seq<byte>)> {
    if n == 0 then Some(([], pkt))
    else
      match Pop(pkt)
      case None => None
      case Some((lbl, payload)) =>
        match PopN(payload, n - 1)
        case None => None
        case Some((labels, rest)) => Some(([lbl] + labels, rest))
  }

  function Clamped(labels: seq<uint32>): (r: seq<uint32>)
    ensures |r| == |labels|
  {
    seq(|labels|, i requires 0 <= i < |labels| => Clamp(labels[i]))
  }

  lemma PopPushed(pkt: seq<byte>, lbl: uint32)
    ensures Pop(Push(pkt, lbl)) == Some((Clamp(lbl), pkt))
  {
    ParseEncoded(lbl, 0, true, 64, pkt);
    SmallClass(Clamp(lbl), 0);
    assert Push(pkt, lbl)[ENTRY_SIZE..] == pkt;
  }

  /** Popping undoes pushing at any depth: the labels return in order, each clamped to 20 bits. */
  lemma {:induction false} PopPushedAll(pkt: seq<byte>, labels: seq<uint32>)
    ensures PopN(PushAll(pkt, labels), |labels|) == Some((Clamped(labels), pkt))
  {
    if labels == [] {
    } else {
      PopPushed(PushAll(pkt, labels[1..]), labels[0]);
      PopPushedAll(pkt, labels[1..]);
      assert Clamped(labels) == [Clamp(labels[0])] + Clamped(labels[1..]);
    }
  }

  /** Pushing a popped label back restores the packet exactly when its entry had traffic class 0,
      S set and TTL 64; everything else is overwritten. */
  lemma PushPoppedExactly(pkt: seq<byte>)
    requires |pkt| >= ENTRY_SIZE
    ensures Pop(pkt).Some?
    ensures Push(Pop(pkt).value.1, Pop(pkt).value.0) == pkt
       <==> ParseLabel(pkt) == Some(Fields(Pop(pkt).value.0, 0, true, 64))
  {
    var f := ParseLabel(pkt).value;
    EncodeParsed(pkt);
    assert pkt == pkt[..ENTRY_SIZE] + pkt[ENTRY_SIZE..];
    if Push(pkt[ENTRY_SIZE..], f.lbl) == pkt {
      ParseEncoded(f.lbl, 0, true, 64, pkt[ENTRY_SIZE..]);
      SmallClass(Clamp(f.lbl), 0);
    }
  }

  lemma PushAllSplit(pkt: seq<byte>, a: seq<uint32>, b: seq<uint32>)
    ensures PushAll(pkt, a + b) == PushAll(PushAll(pkt, b), a)
  {
    if a == [] {
      assert a + b == b;
    } else {
      PushAllSplit(pkt, a[1..], b);
      assert (a + b)[1..] == a[1..] + b;
    }
  }

  /** The i-th entry of a label stack. */
  function EntryAt(data: seq<byte>, i: nat): Option<Fields> {
    if ENTRY_SIZE * i <= |data| then ParseLabel(data[ENTRY_SIZE * i..]) else None
  }

  /** Every entry of a written stack has class 0, S set and TTL 64. */
  lemma {:induction false} WrittenEntry(pkt: seq<byte>, labels: seq<uint32>, i: nat)
    requires i < |labels|
    ensures EntryAt(PushAll(pkt, labels), i) == Some(Fields(Clamp(labels[i]), 0, true, 64))
  {
    var rest := PushAll(pkt, labels[1..]);
    var all := PushAll(pkt, labels);
    assert all == StackEntry(labels[0]) + rest;
    if i == 0 {
      ParseEncoded(labels[0], 0, true, 64, rest);
      SmallClass(Clamp(labels[0]), 0);
      assert all[0..] == all;
    } else {
      WrittenEntry(pkt, labels[1..], i - 1);
      assert all[ENTRY_SIZE * i..] == rest[ENTRY_SIZE * (i - 1)..];
    }
  }

  /** Section 2.1 of RFC 3032: of the first `n` entries only the last has S set. */
  predicate BottomMarked(data: seq<byte>, n: nat) {
    forall i :: 0 <= i < n ==> EntryAt(data, i).Some? && (EntryAt(data, i).value.bottom <==> i == n - 1)
  }

  /** A written stack is marked as the standard wants exactly when it has at most one entry. */
  lemma BottomMarkedExactly(pkt: seq<byte>, labels: seq<uint32>)
    ensures BottomMarked(PushAll(pkt, labels), |labels|) <==> |labels| <= 1
  {
    forall i | 0 <= i < |labels|
      ensures EntryAt(PushAll(pkt, labels), i) == Some(Fields(Clamp(labels[i]), 0, true, 64))
    {
      WrittenEntry(pkt, labels, i);
    }
    if |labels| > 1 {
      assert EntryAt(PushAll(pkt, labels), 0).value.bottom;
    }
  }

  lemma JoinNibble(b0: byte, b1: byte, b2: byte)
    ensures ((Join(b0, b1, b2) >> 4) >> 16) & 0xF == (b0 as bv32) >> 4
  {
  }

  /** The first nibble of a packet is a matter of its top label. */
  lemma SameNibble(data: seq<byte>, data': seq<byte>)
    requires Pop(data).Some? && Pop(data').Some? && Pop(data).value.0 == Pop(data').value.0
    ensures data[0] >> 4 == data'[0] >> 4
  {
    JoinNibble(data[0], data[1], data[2]);
    JoinNibble(data'[0], data'[1], data'[2]);
    NibbleOfByte(data[0], data'[0]);
  }

  lemma NibbleOfByte(b: byte, b': byte)
    ensures (b as bv32) >> 4 == (b' as bv32) >> 4 ==> b >> 4 == b' >> 4
  {
  }

  lemma TopNibbleBits(c: uint32)
    requires c <= LABEL_MAX
    ensures ((((c << 4) | (0 << 1) | 1) >> 16) & 0xFF) as bv8 >> 4 == (c >> 16) as bv8
  {
  }

  /** The first nibble of a written entry is the top nibble of its label. */
  lemma TopNibble(lbl: uint32)
    ensures StackEntry(lbl)[0] >> 4 == (Clamp(lbl) >> 16) as bv8
  {
    TopNibbleBits(Clamp(lbl));
  }

  // The operations on buffers

  predicate HasLabel(pkt: seq<byte>) {
    |pkt| >= ENTRY_SIZE
  }

  /** The payload is a window on the same storage as the packet. */
  function PopLabel(pkt: Slice): (r: Option<(uint32, Slice)>)
    requires pkt.Valid()
    reads pkt.arr
    ensures r.Some? <==> pkt.Len() >= ENTRY_SIZE
    ensures r.Some? ==>
              && r.value.1.Valid() && r.value.1 == pkt.From(ENTRY_SIZE)
              && Pop(pkt.View()) == Some((r.value.0, r.value.1.View()))
    ensures r.None? ==> Pop(pkt.View()).None?
  {
    match ParseLabel(pkt.View())
    case None => None
    case Some(f) => Some((f.lbl, pkt.From(ENTRY_SIZE)))
  }

  /** Overwrites the top entry in place: the result is that of popping and pushing, in the same
      storage, with no byte outside the entry touched. */
  method SwapLabel(pkt: Slice, newLabel: uint32) returns (ok: bool)
    requires pkt.Valid()
    modifies pkt.arr
    ensures ok <==> Pop(old(pkt.View())).Some?
    ensures Rewrote(pkt, old(pkt.arr[..]),
                    if ok then Push(Pop(old(pkt.View())).value.1, newLabel) else old(pkt.View()))
  {
    if pkt.Len() < ENTRY_SIZE {
      return false;
    }
    var enc := EncodeLabel(newLabel, 0, true, 64);
    ghost var view := pkt.View();
    Put(pkt, 0, enc[0]);
    Put(pkt, 1, enc[1]);
    Put(pkt, 2, enc[2]);
    Put(pkt, 3, enc[3]);
    assert view[0 := enc[0]][1 := enc[1]][2 := enc[2]][3 := enc[3]] == enc + view[ENTRY_SIZE..];
    return true;
  }

  /** Puts the entry and a copy of the packet in new storage. */
  method PushLabel(pkt: Slice, lbl: uint32) returns (out: Slice)
    requires pkt.Valid()
    ensures out.Valid() && fresh(out.arr)
    ensures out.View() == Push(pkt.View(), lbl)
  {
    var enc := EncodeLabel(lbl, 0, true, 64);
    var n := pkt.Len();
    var arr := new byte[ENTRY_SIZE + n];
    forall i | 0 <= i < ENTRY_SIZE {
      arr[i] := enc[i];
    }
    forall i | 0 <= i < n {
      arr[ENTRY_SIZE + i] := pkt.arr[pkt.lo + i];
    }
    out := Slice(arr, 0, ENTRY_SIZE + n);
  }

  /** Pushes from the last label to the first, so that the first one ends on top. */
  method PushLabels(pkt: Slice, labels: seq<uint32>) returns (out: Slice)
    requires pkt.Valid()
    ensures out.Valid()
    ensures out.View() == PushAll(pkt.View(), labels)
    ensures if labels == [] then out == pkt else fresh(out.arr)
  {
    out := pkt;
    var i := |labels|;
    while i > 0
      invariant 0 <= i <= |labels|
      invariant out.Valid()
      invariant out.View() == PushAll(pkt.View(), labels[i..])
      invariant if i == |labels| then out == pkt else fresh(out.arr)
    {
      i := i - 1;
      out := PushLabel(out, labels[i]);
      assert labels[i..][1..] == labels[i + 1..];
    }
  }
}
