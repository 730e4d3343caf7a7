/** The Internet checksum of internal/router/router.go and the ones' complement sum behind it
    (section 1 of RFC 1071). */
module Checksum {
  import opened Bytes

  const TWO32: nat := 0x1_0000_0000

  function Word(hi: byte, lo: byte): (w: nat)
    ensures w <= 65535
  {
    256 * (hi as nat) + lo as nat
  }

  /** The sum of the 16-bit big-endian words of `data`, an odd last byte being a high byte. */
  function WordSum(data: seq<byte>): nat {
    if |data| == 0 then 0
    else if |data| == 1 then Word(data[0], 0)
    else Word(data[0], data[1]) + WordSum(data[2..])
  }

  /** The 16-bit ones' complement value of a sum: its residue modulo 65535, with 65535 standing
      for every multiple but 0. */
  function Fold(s: nat): (r: nat)
    ensures r <= 65535
  {
    if s == 0 then 0 else 1 + (s - 1) % 65535
  }

  /** A sum of words as the 32-bit accumulator holds it: the residue modulo 2^32. */
  function Wrapped(total: nat): (sum: nat)
    ensures sum < TWO32
  {
    if total < TWO32 then total else Wrapped(total - TWO32)
  }

  lemma {:induction false} WrapSum(total: nat, w: nat)
    ensures Wrapped(Wrapped(total) + w) == Wrapped(total + w)
  {
    if total >= TWO32 {
      WrapSum(total - TWO32, w);
    }
  }

  /** What the code computes: the sum is kept in 32 bits. */
  function ChecksumOf(data: seq<byte>): (cs: nat)
    ensures cs <= 65535
  {
    65535 - Fold(Wrapped(WordSum(data)))
  }

  /** A header is accepted when its checksum, taken over the stored checksum too, is zero. */
  predicate Verifies(header: seq<byte>) {
    ChecksumOf(header) == 0
  }

  lemma {:induction false} WordSumAppend(a: seq<byte>, b: seq<byte>)
    requires |a| % 2 == 0
    ensures WordSum(a + b) == WordSum(a) + WordSum(b)
  {
    if |a| == 0 {
      assert a + b == b;
    } else {
      assert (a + b)[2..] == a[2..] + b;
      WordSumAppend(a[2..], b);
    }
  }

  lemma WordSumStep(data: seq<byte>, i: nat)
    requires i + 2 <= |data| && i % 2 == 0
    ensures WordSum(data[..i + 2]) == WordSum(data[..i]) + Word(data[i], data[i + 1])
  {
    assert data[..i + 2] == data[..i] + [data[i], data[i + 1]];
    WordSumAppend(data[..i], [data[i], data[i + 1]]);
  }

  lemma WordSumTail(data: seq<byte>, last: byte)
    requires |data| % 2 == 0
    ensures WordSum(data + [last]) == WordSum(data) + Word(last, 0)
    ensures WordSum(data + [last, 0]) == WordSum(data) + Word(last, 0)
  {
    WordSumAppend(data, [last]);
    WordSumAppend(data, [last, 0]);
  }

  lemma AddWord(data: seq<byte>, i: nat, sum: nat, w: nat)
    requires i + 2 <= |data| && i % 2 == 0
    requires sum == Wrapped(WordSum(data[..i])) && w == Word(data[i], data[i + 1])
    ensures Wrapped(sum + w) == Wrapped(WordSum(data[..i + 2]))
  {
    WordSumStep(data, i);
    WrapSum(WordSum(data[..i]), w);
  }

  lemma AddLast(data: seq<byte>, i: nat, sum: nat, w: nat)
    requires i + 1 == |data| && i % 2 == 0
    requires sum == Wrapped(WordSum(data[..i])) && w == Word(data[i], 0)
    ensures Wrapped(sum + w) == Wrapped(WordSum(data))
  {
    WordSumTail(data[..i], data[i]);
    assert data == data[..i] + [data[i]];
    WrapSum(WordSum(data[..i]), w);
  }

  /** An odd number of bytes counts as the same bytes followed by a zero. */
  lemma OddPadding(data: seq<byte>)
    requires |data| % 2 == 1
    ensures WordSum(data) == WordSum(data + [0])
  {
    var k := |data| - 1;
    assert data == data[..k] + [data[k]];
    assert data + [0] == data[..k] + [data[k], 0];
    WordSumTail(data[..k], data[k]);
  }

  // Folding

  /** One end-around carry keeps the value and shrinks the sum. */
  lemma OneCarry(s: nat)
    requires s >= 65536
    ensures 0 < s % 65536 + s / 65536 < s
    ensures Fold(s % 65536 + s / 65536) == Fold(s)
  {
    var q, r := s / 65536, s % 65536;
    assert s - 1 == 65535 * q + (q + r - 1);
    ModMultiple(q, q + r - 1);
  }

  lemma ModMultiple(q: int, x: int)
    ensures (65535 * q + x) % 65535 == x % 65535
  {
  }

  lemma FoldFull(s: nat)
    ensures Fold(s) == 65535 <==> s > 0 && s % 65535 == 0
  {
    if s > 0 {
      var q, r := (s - 1) / 65535, (s - 1) % 65535;
      assert s == 65535 * q + (r + 1);
      ModMultiple(q, r + 1);
    }
  }

  lemma FoldEqual(s: nat, t: nat)
    requires s > 0 && t > 0
    ensures Fold(s) == Fold(t) <==> (s - t) % 65535 == 0
  {
    var q, r := (s - 1) / 65535, (s - 1) % 65535;
    var p, u := (t - 1) / 65535, (t - 1) % 65535;
    assert s - t == 65535 * (q - p) + (r - u);
    ModMultiple(q - p, r - u);
  }

  function FoldRounds(s: nat): nat {
    if s < 65536 then 0 else 1 + FoldRounds(s % 65536 + s / 65536)
  }

  /** A 32-bit sum needs at most two carries. */
  lemma FoldRoundsBound(s: nat)
    requires s < TWO32
    ensures FoldRounds(s) <= 2
  {
    if s >= 65536 {
      var s1 := s % 65536 + s / 65536;
      assert s1 <= 131070;
      if s1 >= 65536 {
        var s2 := s1 % 65536 + s1 / 65536;
        assert s1 / 65536 == 1;
        assert s2 < 65536 && FoldRounds(s2) == 0;
        assert FoldRounds(s1) == 1;
      }
    }
  }

  // Width of the accumulator

  lemma {:induction false} WordSumBound(data: seq<byte>)
    ensures 2 * WordSum(data) <= 65535 * (|data| + |data| % 2)
  {
    if |data| >= 2 {
      WordSumBound(data[2..]);
    }
  }

  function AllOnes(n: nat): seq<byte> {
    seq(n, i => 0xFF)
  }

  lemma {:induction false} AllOnesSum(n: nat)
    ensures WordSum(AllOnes(n)) == 65535 * (n / 2) + if n % 2 == 1 then 65280 else 0
  {
    if n >= 2 {
      assert AllOnes(n)[2..] == AllOnes(n - 2);
      AllOnesSum(n - 2);
    }
  }

  /** Up to 131074 bytes the 32-bit accumulator loses nothing. */
  lemma NoOverflow(data: seq<byte>)
    requires |data| <= 131074
    ensures WordSum(data) < TWO32
    ensures ChecksumOf(data) == 65535 - Fold(WordSum(data))
  {
    WordSumBound(data);
  }

  ghost predicate FitsAll(n: nat) {
    forall data: seq<byte> :: |data| == n ==> WordSum(data) < 4294967296
  }

  /** The lengths whose every byte string fits the accumulator; the router sums 20 bytes. */
  lemma NoOverflowExactly(n: nat)
    ensures FitsAll(n) <==> n <= 131074
  {
    if n <= 131074 {
      forall data: seq<byte> | |data| == n
        ensures WordSum(data) < TWO32
      {
        NoOverflow(data);
      }
    } else {
      AllOnesSum(n);
      assert |AllOnes(n)| == n && WordSum(AllOnes(n)) >= TWO32;
    }
  }

  /** One byte more can overflow, and then the checksum is wrong. */
  lemma OverflowAt131075(data: seq<byte>)
    requires data == AllOnes(131075)
    ensures WordSum(data) >= TWO32
    ensures ChecksumOf(data) != 65535 - Fold(WordSum(data))
  {
    AllOnesSum(131075);
    assert WordSum(data) == TWO32 + 65279;
    assert Wrapped(TWO32 + 65279) == 65279;
    assert (TWO32 + 65279 - 1) % 65535 == 65279;
  }

  /** The end-around carry loop: it goes round at most twice. */
  method FoldCarries(sum: nat) returns (r: nat, ghost rounds: nat)
    requires sum < TWO32
    ensures r == Fold(sum)
    ensures rounds == FoldRounds(sum) <= 2
  {
    r, rounds := sum, 0;
    FoldRoundsBound(sum);
    while r / 65536 > 0
      invariant Fold(r) == Fold(sum)
      invariant rounds + FoldRounds(r) == FoldRounds(sum)
      decreases r
    {
      OneCarry(r);
      r, rounds := r % 65536 + r / 65536, rounds + 1;
    }
  }

  /** Adds the 16-bit words in a 32-bit accumulator, folds the carries and complements. */
  method Checksum(data: Slice) returns (cs: nat)
    requires data.Valid()
    ensures cs == ChecksumOf(data.View())
  {
    ghost var view := data.View();
    var sum, i, n: int := 0, 0, data.Len();
    while i < n - 1
      invariant 0 <= i <= n && i % 2 == 0
      invariant sum == Wrapped(WordSum(view[..i]))
    {
      var w := Word(data.arr[data.lo + i], data.arr[data.lo + i + 1]);
      AddWord(view, i, sum, w);
      sum := Wrapped(sum + w);
      i := i + 2;
    }
    if n % 2 == 1 {
      var w := Word(data.arr[data.lo + n - 1], 0);
      AddLast(view, i, sum, w);
      sum := Wrapped(sum + w);
    } else {
      assert view == view[..i];
    }
    ghost var rounds;
    sum, rounds := FoldCarries(sum);
    cs := 65535 - sum;
  }
}
