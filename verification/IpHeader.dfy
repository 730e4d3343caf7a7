/** The IP header fields the router reads and rewrites in internal/router/router.go. */
module IpHeader {
  import opened Bytes
  import opened Checksum

  /** Where the hop count is: the TTL of IPv4, the hop limit of IPv6. */
  const TTL4: nat := 8
  const TTL6: nat := 7

  /** The packets handleIPPacket does not drop at once. */
  predicate IsIp(data: seq<byte>) {
    |data| >= 20 && (data[0] >> 4 == 4 || (data[0] >> 4 == 6 && |data| >= 40))
  }

  predicate IsV4(data: seq<byte>)
    requires IsIp(data)
  {
    data[0] >> 4 == 4
  }

  function TtlIndex(data: seq<byte>): (i: nat)
    requires IsIp(data)
    ensures i < |data|
  {
    if IsV4(data) then TTL4 else TTL6
  }

  function Ttl(data: seq<byte>): byte
    requires IsIp(data)
  {
    data[TtlIndex(data)]
  }

  /** The packet after the wrapping decrement of its hop count. */
  function Aged(data: seq<byte>): (r: seq<byte>)
    requires IsIp(data)
    ensures |r| == |data|
  {
    data[TtlIndex(data) := Ttl(data) - 1]
  }

  function ClearChecksum(data: seq<byte>): (r: seq<byte>)
    requires |data| >= 20
    ensures |r| == |data|
  {
    data[10 := 0][11 := 0]
  }

  function StoreChecksum(data: seq<byte>, cs: nat): (r: seq<byte>)
    requires |data| >= 20 && cs <= 65535
    ensures |r| == |data|
  {
    data[10 := ToByte(cs / 256)][11 := ToByte(cs % 256)]
  }

  /** The checksum field recomputed over the first 20 bytes. */
  function Refreshed(data: seq<byte>): (r: seq<byte>)
    requires |data| >= 20
    ensures |r| == |data|
  {
    StoreChecksum(ClearChecksum(data), ChecksumOf(ClearChecksum(data)[..20]))
  }

  /** What the router sends on: one hop older, and for IPv4 with a new checksum. */
  function Forwarded(data: seq<byte>): (r: seq<byte>)
    requires IsIp(data)
    ensures |r| == |data|
  {
    if IsV4(data) then Refreshed(Aged(data)) else Aged(data)
  }

  // The words of a 20-byte header

  function StoredChecksum(data: seq<byte>): nat
    requires |data| >= 20
  {
    Word(data[10], data[11])
  }

  /** The word that holds the TTL and the protocol. */
  function TtlWord(data: seq<byte>): nat
    requires |data| >= 20
  {
    Word(data[8], data[9])
  }

  function OtherWords(data: seq<byte>): nat
    requires |data| >= 20
  {
    WordSum(data[..8]) + WordSum(data[12..20])
  }

  lemma HeaderSum(data: seq<byte>)
    requires |data| >= 20
    ensures WordSum(data[..20]) == OtherWords(data) + TtlWord(data) + StoredChecksum(data)
  {
    var h := data[..20];
    assert h == data[..8] + ([data[8], data[9]] + ([data[10], data[11]] + data[12..20]));
    WordSumAppend(data[..8], [data[8], data[9]] + ([data[10], data[11]] + data[12..20]));
    WordSumAppend([data[8], data[9]], [data[10], data[11]] + data[12..20]);
    WordSumAppend([data[10], data[11]], data[12..20]);
  }

  lemma WordOfBytes(w: nat)
    requires w <= 65535
    ensures Word(ToByte(w / 256), ToByte(w % 256)) == w
  {
  }

  /** Refreshing keeps every other word and stores the complement of their sum. */
  lemma RefreshedWords(data: seq<byte>)
    requires |data| >= 20
    ensures OtherWords(Refreshed(data)) == OtherWords(data)
    ensures TtlWord(Refreshed(data)) == TtlWord(data)
    ensures StoredChecksum(Refreshed(data)) == 65535 - Fold(OtherWords(data) + TtlWord(data))
  {
    var z := ClearChecksum(data);
    assert z[..8] == data[..8] && z[12..20] == data[12..20];
    HeaderSum(z);
    NoOverflow(z[..20]);
    var out := Refreshed(data);
    assert out[..8] == data[..8] && out[12..20] == data[12..20];
    WordOfBytes(ChecksumOf(z[..20]));
  }

  /** Storing the complement of a sum completes it to a multiple of 65535. */
  lemma ComplementCompletes(t: nat)
    ensures (t + 65535 - Fold(t)) % 65535 == 0
  {
    if t > 0 {
      var q, r := (t - 1) / 65535, (t - 1) % 65535;
      assert t + 65535 - Fold(t) == 65535 * (q + 1);
    }
  }

  lemma VerifiesExactly(header: seq<byte>)
    requires |header| <= 131074
    ensures Verifies(header) <==> WordSum(header) > 0 && WordSum(header) % 65535 == 0
  {
    NoOverflow(header);
    FoldFull(WordSum(header));
  }

  /** After a refresh the first 20 bytes verify. */
  lemma RefreshedVerifies(data: seq<byte>)
    requires |data| >= 20
    ensures Verifies(Refreshed(data)[..20])
  {
    var out, t := Refreshed(data), OtherWords(data) + TtlWord(data);
    RefreshedWords(data);
    HeaderSum(out);
    ComplementCompletes(t);
    VerifiesExactly(out[..20]);
  }

  /** A header with options: the code sums 20 bytes whatever the header length field says, so the
      real header verifies exactly when its options add up to a ones' complement zero. */
  lemma OptionsVerifyExactly(data: seq<byte>, ihl: nat)
    requires 5 <= ihl <= 15 && |data| >= 4 * ihl
    ensures Verifies(Refreshed(data)[..4 * ihl]) <==> WordSum(data[20..4 * ihl]) % 65535 == 0
  {
    var out := Refreshed(data);
    assert out[..4 * ihl] == out[..20] + data[20..4 * ihl];
    WordSumAppend(out[..20], data[20..4 * ihl]);
    RefreshedVerifies(data);
    VerifiesExactly(out[..20]);
    VerifiesExactly(out[..4 * ihl]);
    var k := WordSum(out[..20]) / 65535;
    ModMultiple(k, WordSum(data[20..4 * ihl]));
  }

  // Incremental update

  /** Equation 3 of section 3 of RFC 1624: the new checksum from the old one and the old and new
      value of the word that changed. */
  function Incremental(hc: nat, m: nat, m': nat): (hc': nat)
    requires hc <= 65535 && m <= 65535
    ensures hc' <= 65535
  {
    65535 - Fold((65535 - hc) + (65535 - m) + m')
  }

  lemma AgedWords(data: seq<byte>)
    requires IsIp(data) && IsV4(data)
    ensures OtherWords(Aged(data)) == OtherWords(data) > 0
    ensures data[8] != 0 ==> TtlWord(Aged(data)) == TtlWord(data) - 256
    ensures data[8] == 0 ==> TtlWord(Aged(data)) == TtlWord(data) + 0xFF00
  {
    assert Aged(data)[..8] == data[..8] && Aged(data)[12..20] == data[12..20];
    assert data[0] != 0;
    assert data[..8] == [data[0], data[1]] + data[2..8];
    WordSumAppend([data[0], data[1]], data[2..8]);
  }

  /** The arithmetic of the two updates: `stored` recomputed, `s` the untouched words. */
  lemma SameFold(s: nat, m: nat, m': nat, hc: nat, stored: int, verified: bool)
    requires s > 0 && m <= 65535 && hc <= 65535 && (m' + 256 == m || m' == m + 0xFF00)
    requires stored == 65535 - Fold(s + m') && (verified <==> (s + m + hc) % 65535 == 0)
    ensures stored == Incremental(hc, m, m') <==> verified
  {
    FoldEqual(s + m', (65535 - hc) + (65535 - m) + m');
    ModMultiple(-2, s + m + hc);
  }

  lemma ArrivedSum(data: seq<byte>)
    requires IsIp(data) && IsV4(data)
    ensures Verifies(data[..20])
       <==> (OtherWords(data) + TtlWord(data) + StoredChecksum(data)) % 65535 == 0
  {
    AgedWords(data);
    HeaderSum(data);
    VerifiesExactly(data[..20]);
  }

  lemma ForwardedChecksum(data: seq<byte>)
    requires IsIp(data) && IsV4(data)
    ensures StoredChecksum(Forwarded(data)) == 65535 - Fold(OtherWords(data) + TtlWord(Aged(data)))
  {
    AgedWords(data);
    RefreshedWords(Aged(data));
  }

  /** The full recomputation gives the incremental checksum of RFC 1624 exactly when the header
      verified on arrival: a bad checksum is repaired, not carried along. */
  lemma IncrementalExactly(data: seq<byte>)
    requires IsIp(data) && IsV4(data)
    ensures StoredChecksum(Forwarded(data))
         == Incremental(StoredChecksum(data), TtlWord(data), TtlWord(Aged(data)))
       <==> Verifies(data[..20])
  {
    AgedWords(data);
    ForwardedChecksum(data);
    ArrivedSum(data);
    SameFold(OtherWords(data), TtlWord(data), TtlWord(Aged(data)), StoredChecksum(data),
             StoredChecksum(Forwarded(data)), Verifies(data[..20]));
  }

  // Byte by byte

  /** An IPv6 packet goes on with byte 7 one less, modulo 256, and every other byte as it was. */
  lemma ForwardedV6(data: seq<byte>)
    requires |data| >= 40 && data[0] >> 4 == 6
    ensures IsIp(data) && Forwarded(data) == data[7 := data[7] - 1]
  {
  }

  /** An IPv4 packet goes on with byte 8 one less, modulo 256, bytes 10 and 11 such that the first
      20 verify, and every other byte as it was. */
  lemma ForwardedV4(data: seq<byte>)
    requires |data| >= 20 && data[0] >> 4 == 4
    ensures IsIp(data) && |Forwarded(data)| == |data| && Forwarded(data)[8] == data[8] - 1
    ensures forall i :: 0 <= i < |data| && i != 8 && i != 10 && i != 11 ==> Forwarded(data)[i] == data[i]
    ensures Verifies(Forwarded(data)[..20])
  {
    RefreshedVerifies(Aged(data));
  }

  function HeaderWord(data: seq<byte>, i: nat): nat
    requires 2 * i + 1 < |data|
  {
    256 * (data[2 * i] as nat) + data[2 * i + 1] as nat
  }

  lemma FiveWords(h: seq<byte>)
    requires |h| == 10
    ensures WordSum(h) == HeaderWord(h, 0) + HeaderWord(h, 1) + HeaderWord(h, 2) + HeaderWord(h, 3) + HeaderWord(h, 4)
  {
    assert h[..0] == [] && h[..10] == h;
    WordSumStep(h, 0);
    WordSumStep(h, 2);
    WordSumStep(h, 4);
    WordSumStep(h, 6);
    WordSumStep(h, 8);
  }

  /** The ten 16-bit words of a 20-byte header, added up. */
  function TenWords(h: seq<byte>): nat
    requires |h| == 20
  {
    HeaderWord(h, 0) + HeaderWord(h, 1) + HeaderWord(h, 2) + HeaderWord(h, 3) + HeaderWord(h, 4)
    + HeaderWord(h, 5) + HeaderWord(h, 6) + HeaderWord(h, 7) + HeaderWord(h, 8) + HeaderWord(h, 9)
  }

  lemma TenWordsAreAll(h: seq<byte>)
    requires |h| == 20
    ensures WordSum(h) == TenWords(h)
  {
    assert h == h[..10] + h[10..];
    WordSumAppend(h[..10], h[10..]);
    FiveWords(h[..10]);
    FiveWords(h[10..]);
  }

  /** To verify is that the header's ten words add up to a non-zero multiple of 65535. */
  lemma VerifiesByWords(h: seq<byte>)
    requires |h| == 20
    ensures Verifies(h) <==> TenWords(h) > 0 && TenWords(h) % 65535 == 0
  {
    VerifiesExactly(h);
    TenWordsAreAll(h);
  }
}
