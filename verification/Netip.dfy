/** Addresses and prefixes as Go's net/netip has them: the part the router relies on. */
module Netip {
  import opened Bytes

  function Pow2(n: nat): (r: nat)
    ensures r > 0
  {
    if n == 0 then 1 else 2 * Pow2(n - 1)
  }

  lemma Pow2Byte(n: nat)
    ensures Pow2(n + 8) == 256 * Pow2(n)
  {
    assert Pow2(n + 2) == 4 * Pow2(n);
    assert Pow2(n + 4) == 4 * Pow2(n + 2);
    assert Pow2(n + 6) == 4 * Pow2(n + 4);
    assert Pow2(n + 8) == 4 * Pow2(n + 6);
  }

  lemma {:induction false} BigEndianBound(s: seq<byte>)
    ensures BigEndian(s) < Pow2(8 * |s|)
  {
    if s != [] {
      var n := |s| - 1;
      BigEndianBound(s[..n]);
      Pow2Byte(8 * n);
    }
  }

  /** An address is its family, its value and, for IPv6, a zone. NoAddr is the zero Addr. */
  datatype RawAddr = NoAddr | V4(value: nat) | V6(value: nat, zone: string) {

    predicate IsValid() {
      !NoAddr?
    }

    function BitLen(): nat {
      match this
      case NoAddr => 0
      case V4(_) => 32
      case V6(_, _) => 128
    }

    predicate HasZone() {
      V6? && zone != ""
    }
  }

  type Addr = a: RawAddr | a.IsValid() ==> a.value < Pow2(a.BitLen()) witness NoAddr

  /** A prefix keeps its address unmasked and without zone; -1 bits marks an invalid one. */
  datatype RawPrefix = Prefix(addr: Addr, bits: int) {

    predicate IsValid() {
      bits >= 0
    }

    /** The part of `value` the prefix length covers. */
    function Network(value: nat): int
      requires IsValid() && bits <= addr.BitLen()
    {
      value / Pow2(addr.BitLen() - bits)
    }
  }

  type Prefix = p: RawPrefix |
    && !p.addr.HasZone()
    && (p.bits == -1 || (p.addr.IsValid() && 0 <= p.bits <= p.addr.BitLen()))
    witness Prefix(NoAddr, -1)

  function PrefixFrom(ip: Addr, bits: int): (p: Prefix)
    ensures p.IsValid() <==> ip.IsValid() && 0 <= bits <= ip.BitLen()
  {
    var bare := if ip.V6? then V6(ip.value, "") else ip;
    Prefix(bare, if ip.IsValid() && 0 <= bits <= ip.BitLen() then bits else -1)
  }

  /** Same family, no zone, and the same leading bits. */
  predicate Contains(p: Prefix, a: Addr) {
    p.IsValid() && !a.HasZone() && a.BitLen() == p.addr.BitLen() && p.Network(a.value) == p.Network(p.addr.value)
  }

  /** A prefix without host bits. */
  predicate Masked(p: Prefix) {
    p.IsValid() ==> p.addr.value % Pow2(p.addr.BitLen() - p.bits) == 0
  }

  /** Two masked prefixes of one length that hold a common address are the same prefix. */
  lemma MaskedUnique(p: Prefix, q: Prefix, a: Addr)
    requires Masked(p) && Masked(q) && p.bits == q.bits
    requires Contains(p, a) && Contains(q, a)
    ensures p == q
  {
    var m := Pow2(p.addr.BitLen() - p.bits);
    DivExact(p.addr.value, m);
    DivExact(q.addr.value, m);
  }

  function AddrFrom4(data: seq<byte>): Addr
    requires |data| == 4
  {
    BigEndianBound(data);
    V4(BigEndian(data))
  }

  function AddrFrom16(data: seq<byte>): Addr
    requires |data| == 16
  {
    BigEndianBound(data);
    V6(BigEndian(data), "")
  }

  // What it means to hold an address

  lemma SmallMultiple(d: nat, k: int)
    requires d > 0 && d * k < d
    ensures k <= 0
  {
  }

  lemma DivUnique(x: nat, d: nat, q: nat)
    requires d > 0 && d * q <= x < d * q + d
    ensures x / d == q
  {
    var p := x / d;
    DivBounds(x, d);
    assert d * (p - q) == d * p - d * q;
    assert d * (q - p) == d * q - d * p;
    SmallMultiple(d, p - q);
    SmallMultiple(d, q - p);
  }

  lemma DivExact(x: nat, d: nat)
    requires d > 0 && x % d == 0
    ensures x == d * (x / d)
  {
  }

  lemma DivBounds(x: nat, d: nat)
    requires d > 0
    ensures d * (x / d) <= x < d * (x / d) + d
  {
  }

  /** Bit `i` of a value of `width` bits, counted from the front. */
  function Bit(value: nat, width: nat, i: nat): int
    requires i < width
  {
    value / Pow2(width - 1 - i) % 2
  }

  lemma HalfQuotient(x: nat, k: nat)
    ensures x / Pow2(k) == 2 * (x / Pow2(k + 1)) + x / Pow2(k) % 2
  {
    var m := Pow2(k);
    var q := x / m;
    DivBounds(x, m);
    assert 2 * m * (q / 2) + m * (q % 2) == m * q by {
      assert q == 2 * (q / 2) + q % 2;
    }
    assert m * (q % 2) <= m;
    DivUnique(x, 2 * m, q / 2);
  }

  /** Leading parts are equal exactly when the leading bits are. */
  lemma {:induction false} SameLeadingBits(x: nat, y: nat, width: nat, n: nat)
    requires n <= width && x < Pow2(width) && y < Pow2(width)
    ensures x / Pow2(width - n) == y / Pow2(width - n)
       <==> forall i :: 0 <= i < n ==> Bit(x, width, i) == Bit(y, width, i)
  {
    if n == 0 {
      DivUnique(x, Pow2(width), 0);
      DivUnique(y, Pow2(width), 0);
    } else {
      SameLeadingBits(x, y, width, n - 1);
      HalfQuotient(x, width - n);
      HalfQuotient(y, width - n);
      assert Bit(x, width, n - 1) == x / Pow2(width - n) % 2;
      assert Bit(y, width, n - 1) == y / Pow2(width - n) % 2;
    }
  }

  /** An address a prefix can hold at all: same family, no zone. */
  predicate SameFamily(p: Prefix, a: Addr) {
    p.IsValid() && ((p.addr.V4? && a.V4?) || (p.addr.V6? && a.V6? && a.zone == ""))
  }

  /** A valid prefix holds an address of its family exactly when they agree on its first bits. */
  lemma ContainsExactly(p: Prefix, a: Addr)
    ensures Contains(p, a) <==>
              && SameFamily(p, a)
              && var width := if a.V4? then 32 else 128;
                 forall i :: 0 <= i < p.bits ==> Bit(a.value, width, i) == Bit(p.addr.value, width, i)
  {
    if SameFamily(p, a) {
      SameLeadingBits(a.value, p.addr.value, if a.V4? then 32 else 128, p.bits);
    }
  }

  /** The interval of addresses of a masked prefix. */
  predicate InInterval(p: Prefix, a: Addr) {
    && SameFamily(p, a)
    && p.addr.value <= a.value < p.addr.value + Pow2((if a.V4? then 32 else 128) - p.bits)
  }

  /** A masked prefix holds exactly the addresses of its interval. */
  lemma MaskedContainsExactly(p: Prefix, a: Addr)
    requires Masked(p)
    ensures Contains(p, a) <==> InInterval(p, a)
  {
    if SameFamily(p, a) {
      var m := Pow2(p.addr.BitLen() - p.bits);
      var q := p.addr.value / m;
      DivExact(p.addr.value, m);
      DivBounds(a.value, m);
      if InInterval(p, a) {
        DivUnique(a.value, m, q);
      }
    }
  }

  lemma Product(d: nat, q: nat)
    requires d > 0
    ensures d * q / d == q && d * q % d == 0
  {
    DivUnique(d * q, d, q);
  }

  /** The start of the interval of size `m` that holds `v`. */
  function Start(v: nat, m: nat): (s: nat)
    requires m > 0
    ensures s <= v && s / m == v / m
  {
    DivBounds(v, m);
    Product(m, v / m);
    m * (v / m)
  }

  function WithValue(a: Addr, v: nat): (r: Addr)
    requires a.IsValid() && v <= a.value && !a.HasZone()
    ensures r.IsValid() && r.value == v && r.BitLen() == a.BitLen() && !r.HasZone()
  {
    if a.V4? then V4(v) else V6(v, "")
  }

  /** The address of a prefix with its host bits cleared. */
  lemma FirstHeld(p: Prefix, m: nat) returns (first: Addr)
    requires p.IsValid() && m == Pow2(p.addr.BitLen() - p.bits)
    ensures Contains(p, first) && first.IsValid() && first.value == Start(p.addr.value, m)
  {
    first := WithValue(p.addr, Start(p.addr.value, m));
  }

  /** A prefix is masked exactly when its own address is the first of those it holds. */
  lemma MaskedExactly(p: Prefix)
    requires p.IsValid()
    ensures Masked(p) <==> forall a :: Contains(p, a) ==> p.addr.value <= a.value
  {
    var m := Pow2(p.addr.BitLen() - p.bits);
    var first := FirstHeld(p, m);
    DivBounds(p.addr.value, m);
    Product(m, p.addr.value / m);
    if Masked(p) {
      forall a | Contains(p, a)
        ensures p.addr.value <= a.value
      {
        MaskedContainsExactly(p, a);
      }
    }
  }

  /** Byte `i` of a value of `n` bytes, counted from the front. */
  function ByteAt(value: nat, n: nat, i: nat): int
    requires i < n
  {
    value / Pow2(8 * (n - 1 - i)) % 256
  }

  lemma DivTwice(x: nat, m: nat)
    requires m > 0
    ensures x / (256 * m) == x / 256 / m
  {
    var q := x / 256;
    var p := q / m;
    DivBounds(x, 256);
    DivBounds(q, m);
    assert 256 * m * p == 256 * (m * p) && 256 * m * p + 256 * m == 256 * (m * p + m);
    DivUnique(x, 256 * m, p);
  }

  /** A big-endian value has the string's bytes in order. */
  lemma {:induction false} BigEndianBytes(s: seq<byte>, i: nat)
    requires i < |s|
    ensures ByteAt(BigEndian(s), |s|, i) == s[i] as nat
  {
    var n := |s| - 1;
    DivUnique(BigEndian(s), 256, BigEndian(s[..n]));
    if i < n {
      BigEndianBytes(s[..n], i);
      Pow2Byte(8 * (n - 1 - i));
      DivTwice(BigEndian(s), Pow2(8 * (n - 1 - i)));
    } else {
      assert Pow2(0) == 1;
    }
  }
}
