/** Bytes, machine words and Go slices: the storage every packet operation works on. */
module Bytes {

  type byte = bv8
  type uint32 = bv32

  datatype Option<+T> = None | Some(value: T)

  /** A Go byte slice: elements [lo, hi) of a shared array. */
  datatype Slice = Slice(arr: array<byte>, lo: nat, hi: nat) {

    predicate Valid() {
      lo <= hi <= arr.Length
    }

    function Len(): nat
      requires Valid()
    {
      hi - lo
    }

    /** The bytes the slice currently shows. */
    function View(): (s: seq<byte>)
      requires Valid()
      reads arr
      ensures |s| == Len()
    {
      arr[lo..hi]
    }

    /** The Go expression `s[:n]`. */
    function First(n: nat): (s: Slice)
      requires Valid() && n <= Len()
      ensures s.Valid() && s.arr == arr
    {
      Slice(arr, lo, lo + n)
    }

    lemma FirstView(n: nat)
      requires Valid() && n <= Len()
      ensures First(n).View() == View()[..n]
    {
      assert arr[lo..hi][..n] == arr[lo..lo + n];
    }

    /** The Go expression `s[n:]`: a window on the same storage. */
    function From(n: nat): (s: Slice)
      requires Valid() && n <= Len()
      ensures s.Valid() && s.arr == arr
    {
      Slice(arr, lo + n, hi)
    }
  }

  /** The slice's storage held `before`; now the slice shows `bytes` and nothing else changed. */
  ghost predicate Rewrote(data: Slice, before: seq<byte>, bytes: seq<byte>)
    requires data.Valid()
    reads data.arr
  {
    && |before| == data.arr.Length && data.View() == bytes
    && data.arr[..data.lo] == before[..data.lo] && data.arr[data.hi..] == before[data.hi..]
  }

  /** The Go assignment `data[i] = b`. */
  method Put(data: Slice, i: nat, b: byte)
    requires data.Valid() && i < data.Len()
    modifies data.arr
    ensures Rewrote(data, old(data.arr[..]), old(data.View())[i := b])
  {
    data.arr[data.lo + i] := b;
  }

  /** The byte of a given value. */
  function ToByte(x: nat): (b: byte)
    requires x < 256
    ensures b as nat == x
  {
    if x == 0 then 0 else ToByte(x - 1) + 1
  }

  /** The big-endian value of a byte string. */
  function BigEndian(s: seq<byte>): nat {
    if s == [] then 0 else 256 * BigEndian(s[..|s| - 1]) + s[|s| - 1] as nat
  }

  lemma SameByte(a: byte, b: byte)
    requires a as nat == b as nat
    ensures a == b
  {
  }

  lemma LastDigit(x: nat, a: nat, y: nat, b: nat)
    requires 256 * x + a == 256 * y + b && a < 256 && b < 256
    ensures x == y && a == b
  {
  }

  /** Byte strings of one length are told apart by their values. */
  lemma {:induction false} BigEndianInjective(s: seq<byte>, t: seq<byte>)
    requires |s| == |t|
    ensures BigEndian(s) == BigEndian(t) <==> s == t
  {
    if s != [] && BigEndian(s) == BigEndian(t) {
      var n := |s| - 1;
      LastDigit(BigEndian(s[..n]), s[n] as nat, BigEndian(t[..n]), t[n] as nat);
      SameByte(s[n], t[n]);
      BigEndianInjective(s[..n], t[..n]);
      assert s == s[..n] + [s[n]] && t == t[..n] + [t[n]];
    }
  }
}
