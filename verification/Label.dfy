/** The MPLS label stack entry codec of internal/mpls/label.go (section 2.1 of RFC 3032). */
module Label {
  import opened Bytes

  const LABEL_MAX: uint32 := 0xFFFFF
  const ENTRY_SIZE: nat := 4

  /** The four fields of a label stack entry. */
  datatype Fields = Fields(lbl: uint32, tc: byte, bottom: bool, ttl: byte)

  function Clamp(lbl: uint32): uint32 {
    if lbl > LABEL_MAX then LABEL_MAX else lbl
  }

  /** The 24 bits that hold an entry's label, traffic class and bottom-of-stack flag. */
  function Pack(lbl: uint32, tc: byte, bottom: bool): uint32 {
    var v := (Clamp(lbl) << 4) | ((tc as bv32) << 1);
    if bottom then v | 0x01 else v
  }

  function Unpack(v: uint32, ttl: byte): Fields {
    Fields(v >> 4, ((v >> 1) & 0x7) as bv8, (v & 0x01) == 0x01, ttl)
  }

  function Split(v: uint32, ttl: byte): (enc: seq<byte>)
    ensures |enc| == ENTRY_SIZE
  {
    [((v >> 16) & 0xFF) as bv8, ((v >> 8) & 0xFF) as bv8, (v & 0xFF) as bv8, ttl]
  }

  function Join(b0: byte, b1: byte, b2: byte): uint32 {
    ((b0 as bv32) << 16) | ((b1 as bv32) << 8) | (b2 as bv32)
  }

  function ParseLabel(data: seq<byte>): Option<Fields> {
    if |data| < ENTRY_SIZE then None else Some(Unpack(Join(data[0], data[1], data[2]), data[3]))
  }

  function EncodeLabel(lbl: uint32, tc: byte, bottom: bool, ttl: byte): (enc: seq<byte>)
    ensures |enc| == ENTRY_SIZE
  {
    Split(Pack(lbl, tc, bottom), ttl)
  }

  lemma JoinSplit(v: uint32)
    requires v < 0x1000000
    ensures Join(((v >> 16) & 0xFF) as bv8, ((v >> 8) & 0xFF) as bv8, (v & 0xFF) as bv8) == v
  {
  }

  lemma ParseSplit(v: uint32, ttl: byte, rest: seq<byte>)
    requires v < 0x1000000
    ensures ParseLabel(Split(v, ttl) + rest) == Some(Unpack(v, ttl))
  {
    JoinSplit(v);
  }

  lemma PackedBits(c: uint32, t: byte, bit: uint32)
    requires c <= LABEL_MAX && bit <= 1
    ensures (c << 4) | ((t as bv32) << 1) | bit < 0x1000000
    ensures ((c << 4) | ((t as bv32) << 1) | bit) >> 4 == c | ((t as bv32) >> 3)
    ensures ((((c << 4) | ((t as bv32) << 1) | bit) >> 1) & 0x7) as bv8 == t & 7
    ensures ((c << 4) | ((t as bv32) << 1) | bit) & 0x01 == bit
  {
  }

  lemma UnpackPacked(lbl: uint32, tc: byte, bottom: bool, ttl: byte)
    ensures Pack(lbl, tc, bottom) < 0x1000000
    ensures Unpack(Pack(lbl, tc, bottom), ttl)
         == Fields(Clamp(lbl) | ((tc as bv32) >> 3), tc & 7, bottom, ttl)
  {
    PackedBits(Clamp(lbl), tc, if bottom then 1 else 0);
  }

  /** Decoding an encoded entry, for every argument: a label above 20 bits becomes the largest one,
      and a traffic class above 7 spills its upper bits into the label. */
  lemma ParseEncoded(lbl: uint32, tc: byte, bottom: bool, ttl: byte, rest: seq<byte>)
    ensures ParseLabel(EncodeLabel(lbl, tc, bottom, ttl) + rest)
         == Some(Fields((if lbl > 0xFFFFF then 0xFFFFF else lbl) | ((tc as bv32) >> 3), tc & 7, bottom, ttl))
  {
    UnpackPacked(lbl, tc, bottom, ttl);
    ParseSplit(Pack(lbl, tc, bottom), ttl, rest);
  }

  lemma SmallClass(c: uint32, tc: byte)
    ensures tc & 7 == tc <==> tc <= 7
    ensures tc <= 7 ==> c | ((tc as bv32) >> 3) == c
  {
  }

  /** The exact arguments that survive encoding: 20-bit labels and 3-bit traffic classes. */
  lemma RoundTripExactly(lbl: uint32, tc: byte, bottom: bool, ttl: byte)
    ensures ParseLabel(EncodeLabel(lbl, tc, bottom, ttl)) == Some(Fields(lbl, tc, bottom, ttl))
       <==> lbl <= 0xFFFFF && tc <= 7
  {
    assert EncodeLabel(lbl, tc, bottom, ttl) + [] == EncodeLabel(lbl, tc, bottom, ttl);
    ParseEncoded(lbl, tc, bottom, ttl, []);
    SmallClass(Clamp(lbl), tc);
  }

  lemma PackUnpacked(v: uint32)
    requires v < 0x1000000
    ensures Unpack(v, 0).lbl <= LABEL_MAX && Unpack(v, 0).tc <= 7
    ensures Pack(Unpack(v, 0).lbl, Unpack(v, 0).tc, Unpack(v, 0).bottom) == v
  {
  }

  lemma SplitJoin(b0: byte, b1: byte, b2: byte, ttl: byte)
    ensures Join(b0, b1, b2) < 0x1000000
    ensures Split(Join(b0, b1, b2), ttl) == [b0, b1, b2, ttl]
  {
  }

  /** Every 4-byte word is the encoding of its own fields: with RoundTripExactly, a bijection. */
  lemma EncodeParsed(data: seq<byte>)
    requires |data| >= ENTRY_SIZE
    ensures ParseLabel(data).Some?
    ensures var f := ParseLabel(data).value;
            f.lbl <= LABEL_MAX && f.tc <= 7 && EncodeLabel(f.lbl, f.tc, f.bottom, f.ttl) == data[..ENTRY_SIZE]
  {
    SplitJoin(data[0], data[1], data[2], data[3]);
    PackUnpacked(Join(data[0], data[1], data[2]));
  }

  lemma LayoutBits(b0: byte, b1: byte, b2: byte, b3: byte, v: uint32)
    requires v == Join(b0, b1, b2)
    ensures ((b0 as bv32) << 24) | ((b1 as bv32) << 16) | ((b2 as bv32) << 8) | (b3 as bv32)
         == ((v >> 4) << 12) | (((((v >> 1) & 0x7) as bv8) as bv32) << 9)
            | (if (v & 0x01) == 0x01 then 0x100 else 0) | (b3 as bv32)
  {
  }

  /** Section 2.1 of RFC 3032: read as one big-endian word, an entry is 20 bits of label, 3 of
      traffic class, the bottom-of-stack bit and 8 bits of TTL. */
  lemma EntryLayout(data: seq<byte>)
    requires |data| >= 4
    ensures ParseLabel(data).Some?
    ensures ((data[0] as bv32) << 24) | ((data[1] as bv32) << 16) | ((data[2] as bv32) << 8) | (data[3] as bv32)
         == (ParseLabel(data).value.lbl << 12) | ((ParseLabel(data).value.tc as bv32) << 9)
            | (if ParseLabel(data).value.bottom then 0x100 else 0) | (ParseLabel(data).value.ttl as bv32)
  {
    LayoutBits(data[0], data[1], data[2], data[3], Join(data[0], data[1], data[2]));
  }
}
