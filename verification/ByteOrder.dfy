// Bytes and fixed-width integers in either byte order.
module ByteOrder {
  type Byte = b: nat | b < 0x100
  type Bytes = seq<Byte>

  datatype Order = BigEndian | LittleEndian

  function U16(o: Order, a: Byte, b: Byte): nat {
    if o.BigEndian? then a * 0x100 + b else b * 0x100 + a
  }

  function U32(o: Order, a: Byte, b: Byte, c: Byte, d: Byte): nat {
    if o.BigEndian? then U16(o, a, b) * 0x1_0000 + U16(o, c, d) else U16(o, c, d) * 0x1_0000 + U16(o, a, b)
  }

  function Put16(o: Order, v: nat): Bytes
    requires v < 0x1_0000
  {
    if o.BigEndian? then [v / 0x100, v % 0x100] else [v % 0x100, v / 0x100]
  }

  function Put32(o: Order, v: nat): Bytes
    requires v < 0x1_0000_0000
  {
    if o.BigEndian? then Put16(o, v / 0x1_0000) + Put16(o, v % 0x1_0000)
    else Put16(o, v % 0x1_0000) + Put16(o, v / 0x1_0000)
  }

  // Most significant byte first, or last.
  lemma Places(a: Byte, b: Byte, c: Byte, d: Byte)
    ensures U16(BigEndian, a, b) == a * 0x100 + b == U16(LittleEndian, b, a)
    ensures U32(BigEndian, a, b, c, d) == a * 0x100_0000 + b * 0x1_0000 + c * 0x100 + d
    ensures U32(LittleEndian, d, c, b, a) == a * 0x100_0000 + b * 0x1_0000 + c * 0x100 + d
  {
  }

  lemma Put16Read(o: Order, v: nat)
    requires v < 0x1_0000
    ensures U16(o, Put16(o, v)[0], Put16(o, v)[1]) == v
  {
  }

  lemma {:induction false} Put32Read(o: Order, v: nat)
    requires v < 0x1_0000_0000
    ensures var b := Put32(o, v); |b| == 4 && U32(o, b[0], b[1], b[2], b[3]) == v
  {
    Put16Read(o, v / 0x1_0000);
    Put16Read(o, v % 0x1_0000);
    assert |Put16(o, v / 0x1_0000)| == 2 && |Put16(o, v % 0x1_0000)| == 2;
    hide Put16, U16;
  }

  lemma {:induction false} Put16Written(o: Order, a: Byte, b: Byte)
    ensures U16(o, a, b) < 0x1_0000 && Put16(o, U16(o, a, b)) == [a, b]
  {
  }

  lemma {:induction false} Put32Written(o: Order, a: Byte, b: Byte, c: Byte, d: Byte)
    ensures U32(o, a, b, c, d) < 0x1_0000_0000 && Put32(o, U32(o, a, b, c, d)) == [a, b, c, d]
  {
    Put16Written(o, a, b);
    Put16Written(o, c, d);
    var p, q := U16(o, a, b), U16(o, c, d);
    hide Put16, U16;
    var hi, lo := if o.BigEndian? then p else q, if o.BigEndian? then q else p;
    assert (hi * 0x1_0000 + lo) / 0x1_0000 == hi && (hi * 0x1_0000 + lo) % 0x1_0000 == lo;
  }
}
