// The PulseAudio tagstruct format: a writer, a reader, and a skipper that
// must stay aligned with both.
module Tagstruct {
  import opened Basics
  import opened ByteOrder

  const TAG_STRING: Byte := 0x74
  const TAG_STRING_NULL: Byte := 0x4E
  const TAG_U32: Byte := 0x4C
  const TAG_U8: Byte := 0x42
  const TAG_S64: Byte := 0x72
  const TAG_U64: Byte := 0x52
  const TAG_SAMPLE_SPEC: Byte := 0x61
  const TAG_CHANNEL_MAP: Byte := 0x6D
  const TAG_CVOLUME: Byte := 0x76
  const TAG_PROPLIST: Byte := 0x50
  const TAG_TRUE: Byte := 0x31
  const TAG_FALSE: Byte := 0x30
  const TAG_ARBITRARY: Byte := 0x78
  const TAG_USEC: Byte := 0x55
  const TAG_VOLUME: Byte := 0x56
  const TAG_TIMEVAL: Byte := 0x54

  const U32_LIMIT: nat := 0x1_0000_0000

  function Be32(v: nat): Bytes
    requires v < U32_LIMIT
  {
    Put32(BigEndian, v)
  }

  function Get32(data: Bytes, at: nat): nat
    requires at + 4 <= |data|
  {
    U32(BigEndian, data[at], data[at + 1], data[at + 2], data[at + 3])
  }

  // ---------------------------------------------------------------------
  // Text

  predicate Tail(b: Byte) { 0x80 <= b < 0xC0 }

  // The byte sequences accepted as UTF-8.
  predicate Utf8(s: Bytes) {
    if s == [] then true
    else if s[0] < 0x80 then Utf8(s[1..])
    else if |s| < 2 then false
    else if 0xC2 <= s[0] < 0xE0 then Tail(s[1]) && Utf8(s[2..])
    else if |s| < 3 then false
    else if 0xE0 <= s[0] < 0xF0 then
      Tail(s[1]) && Tail(s[2]) && (s[0] == 0xE0 ==> 0xA0 <= s[1]) && (s[0] == 0xED ==> s[1] < 0xA0) && Utf8(s[3..])
    else if |s| < 4 then false
    else
      0xF0 <= s[0] < 0xF5 && Tail(s[1]) && Tail(s[2]) && Tail(s[3]) &&
      (s[0] == 0xF0 ==> 0x90 <= s[1]) && (s[0] == 0xF4 ==> s[1] < 0x90) && Utf8(s[4..])
  }

  // The characters of UTF-8 and their encodings (section 3 of RFC 3629).
  predicate Scalar(c: nat) { c < 0xD800 || 0xE000 <= c < 0x11_0000 }

  function Utf8Of(c: nat): Bytes
    requires Scalar(c)
  {
    if c < 0x80 then [c]
    else if c < 0x800 then [0xC0 + c / 0x40, 0x80 + c % 0x40]
    else if c < 0x1_0000 then [0xE0 + c / 0x1000, 0x80 + c / 0x40 % 0x40, 0x80 + c % 0x40]
    else [0xF0 + c / 0x4_0000, 0x80 + c / 0x1000 % 0x40, 0x80 + c / 0x40 % 0x40, 0x80 + c % 0x40]
  }

  ghost function Utf8All(cs: seq<nat>): Bytes
    requires forall i :: 0 <= i < |cs| ==> Scalar(cs[i])
  {
    if cs == [] then [] else Utf8Of(cs[0]) + Utf8All(cs[1..])
  }

  // The bytes accepted are the encodings of texts.
  lemma {:induction false} Utf8Exactly(s: Bytes)
    ensures Utf8(s) <==> exists cs: seq<nat> :: (forall i :: 0 <= i < |cs| ==> Scalar(cs[i])) && s == Utf8All(cs)
  {
    if Utf8(s) {
      var cs := Decoded(s);
    }
    if cs: seq<nat> :| (forall i :: 0 <= i < |cs| ==> Scalar(cs[i])) && s == Utf8All(cs) {
      EncodedIsUtf8(cs);
    }
  }

  lemma {:induction false} EncodedIsUtf8(cs: seq<nat>)
    requires forall i :: 0 <= i < |cs| ==> Scalar(cs[i])
    ensures Utf8(Utf8All(cs))
  {
    if cs != [] {
      EncodedIsUtf8(cs[1..]);
      OneMore(cs[0], Utf8All(cs[1..]));
    }
  }

  lemma {:induction false} OneMore(c: nat, rest: Bytes)
    requires Scalar(c)
    ensures Utf8(Utf8Of(c) + rest) <==> Utf8(rest)
  {
    if c < 0x800 {
      OneMoreShort(c, rest);
    } else if c < 0x1_0000 {
      OneMoreThree(c, rest);
    } else {
      OneMoreFour(c, rest);
    }
  }

  lemma OneMoreShort(c: nat, rest: Bytes)
    requires c < 0x800
    ensures Utf8(Utf8Of(c) + rest) <==> Utf8(rest)
  {
    assert (Utf8Of(c) + rest)[|Utf8Of(c)|..] == rest;
  }

  lemma OneMoreThree(c: nat, rest: Bytes)
    requires Scalar(c) && 0x800 <= c < 0x1_0000
    ensures Utf8(Utf8Of(c) + rest) <==> Utf8(rest)
  {
    var a, b, d := 0xE0 + c / 0x1000, 0x80 + c / 0x40 % 0x40, 0x80 + c % 0x40;
    var s := Utf8Of(c) + rest;
    assert s[0] == a && s[1] == b && s[2] == d && s[3..] == rest;
    assert 0xE0 <= a < 0xF0 && 0x80 <= b < 0xC0 && 0x80 <= d < 0xC0;
    assert (a == 0xE0 ==> 0xA0 <= b) && (a == 0xED ==> b < 0xA0);
    hide Utf8Of;
  }

  lemma OneMoreFour(c: nat, rest: Bytes)
    requires 0x1_0000 <= c < 0x11_0000
    ensures Utf8(Utf8Of(c) + rest) <==> Utf8(rest)
  {
    var a, b := 0xF0 + c / 0x4_0000, 0x80 + c / 0x1000 % 0x40;
    var d, e := 0x80 + c / 0x40 % 0x40, 0x80 + c % 0x40;
    var s := Utf8Of(c) + rest;
    assert s[0] == a && s[1] == b && s[2] == d && s[3] == e && s[4..] == rest;
    assert 0xF0 <= a < 0xF5 && 0x80 <= b < 0xC0 && 0x80 <= d < 0xC0 && 0x80 <= e < 0xC0;
    assert (a == 0xF0 ==> 0x90 <= b) && (a == 0xF4 ==> b < 0x90);
    hide Utf8Of;
  }

  // The first character of accepted bytes, and how many bytes it has.
  lemma {:induction false} FirstCharacter(s: Bytes) returns (c: nat, n: nat)
    requires s != [] && Utf8(s)
    ensures 0 < n <= |s| && Scalar(c) && s[..n] == Utf8Of(c) && Utf8(s[n..])
  {
    if s[0] < 0x80 {
      c, n := s[0], 1;
    } else if s[0] < 0xE0 {
      c, n := SixBits(s[0] - 0xC0, s[1] - 0x80), 2;
      assert s[..2] == [s[0], s[1]];
    } else if s[0] < 0xF0 {
      n := 3;
      c := FirstOfThree(s);
    } else {
      n := 4;
      c := FirstOfFour(s);
    }
  }

  // Six more bits.
  function SixBits(high: nat, low: nat): (c: nat)
    requires low < 0x40
    ensures c / 0x40 == high && c % 0x40 == low
  {
    high * 0x40 + low
  }

  lemma {:induction false} FirstOfThree(s: Bytes) returns (c: nat)
    requires s != [] && Utf8(s) && 0xE0 <= s[0] < 0xF0
    ensures 3 <= |s| && Scalar(c) && s[..3] == Utf8Of(c) && Utf8(s[3..])
  {
    var x, y, z := s[0] - 0xE0, s[1] - 0x80, s[2] - 0x80;
    assert (x == 0 ==> 0x20 <= y) && (x == 0xD ==> y < 0x20);
    assert s[..3] == [s[0], s[1], s[2]] && Utf8(s[3..]);
    hide Utf8;
    c := SixBits(SixBits(x, y), z);
    hide SixBits;
    assert c / 0x1000 == c / 0x40 / 0x40;
  }

  lemma {:induction false} FirstOfFour(s: Bytes) returns (c: nat)
    requires s != [] && Utf8(s) && 0xF0 <= s[0]
    ensures 4 <= |s| && Scalar(c) && s[..4] == Utf8Of(c) && Utf8(s[4..])
  {
    var x, y, z, w := s[0] - 0xF0, s[1] - 0x80, s[2] - 0x80, s[3] - 0x80;
    assert (x == 0 ==> 0x10 <= y) && (x == 4 ==> y < 0x10) && x < 5;
    assert s[..4] == [s[0], s[1], s[2], s[3]] && Utf8(s[4..]);
    hide Utf8;
    c := SixBits(SixBits(SixBits(x, y), z), w);
    hide SixBits;
    assert c / 0x1000 == c / 0x40 / 0x40 && c / 0x4_0000 == c / 0x40 / 0x40 / 0x40;
  }

  lemma {:induction false} Decoded(s: Bytes) returns (cs: seq<nat>)
    requires Utf8(s)
    ensures (forall i :: 0 <= i < |cs| ==> Scalar(cs[i])) && s == Utf8All(cs)
    decreases |s|
  {
    cs := [];
    if s != [] {
      var c, n := FirstCharacter(s);
      var rest := Decoded(s[n..]);
      cs := [c] + rest;
      hide Utf8, Utf8Of;
      assert cs[1..] == rest && s == s[..n] + s[n..];
    }
  }

  // Invalid UTF-8 reads as the empty string.
  function TextOf(s: Bytes): Bytes {
    if Utf8(s) then s else []
  }

  // ---------------------------------------------------------------------
  // Values and their encodings

  datatype Value =
    | U32Value(v: nat)
    | U8Value(b: Byte)
    | Text(s: Bytes)
    | NullText
    | SampleSpec(format: Byte, channels: Byte, rate: nat)
    | ChannelMap(channels: Byte)
    | CVolume(channels: Byte, volume: nat)
    | Usec(hi: nat, lo: nat)
    | S64(hi: nat, lo: nat)
    | U64(hi: nat, lo: nat)
    | Boolean(flag: bool)
    | Arbitrary(data: Bytes)
    | Timeval(sec: nat, usec: nat)
    | Proplist(props: seq<(Bytes, Bytes)>)

  // Strings cannot hold their terminator; numbers fit their fields.
  predicate TextOk(s: Bytes) { Utf8(s) && 0 !in s }

  ghost predicate Writable(v: Value) {
    match v
    case U32Value(n) => n < U32_LIMIT
    case Text(s) => TextOk(s)
    case SampleSpec(_, _, rate) => rate < U32_LIMIT
    case CVolume(_, volume) => volume < U32_LIMIT
    case Usec(hi, lo) => hi < U32_LIMIT && lo < U32_LIMIT
    case S64(hi, lo) => hi < U32_LIMIT && lo < U32_LIMIT
    case U64(hi, lo) => hi < U32_LIMIT && lo < U32_LIMIT
    case Arbitrary(data) => |data| < U32_LIMIT
    case Timeval(sec, usec) => sec < U32_LIMIT && usec < U32_LIMIT
    case Proplist(ps) => PropsOk(ps)
    case _ => true
  }

  ghost predicate PropsOk(ps: seq<(Bytes, Bytes)>) {
    forall i :: 0 <= i < |ps| ==> TextOk(ps[i].0) && |ps[i].1| < U32_LIMIT
  }

  // Positions of a channel map: left, right, then unpositioned.
  function Positions(channels: nat): seq<Byte> {
    seq(channels, i => if i == 0 then 1 else if i == 1 then 2 else 0)
  }

  function Volumes(channels: nat, volume: nat): Bytes
    requires volume < U32_LIMIT
  {
    if channels == 0 then [] else Be32(volume) + Volumes(channels - 1, volume)
  }

  function EncodeArbitrary(data: Bytes): Bytes
    requires |data| < U32_LIMIT
  {
    [TAG_ARBITRARY] + Be32(|data|) + data
  }

  function EncodeText(s: Bytes): Bytes { [TAG_STRING] + s + [0] }

  // Key, redundant length, value.
  function EncodeProp(p: (Bytes, Bytes)): Bytes
    requires |p.1| < U32_LIMIT
  {
    EncodeText(p.0) + ([TAG_U32] + Be32(|p.1|) + EncodeArbitrary(p.1))
  }

  ghost function EncodeProps(ps: seq<(Bytes, Bytes)>): Bytes
    requires PropsOk(ps)
  {
    if ps == [] then [TAG_STRING_NULL] else EncodeProp(ps[0]) + EncodeProps(ps[1..])
  }

  ghost function Encode(v: Value): Bytes
    requires Writable(v)
  {
    match v
    case U32Value(n) => [TAG_U32] + Be32(n)
    case U8Value(b) => [TAG_U8, b]
    case Text(s) => EncodeText(s)
    case NullText => [TAG_STRING_NULL]
    case SampleSpec(format, channels, rate) => [TAG_SAMPLE_SPEC, format, channels] + Be32(rate)
    case ChannelMap(channels) => [TAG_CHANNEL_MAP, channels] + Positions(channels)
    case CVolume(channels, volume) => [TAG_CVOLUME, channels] + Volumes(channels, volume)
    case Usec(hi, lo) => [TAG_USEC] + Be32(hi) + Be32(lo)
    case S64(hi, lo) => [TAG_S64] + Be32(hi) + Be32(lo)
    case U64(hi, lo) => [TAG_U64] + Be32(hi) + Be32(lo)
    case Boolean(b) => [if b then TAG_TRUE else TAG_FALSE]
    case Arbitrary(data) => EncodeArbitrary(data)
    case Timeval(sec, usec) => [TAG_TIMEVAL] + Be32(sec) + Be32(usec)
    case Proplist(ps) => [TAG_PROPLIST] + EncodeProps(ps)
  }

  // The letter each kind of value begins with.
  function Letter(v: Value): char {
    match v
    case U32Value(_) => 'L'
    case U8Value(_) => 'B'
    case Text(_) => 't'
    case NullText => 'N'
    case SampleSpec(_, _, _) => 'a'
    case ChannelMap(_) => 'm'
    case CVolume(_, _) => 'v'
    case Usec(_, _) => 'U'
    case S64(_, _) => 'r'
    case U64(_, _) => 'R'
    case Boolean(flag) => if flag then '1' else '0'
    case Arbitrary(_) => 'x'
    case Timeval(_, _) => 'T'
    case Proplist(_) => 'P'
  }

  // Four bytes as a number, most significant first.
  function Number(e: Bytes, at: nat): nat
    requires at + 4 <= |e|
  {
    (e[at] as nat) * 0x100_0000 + (e[at + 1] as nat) * 0x1_0000 + (e[at + 2] as nat) * 0x100 + e[at + 3]
  }

  lemma {:induction false} NumberAt(tag: Bytes, v: nat, rest: Bytes)
    requires v < U32_LIMIT
    ensures |Be32(v)| == 4 && Number(tag + Be32(v) + rest, |tag|) == v
  {
    Put32Read(BigEndian, v);
    var b := Be32(v);
    Places(b[0], b[1], b[2], b[3]);
    hide Be32, U32;
  }

  // What a value looks like on the wire.
  lemma {:induction false} Layout(v: Value)
    requires Writable(v)
    ensures Encode(v) != [] && Encode(v)[0] == Letter(v) as nat
    ensures match v
      case U32Value(n) => |Encode(v)| == 5 && Number(Encode(v), 1) == n
      case U8Value(b) => Encode(v)[1..] == [b]
      case Text(s) => Encode(v)[1..] == s + [0]
      case SampleSpec(format, channels, rate) =>
        |Encode(v)| == 7 && Encode(v)[1] == format && Encode(v)[2] == channels && Number(Encode(v), 3) == rate
      case ChannelMap(n) =>
        |Encode(v)| == 2 + n && Encode(v)[1] == n &&
        forall i :: 2 <= i < 2 + n ==> Encode(v)[i] == if i == 2 then 1 else if i == 3 then 2 else 0
      case CVolume(n, _) => |Encode(v)| >= 2 && Encode(v)[1] == n
      case Usec(hi, lo) => |Encode(v)| == 9 && Number(Encode(v), 1) == hi && Number(Encode(v), 5) == lo
      case S64(hi, lo) => |Encode(v)| == 9 && Number(Encode(v), 1) == hi && Number(Encode(v), 5) == lo
      case U64(hi, lo) => |Encode(v)| == 9 && Number(Encode(v), 1) == hi && Number(Encode(v), 5) == lo
      case Timeval(sec, usec) =>
        |Encode(v)| == 9 && Number(Encode(v), 1) == sec && Number(Encode(v), 5) == usec
      case Arbitrary(data) =>
        |Encode(v)| == 5 + |data| && Number(Encode(v), 1) == |data| && Encode(v)[5..] == data
      case Proplist(ps) => Encode(v)[1..] == EncodeProps(ps)
      case _ => |Encode(v)| == 1
  {
    hide Be32, Number, Utf8, EncodeProps, Volumes;
    match v
    case U32Value(n) =>
      NumberAt([TAG_U32], n, []);
      assert [TAG_U32] + Be32(n) + [] == Encode(v);
    case SampleSpec(format, channels, rate) =>
      var head := [TAG_SAMPLE_SPEC, format, channels];
      NumberAt(head, rate, []);
      assert head + Be32(rate) + [] == Encode(v);
    case Usec(hi, lo) => PairLayout(TAG_USEC, hi, lo);
    case S64(hi, lo) => PairLayout(TAG_S64, hi, lo);
    case U64(hi, lo) => PairLayout(TAG_U64, hi, lo);
    case Timeval(sec, usec) => PairLayout(TAG_TIMEVAL, sec, usec);
    case Arbitrary(data) => NumberAt([TAG_ARBITRARY], |data|, data);
    case _ =>
  }

  lemma {:induction false} PairLayout(tag: Byte, hi: nat, lo: nat)
    requires hi < U32_LIMIT && lo < U32_LIMIT
    ensures var e := [tag] + Be32(hi) + Be32(lo);
      |e| == 9 && Number(e, 1) == hi && Number(e, 5) == lo
  {
    hide Be32, Number;
    NumberAt([tag], hi, Be32(lo));
    NumberAt([tag] + Be32(hi), lo, []);
    assert [tag] + Be32(hi) + Be32(lo) + [] == [tag] + Be32(hi) + Be32(lo);
  }

  // A property list is its entries, key, length and value each, and a null
  // string; volumes are one number per channel.
  lemma {:induction false} ListLayout(p: (Bytes, Bytes), ps: seq<(Bytes, Bytes)>)
    requires TextOk(p.0) && |p.1| < U32_LIMIT && PropsOk(ps)
    ensures PropsOk([p] + ps) && EncodeProps([]) == Encode(NullText)
    ensures EncodeProps([p] + ps) ==
      Encode(Text(p.0)) + (Encode(U32Value(|p.1|)) + Encode(Arbitrary(p.1))) + EncodeProps(ps)
  {
    hide Be32, TextOk, EncodeText, EncodeArbitrary;
    assert ([p] + ps)[0] == p && ([p] + ps)[1..] == ps;
    assert EncodeProp(p) == EncodeText(p.0) + ([TAG_U32] + Be32(|p.1|) + EncodeArbitrary(p.1));
    hide EncodeProp;
  }

  lemma {:induction false} VolumeLayout(n: nat, volume: nat, i: nat)
    requires volume < U32_LIMIT && i < n
    ensures |Volumes(n, volume)| == 4 * n && Number(Volumes(n, volume), 4 * i) == volume
  {
    hide Be32, Number;
    NumberAt([], volume, Volumes(n - 1, volume));
    assert [] + Be32(volume) + Volumes(n - 1, volume) == Volumes(n, volume);
    if i != 0 {
      VolumeLayout(n - 1, volume, i - 1);
      NumberLater(Be32(volume), Volumes(n - 1, volume), 4 * (i - 1));
    } else if n != 1 {
      VolumeLayout(n - 1, volume, 0);
    }
  }

  lemma NumberLater(a: Bytes, b: Bytes, at: nat)
    requires at + 4 <= |b|
    ensures Number(a + b, |a| + at) == Number(b, at)
  {
  }

  // ---------------------------------------------------------------------
  // Readers: a value, if one is there, and where the reader stands after it.
  // A position may lie past the end of the data.

  datatype Read<+T> = Read(value: Option<T>, pos: nat)

  predicate At(data: Bytes, pos: nat, tag: Byte) {
    pos < |data| && data[pos] == tag
  }

  function ReadU32(data: Bytes, pos: nat): Read<nat> {
    if !At(data, pos, TAG_U32) then Read(None, pos)
    else if |data| < pos + 5 then Read(None, pos + 1)
    else Read(Some(Get32(data, pos + 1)), pos + 5)
  }

  // The first NUL at or after start, or the end.
  function NulAt(data: Bytes, start: nat): (e: nat)
    requires start <= |data|
    ensures start <= e <= |data|
    decreases |data| - start
  {
    if start == |data| || data[start] == 0 then start else NulAt(data, start + 1)
  }

  function ReadString(data: Bytes, pos: nat): Read<Bytes> {
    if At(data, pos, TAG_STRING) then
      var e := NulAt(data, pos + 1);
      Read(Some(TextOf(data[pos + 1..e])), e + 1)
    else if At(data, pos, TAG_STRING_NULL) then Read(Some([]), pos + 1)
    else Read(None, pos)
  }

  function ReadArbitrary(data: Bytes, pos: nat): Read<Bytes> {
    if !At(data, pos, TAG_ARBITRARY) then Read(None, pos)
    else if |data| < pos + 5 then Read(None, pos + 1)
    else
      var len := Get32(data, pos + 1);
      if |data| < pos + 5 + len then Read(None, pos + 5)
      else Read(Some(data[pos + 5..pos + 5 + len]), pos + 5 + len)
  }

  function ReadBool(data: Bytes, pos: nat): Read<bool> {
    if At(data, pos, TAG_TRUE) then Read(Some(true), pos + 1)
    else if At(data, pos, TAG_FALSE) then Read(Some(false), pos + 1)
    else Read(None, pos)
  }

  function ReadSampleSpec(data: Bytes, pos: nat): Read<(Byte, Byte, nat)> {
    if !At(data, pos, TAG_SAMPLE_SPEC) then Read(None, pos)
    else if |data| < pos + 7 then Read(None, pos + 1)
    else Read(Some((data[pos + 1], data[pos + 2], Get32(data, pos + 3))), pos + 7)
  }

  function ReadChannelMap(data: Bytes, pos: nat): Read<Bytes> {
    if !At(data, pos, TAG_CHANNEL_MAP) then Read(None, pos)
    else if |data| < pos + 2 then Read(None, pos + 1)
    else
      var n := data[pos + 1];
      if |data| < pos + 2 + n then Read(None, pos + 2) else Read(Some(data[pos + 2..pos + 2 + n]), pos + 2 + n)
  }

  function ReadVolumes(data: Bytes, pos: nat, n: nat): Read<seq<nat>>
    decreases n
  {
    if n == 0 then Read(Some([]), pos)
    else if |data| < pos + 4 then Read(None, pos)
    else
      var rest := ReadVolumes(data, pos + 4, n - 1);
      match rest.value
      case None => Read(None, rest.pos)
      case Some(vs) => Read(Some([Get32(data, pos)] + vs), rest.pos)
  }

  function ReadCVolume(data: Bytes, pos: nat): Read<seq<nat>> {
    if !At(data, pos, TAG_CVOLUME) then Read(None, pos)
    else if |data| < pos + 2 then Read(None, pos + 1)
    else ReadVolumes(data, pos + 2, data[pos + 1])
  }

  // The entries of a property list up to its terminator. Anything that is
  // neither an entry nor the terminator ends the list as well.
  function ReadProps(data: Bytes, pos: nat): (r: Read<seq<(Bytes, Bytes)>>)
    ensures pos <= r.pos
    decreases if pos < |data| then |data| - pos else 0
  {
    if At(data, pos, TAG_STRING_NULL) then Read(Some([]), pos + 1)
    else if At(data, pos, TAG_STRING) then
      var key := ReadString(data, pos);
      var len := ReadU32(data, key.pos);
      if len.value.None? then Read(None, len.pos)
      else
        var val := ReadArbitrary(data, len.pos);
        if val.value.None? then Read(None, val.pos)
        else
          var rest := ReadProps(data, val.pos);
          match rest.value
          case None => Read(None, rest.pos)
          case Some(ps) => Read(Some([(key.value.value, val.value.value)] + ps), rest.pos)
    else Read(Some([]), pos)
  }

  function ReadProplist(data: Bytes, pos: nat): Read<seq<(Bytes, Bytes)>> {
    if !At(data, pos, TAG_PROPLIST) then Read(None, pos) else ReadProps(data, pos + 1)
  }

  // Whether skip_value knew the tag, and where it stands after it.
  function Skip(data: Bytes, pos: nat): (bool, nat) {
    if |data| <= pos then (false, pos)
    else
      var tag := data[pos];
      if tag == TAG_U32 || tag == TAG_VOLUME then (true, pos + 5)
      else if tag == TAG_U8 then (true, pos + 2)
      else if tag == TAG_STRING then (true, NulAt(data, pos + 1) + 1)
      else if tag == TAG_STRING_NULL || tag == TAG_TRUE || tag == TAG_FALSE then (true, pos + 1)
      else if tag == TAG_SAMPLE_SPEC then (true, pos + 7)
      else if tag == TAG_CHANNEL_MAP then
        if |data| <= pos + 1 then (false, pos + 1) else (true, pos + 2 + data[pos + 1])
      else if tag == TAG_CVOLUME then
        if |data| <= pos + 1 then (false, pos + 1) else (true, pos + 2 + 4 * (data[pos + 1] as nat))
      else if tag == TAG_PROPLIST then (true, ReadProplist(data, pos).pos)
      else if tag == TAG_ARBITRARY then
        if |data| < pos + 5 then (false, pos + 1) else (true, pos + 5 + Get32(data, pos + 1))
      else if tag == TAG_USEC || tag == TAG_S64 then (true, pos + 9)
      else (false, pos)
  }

  // ---------------------------------------------------------------------
  // The reader object

  class TagReader {
    const data: Bytes
    var pos: nat

    constructor (data: Bytes)
      ensures this.data == data && pos == 0
    {
      this.data := data;
      pos := 0;
    }

    method NextU32() returns (r: Option<nat>)
      modifies this
      ensures Read(r, pos) == ReadU32(data, old(pos))
    {
      if !At(data, pos, TAG_U32) { return None; }
      pos := pos + 1;
      if pos + 4 > |data| { return None; }
      r := Some(Get32(data, pos));
      pos := pos + 4;
    }

    // Advances to the next NUL or the end.
    method ToNul()
      requires pos <= |data|
      modifies this
      ensures pos == NulAt(data, old(pos))
    {
      while pos < |data| && data[pos] != 0
        invariant pos <= |data| && NulAt(data, pos) == NulAt(data, old(pos))
      {
        pos := pos + 1;
      }
    }

    method NextString() returns (r: Option<Bytes>)
      modifies this
      ensures Read(r, pos) == ReadString(data, old(pos))
    {
      if At(data, pos, TAG_STRING) {
        pos := pos + 1;
        var start := pos;
        ToNul();
        r := Some(TextOf(data[start..pos]));
        pos := pos + 1;
      } else if At(data, pos, TAG_STRING_NULL) {
        pos := pos + 1;
        r := Some([]);
      } else {
        r := None;
      }
    }

    method NextArbitrary() returns (r: Option<Bytes>)
      modifies this
      ensures Read(r, pos) == ReadArbitrary(data, old(pos))
    {
      if !At(data, pos, TAG_ARBITRARY) { return None; }
      pos := pos + 1;
      if pos + 4 > |data| { return None; }
      var len := Get32(data, pos);
      pos := pos + 4;
      if pos + len > |data| { return None; }
      r := Some(data[pos..pos + len]);
      pos := pos + len;
    }

    method NextBool() returns (r: Option<bool>)
      modifies this
      ensures Read(r, pos) == ReadBool(data, old(pos))
    {
      if At(data, pos, TAG_TRUE) {
        pos, r := pos + 1, Some(true);
      } else if At(data, pos, TAG_FALSE) {
        pos, r := pos + 1, Some(false);
      } else {
        r := None;
      }
    }

    method NextSampleSpec() returns (r: Option<(Byte, Byte, nat)>)
      modifies this
      ensures Read(r, pos) == ReadSampleSpec(data, old(pos))
    {
      if !At(data, pos, TAG_SAMPLE_SPEC) { return None; }
      pos := pos + 1;
      if pos + 6 > |data| { return None; }
      var format, channels := data[pos], data[pos + 1];
      pos := pos + 2;
      r := Some((format, channels, Get32(data, pos)));
      pos := pos + 4;
    }

    method NextChannelMap() returns (r: Option<Bytes>)
      modifies this
      ensures Read(r, pos) == ReadChannelMap(data, old(pos))
    {
      if !At(data, pos, TAG_CHANNEL_MAP) { return None; }
      pos := pos + 1;
      if pos >= |data| { return None; }
      var channels := data[pos];
      pos := pos + 1;
      if pos + channels > |data| { return None; }
      r := Some(data[pos..pos + channels]);
      pos := pos + channels;
    }

    method NextCVolume() returns (r: Option<seq<nat>>)
      modifies this
      ensures Read(r, pos) == ReadCVolume(data, old(pos))
    {
      if !At(data, pos, TAG_CVOLUME) { return None; }
      pos := pos + 1;
      if pos >= |data| { return None; }
      var channels := data[pos];
      pos := pos + 1;
      var volumes := [];
      ghost var all := ReadVolumes(data, pos, channels);
      assert all.value.Some? ==> [] + all.value.value == all.value.value;
      for i := 0 to channels
        invariant var rest := ReadVolumes(data, pos, channels - i);
          all.pos == rest.pos && all.value == if rest.value.None? then None else Some(volumes + rest.value.value)
      {
        if pos + 4 > |data| { return None; }
        ConcatRest(volumes, Get32(data, pos), ReadVolumes(data, pos + 4, channels - i - 1).value);
        volumes := volumes + [Get32(data, pos)];
        pos := pos + 4;
      }
      assert volumes + [] == volumes;
      r := Some(volumes);
    }

    method NextProplist() returns (r: Option<seq<(Bytes, Bytes)>>)
      modifies this
      ensures Read(r, pos) == ReadProplist(data, old(pos))
    {
      if !At(data, pos, TAG_PROPLIST) { return None; }
      pos := pos + 1;
      var props := [];
      ghost var all := ReadProps(data, pos);
      assert all.value.Some? ==> [] + all.value.value == all.value.value;
      while true
        invariant var rest := ReadProps(data, pos);
          all.pos == rest.pos && all.value == if rest.value.None? then None else Some(props + rest.value.value)
        decreases if pos < |data| then |data| - pos else 0
      {
        if At(data, pos, TAG_STRING_NULL) {
          pos := pos + 1;
          break;
        }
        if !At(data, pos, TAG_STRING) {
          break;
        }
        var key := NextString();
        var len := NextU32();
        if len.None? { return None; }
        var val := NextArbitrary();
        if val.None? { return None; }
        ConcatRest(props, (key.value, val.value), ReadProps(data, pos).value);
        props := props + [(key.value, val.value)];
      }
      assert props + [] == props;
      r := Some(props);
    }

    method SkipValue() returns (known: bool)
      modifies this
      ensures (known, pos) == Skip(data, old(pos))
    {
      if pos >= |data| { return false; }
      var tag := data[pos];
      known := true;
      if tag == TAG_U32 || tag == TAG_VOLUME {
        pos := pos + 5;
      } else if tag == TAG_U8 {
        pos := pos + 2;
      } else if tag == TAG_STRING {
        pos := pos + 1;
        ToNul();
        pos := pos + 1;
      } else if tag == TAG_STRING_NULL || tag == TAG_TRUE || tag == TAG_FALSE {
        pos := pos + 1;
      } else if tag == TAG_SAMPLE_SPEC {
        pos := pos + 7;
      } else if tag == TAG_CHANNEL_MAP {
        pos := pos + 1;
        if pos >= |data| { return false; }
        pos := pos + 1 + data[pos];
      } else if tag == TAG_CVOLUME {
        pos := pos + 1;
        if pos >= |data| { return false; }
        pos := pos + 1 + 4 * (data[pos] as nat);
      } else if tag == TAG_PROPLIST {
        var _ := NextProplist();
      } else if tag == TAG_ARBITRARY {
        pos := pos + 1;
        if pos + 4 > |data| { return false; }
        pos := pos + 4 + Get32(data, pos);
      } else if tag == TAG_USEC || tag == TAG_S64 {
        pos := pos + 9;
      } else {
        known := false;
      }
    }
  }

  // ---------------------------------------------------------------------
  // The writer object

  class TagWriter {
    var buf: Bytes

    constructor ()
      ensures buf == []
    {
      buf := [];
    }

    method PutU32(v: nat)
      requires v < U32_LIMIT
      modifies this
      ensures buf == old(buf) + Encode(U32Value(v))
    {
      buf := buf + [TAG_U32];
      buf := buf + Be32(v);
    }

    method PutU8(b: Byte)
      modifies this
      ensures buf == old(buf) + Encode(U8Value(b))
    {
      buf := buf + [TAG_U8];
      buf := buf + [b];
    }

    method PutString(s: Bytes)
      requires TextOk(s)
      modifies this
      ensures buf == old(buf) + Encode(Text(s))
    {
      ConcatAssoc(buf, [TAG_STRING], s);
      ConcatAssoc(buf, [TAG_STRING] + s, [0]);
      buf := buf + [TAG_STRING];
      buf := buf + s;
      buf := buf + [0];
    }

    method PutSampleSpec(format: Byte, channels: Byte, rate: nat)
      requires rate < U32_LIMIT
      modifies this
      ensures buf == old(buf) + Encode(SampleSpec(format, channels, rate))
    {
      buf := buf + [TAG_SAMPLE_SPEC];
      buf := buf + [format];
      buf := buf + [channels];
      buf := buf + Be32(rate);
    }

    method PutChannelMap(channels: Byte)
      modifies this
      ensures buf == old(buf) + Encode(ChannelMap(channels))
    {
      ghost var was := buf;
      buf := buf + [TAG_CHANNEL_MAP];
      buf := buf + [channels];
      if channels >= 1 { buf := buf + [1]; }
      if channels >= 2 { buf := buf + [2]; }
      var i := 2;
      while i < channels
        invariant 2 <= i && (2 <= channels ==> i <= channels)
        invariant buf == was + ([TAG_CHANNEL_MAP, channels] + Positions(Min(i, channels)))
      {
        buf := buf + [0];
        i := i + 1;
      }
    }

    method PutCVolume(channels: Byte, volume: nat)
      requires volume < U32_LIMIT
      modifies this
      ensures buf == old(buf) + Encode(CVolume(channels, volume))
    {
      ghost var was := buf;
      buf := buf + [TAG_CVOLUME];
      buf := buf + [channels];
      for i := 0 to channels
        invariant buf == was + ([TAG_CVOLUME, channels] + Volumes(i, volume))
      {
        OneMoreVolume(i, volume);
        buf := buf + Be32(volume);
      }
    }

    // put_usec and put_s64 share this layout: a tag and eight bytes.
    method PutUsec(hi: nat, lo: nat)
      requires hi < U32_LIMIT && lo < U32_LIMIT
      modifies this
      ensures buf == old(buf) + Encode(Usec(hi, lo))
    {
      buf := buf + [TAG_USEC];
      buf := buf + (Be32(hi) + Be32(lo));
    }

    method PutS64(hi: nat, lo: nat)
      requires hi < U32_LIMIT && lo < U32_LIMIT
      modifies this
      ensures buf == old(buf) + Encode(S64(hi, lo))
    {
      buf := buf + [TAG_S64];
      buf := buf + (Be32(hi) + Be32(lo));
    }

    // The latency reply pushes its two u64 fields directly.
    method PutU64(hi: nat, lo: nat)
      requires hi < U32_LIMIT && lo < U32_LIMIT
      modifies this
      ensures buf == old(buf) + Encode(U64(hi, lo))
    {
      buf := buf + [TAG_U64];
      buf := buf + (Be32(hi) + Be32(lo));
    }

    method PutTimeval(sec: nat, usec: nat)
      requires sec < U32_LIMIT && usec < U32_LIMIT
      modifies this
      ensures buf == old(buf) + Encode(Timeval(sec, usec))
    {
      buf := buf + [TAG_TIMEVAL];
      buf := buf + Be32(sec);
      buf := buf + Be32(usec);
    }

    method PutBool(b: bool)
      modifies this
      ensures buf == old(buf) + Encode(Boolean(b))
    {
      buf := buf + [if b then TAG_TRUE else TAG_FALSE];
    }

    method PutArbitrary(data: Bytes)
      requires |data| < U32_LIMIT
      modifies this
      ensures buf == old(buf) + Encode(Arbitrary(data))
    {
      buf := buf + [TAG_ARBITRARY];
      buf := buf + Be32(|data|);
      buf := buf + data;
    }

    method PutStringNull()
      modifies this
      ensures buf == old(buf) + Encode(NullText)
    {
      buf := buf + [TAG_STRING_NULL];
    }

    method PutProplistEmpty()
      modifies this
      ensures buf == old(buf) + Encode(Proplist([]))
    {
      buf := buf + [TAG_PROPLIST];
      buf := buf + [TAG_STRING_NULL];
    }
  }

  lemma {:induction false} OneMoreVolume(n: nat, volume: nat)
    requires volume < U32_LIMIT
    ensures Volumes(n + 1, volume) == Volumes(n, volume) + Be32(volume)
  {
    hide Be32;
    if n == 0 {
      assert Volumes(1, volume) == Be32(volume) + [] == [] + Be32(volume);
    } else {
      OneMoreVolume(n - 1, volume);
      ConcatAssoc(Be32(volume), Volumes(n - 1, volume), Be32(volume));
    }
  }

  // ---------------------------------------------------------------------
  // Reading back

  // e is found at pos.
  predicate Sits(data: Bytes, pos: nat, e: Bytes) {
    pos + |e| <= |data| && data[pos..pos + |e|] == e
  }

  lemma SitsSplit(data: Bytes, pos: nat, a: Bytes, b: Bytes)
    requires Sits(data, pos, a + b)
    ensures Sits(data, pos, a) && Sits(data, pos + |a|, b)
  {
    var whole := data[pos..pos + |a + b|];
    assert data[pos..pos + |a|] == whole[..|a|] == a;
    assert data[pos + |a|..pos + |a| + |b|] == whole[|a|..] == b;
  }

  lemma SitsByte(data: Bytes, pos: nat, e: Bytes, i: nat)
    requires Sits(data, pos, e) && i < |e|
    ensures data[pos + i] == e[i]
  {
    assert data[pos..pos + |e|][i] == data[pos + i];
  }

  lemma {:induction false} Get32Back(data: Bytes, pos: nat, v: nat)
    requires v < U32_LIMIT && Sits(data, pos, Be32(v))
    ensures |Be32(v)| == 4 && Get32(data, pos) == v
  {
    Put32Read(BigEndian, v);
    var b := Be32(v);
    SitsByte(data, pos, b, 0);
    SitsByte(data, pos, b, 1);
    SitsByte(data, pos, b, 2);
    SitsByte(data, pos, b, 3);
    hide Be32, U32;
  }

  // A tag followed by a 32-bit number.
  lemma {:induction false} TaggedBack(data: Bytes, pos: nat, tag: Byte, v: nat)
    requires v < U32_LIMIT && Sits(data, pos, [tag] + Be32(v))
    ensures At(data, pos, tag) && pos + 5 <= |data| && Get32(data, pos + 1) == v
  {
    SitsSplit(data, pos, [tag], Be32(v));
    SitsByte(data, pos, [tag], 0);
    Get32Back(data, pos + 1, v);
  }

  lemma {:induction false} NulBack(data: Bytes, start: nat, s: Bytes)
    requires 0 !in s && Sits(data, start, s + [0])
    ensures NulAt(data, start) == start + |s|
    decreases |s|
  {
    SitsByte(data, start, s + [0], 0);
    if s != [] {
      assert data[start] == s[0];
      SitsSplit(data, start, [s[0]], s[1..] + [0]) by { assert s + [0] == [s[0]] + (s[1..] + [0]); }
      NulBack(data, start + 1, s[1..]);
    }
  }

  lemma {:induction false} TextBack(data: Bytes, pos: nat, s: Bytes)
    requires TextOk(s) && Sits(data, pos, EncodeText(s))
    ensures ReadString(data, pos) == Read(Some(s), pos + |EncodeText(s)|)
    ensures At(data, pos, TAG_STRING) && NulAt(data, pos + 1) + 1 == pos + |EncodeText(s)|
  {
    assert EncodeText(s) == [TAG_STRING] + (s + [0]);
    SitsSplit(data, pos, [TAG_STRING], s + [0]);
    SitsByte(data, pos, [TAG_STRING], 0);
    NulBack(data, pos + 1, s);
    SitsSplit(data, pos + 1, s, [0]);
    hide Utf8;
  }

  // A string that is not UTF-8 reads as the empty one, and is left behind.
  lemma {:induction false} StringRead(data: Bytes, pos: nat, s: Bytes)
    requires 0 !in s && Sits(data, pos, EncodeText(s))
    ensures ReadString(data, pos) == Read(Some(if Utf8(s) then s else []), pos + |s| + 2)
  {
    assert EncodeText(s) == ['t' as nat] + (s + [0]);
    SitsSplit(data, pos, ['t' as nat], s + [0]);
    SitsByte(data, pos, ['t' as nat], 0);
    NulBack(data, pos + 1, s);
    SitsSplit(data, pos + 1, s, [0]);
    hide Utf8;
  }

  lemma {:induction false} ArbitraryBack(data: Bytes, pos: nat, bytes: Bytes)
    requires |bytes| < U32_LIMIT && Sits(data, pos, EncodeArbitrary(bytes))
    ensures ReadArbitrary(data, pos) == Read(Some(bytes), pos + |EncodeArbitrary(bytes)|)
    ensures Get32(data, pos + 1) == |bytes| && |EncodeArbitrary(bytes)| == 5 + |bytes|
  {
    SitsSplit(data, pos, [TAG_ARBITRARY] + Be32(|bytes|), bytes);
    TaggedBack(data, pos, TAG_ARBITRARY, |bytes|);
    Put32Read(BigEndian, |bytes|);
    hide Get32;
  }

  lemma {:induction false} U32Back(data: Bytes, pos: nat, v: nat)
    requires v < U32_LIMIT && Sits(data, pos, [TAG_U32] + Be32(v))
    ensures ReadU32(data, pos) == Read(Some(v), pos + 5) && |[TAG_U32] + Be32(v)| == 5
  {
    TaggedBack(data, pos, TAG_U32, v);
    Put32Read(BigEndian, v);
    hide Get32;
  }

  lemma {:induction false} PropBack(data: Bytes, pos: nat, p: (Bytes, Bytes), rest: Bytes)
    requires TextOk(p.0) && |p.1| < U32_LIMIT && Sits(data, pos, EncodeProp(p) + rest)
    ensures At(data, pos, TAG_STRING) && ReadString(data, pos).value == Some(p.0)
    ensures var key := ReadString(data, pos);
      var len := ReadU32(data, key.pos);
      var val := ReadArbitrary(data, len.pos);
      len.value.Some? && val == Read(Some(p.1), pos + |EncodeProp(p)|)
    ensures Sits(data, pos + |EncodeProp(p)|, rest)
  {
    hide Utf8, ReadString, ReadU32, ReadArbitrary, Be32, EncodeText, EncodeArbitrary, EncodeProp, NulAt, Sits, At;
    var k, l := EncodeText(p.0), [TAG_U32] + Be32(|p.1|);
    PropParts(data, pos, p, rest);
    TextBack(data, pos, p.0);
    U32Back(data, pos + |k|, |p.1|);
    ArbitraryBack(data, pos + |k| + |l|, p.1);
  }

  lemma {:induction false} PropParts(data: Bytes, pos: nat, p: (Bytes, Bytes), rest: Bytes)
    requires |p.1| < U32_LIMIT && Sits(data, pos, EncodeProp(p) + rest)
    ensures var k, l, v := EncodeText(p.0), [TAG_U32] + Be32(|p.1|), EncodeArbitrary(p.1);
      && Sits(data, pos, k) && Sits(data, pos + |k|, l) && Sits(data, pos + |k| + |l|, v)
      && |EncodeProp(p)| == |k| + |l| + |v| && Sits(data, pos + |EncodeProp(p)|, rest)
  {
    hide Be32, EncodeText, EncodeArbitrary, Sits;
    var k, l, v := EncodeText(p.0), [TAG_U32] + Be32(|p.1|), EncodeArbitrary(p.1);
    SitsSplit(data, pos, EncodeProp(p), rest);
    SitsSplit(data, pos, k, l + v);
    SitsSplit(data, pos + |k|, l, v);
  }

  lemma {:induction false} PropsBack(data: Bytes, pos: nat, ps: seq<(Bytes, Bytes)>)
    requires PropsOk(ps) && Sits(data, pos, EncodeProps(ps))
    ensures ReadProps(data, pos) == Read(Some(ps), pos + |EncodeProps(ps)|)
    decreases |ps|
  {
    hide ReadString, ReadU32, ReadArbitrary, EncodeProp, Utf8;
    if ps == [] {
      SitsByte(data, pos, [TAG_STRING_NULL], 0);
    } else {
      assert EncodeProps(ps) == EncodeProp(ps[0]) + EncodeProps(ps[1..]);
      PropBack(data, pos, ps[0], EncodeProps(ps[1..]));
      PropsBack(data, pos + |EncodeProp(ps[0])|, ps[1..]);
      hide EncodeProps, TextOk, Sits;
      assert (ps[0].0, ps[0].1) == ps[0] && [ps[0]] + ps[1..] == ps;
    }
  }

  function Repeat(n: nat, v: nat): seq<nat> {
    if n == 0 then [] else [v] + Repeat(n - 1, v)
  }

  lemma {:induction false} VolumesBack(data: Bytes, pos: nat, n: nat, volume: nat)
    requires volume < U32_LIMIT && Sits(data, pos, Volumes(n, volume))
    ensures |Volumes(n, volume)| == 4 * n
    ensures ReadVolumes(data, pos, n) == Read(Some(Repeat(n, volume)), pos + 4 * n)
    decreases n
  {
    if n != 0 {
      SitsSplit(data, pos, Be32(volume), Volumes(n - 1, volume));
      Get32Back(data, pos, volume);
      VolumesBack(data, pos + 4, n - 1, volume);
      hide Get32, Be32;
    }
  }

  // ---------------------------------------------------------------------
  // Mixed reading and skipping

  // The kinds a reader exists for, and what a reader shows of a value: a null
  // string reads as an empty one, maps and volumes as lists.
  datatype Kind = AU32 | AString | ASpec | AMap | AVolume | ABool | ABlob | AProps

  datatype Seen =
    | SawNumber(n: nat)
    | SawText(s: Bytes)
    | SawSpec(spec: (Byte, Byte, nat))
    | SawMap(positions: Bytes)
    | SawVolumes(volumes: seq<nat>)
    | SawBool(flag: bool)
    | SawBlob(data: Bytes)
    | SawProps(props: seq<(Bytes, Bytes)>)

  function KindOf(v: Value): Option<Kind> {
    match v
    case U32Value(_) => Some(AU32)
    case Text(_) => Some(AString)
    case NullText => Some(AString)
    case SampleSpec(_, _, _) => Some(ASpec)
    case ChannelMap(_) => Some(AMap)
    case CVolume(_, _) => Some(AVolume)
    case Boolean(_) => Some(ABool)
    case Arbitrary(_) => Some(ABlob)
    case Proplist(_) => Some(AProps)
    case _ => None
  }

  function Shown(v: Value): Seen
    requires KindOf(v).Some?
  {
    match v
    case U32Value(n) => SawNumber(n)
    case Text(s) => SawText(s)
    case NullText => SawText([])
    case SampleSpec(format, channels, rate) => SawSpec((format, channels, rate))
    case ChannelMap(channels) => SawMap(Positions(channels))
    case CVolume(channels, volume) => SawVolumes(Repeat(channels, volume))
    case Boolean(b) => SawBool(b)
    case Arbitrary(data) => SawBlob(data)
    case Proplist(ps) => SawProps(ps)
  }

  function Lift<T>(r: Read<T>, f: T -> Seen): Read<Seen> {
    Read(if r.value.Some? then Some(f(r.value.value)) else None, r.pos)
  }

  function ReadKind(k: Kind, data: Bytes, pos: nat): Read<Seen> {
    match k
    case AU32 => Lift(ReadU32(data, pos), n => SawNumber(n))
    case AString => Lift(ReadString(data, pos), s => SawText(s))
    case ASpec => Lift(ReadSampleSpec(data, pos), s => SawSpec(s))
    case AMap => Lift(ReadChannelMap(data, pos), s => SawMap(s))
    case AVolume => Lift(ReadCVolume(data, pos), s => SawVolumes(s))
    case ABool => Lift(ReadBool(data, pos), b => SawBool(b))
    case ABlob => Lift(ReadArbitrary(data, pos), s => SawBlob(s))
    case AProps => Lift(ReadProplist(data, pos), s => SawProps(s))
  }

  // Reading with the right reader yields the value and ends at its end.
  lemma {:induction false} ReadBack(v: Value, data: Bytes, pos: nat)
    requires Writable(v) && Sits(data, pos, Encode(v)) && KindOf(v).Some?
    ensures ReadKind(KindOf(v).value, data, pos) == Read(Some(Shown(v)), pos + |Encode(v)|)
  {
    SitsByte(data, pos, Encode(v), 0);
    hide Utf8, U32, Get32, NulAt, ReadProps, ReadVolumes, Volumes, Positions, EncodeProps, Put32;
    match v
    case U32Value(n) => U32Back(data, pos, n);
    case Text(s) => TextBack(data, pos, s);
    case SampleSpec(format, channels, rate) => SpecBack(v, data, pos);
    case ChannelMap(channels) => MapBack(v, data, pos);
    case CVolume(channels, volume) => CVolumeBack(v, data, pos);
    case Arbitrary(bytes) => ArbitraryBack(data, pos, bytes);
    case Proplist(ps) => ProplistBack(data, pos, ps);
    case _ =>
  }

  predicate Counted(v: Value) {
    v.Text? || v.ChannelMap? || v.CVolume? || v.Arbitrary? || v.Proplist?
  }

  // The skipper does not know the tags of timevals and unsigned 64-bit values.
  predicate Skippable(v: Value) {
    !v.Timeval? && !v.U64?
  }

  // Skipping ends at the value's end for every other kind of value.
  lemma {:induction false} SkipBack(v: Value, data: Bytes, pos: nat)
    requires Writable(v) && Sits(data, pos, Encode(v))
    ensures Skip(data, pos) == (true, pos + |Encode(v)|) <==> Skippable(v)
  {
    hide Skip, Encode, Sits, Writable;
    if Counted(v) { SkipCounted(v, data, pos); } else { SkipFixed(v, data, pos); }
  }

  lemma {:induction false} SkipCounted(v: Value, data: Bytes, pos: nat)
    requires Writable(v) && Sits(data, pos, Encode(v)) && Counted(v)
    ensures Skip(data, pos) == (true, pos + |Encode(v)|)
  {
    hide Skip, Encode, Sits, Writable;
    match v
    case Text(_) => SkipText(v, data, pos);
    case ChannelMap(_) => SkipMap(v, data, pos);
    case CVolume(_, _) => SkipVolume(v, data, pos);
    case Arbitrary(_) => SkipBlob(v, data, pos);
    case Proplist(_) => SkipProps(v, data, pos);
  }

  lemma {:induction false} SkipText(v: Value, data: Bytes, pos: nat)
    requires v.Text? && Writable(v) && Sits(data, pos, Encode(v))
    ensures Skip(data, pos) == (true, pos + |Encode(v)|)
  {
    hide Utf8, U32, Get32, NulAt, ReadProps, ReadProplist, ReadVolumes, Volumes, Positions, EncodeProps, Put32, Sits;
    SitsByte(data, pos, Encode(v), 0);
    TextBack(data, pos, v.s);
  }

  lemma {:induction false} SkipMap(v: Value, data: Bytes, pos: nat)
    requires v.ChannelMap? && Writable(v) && Sits(data, pos, Encode(v))
    ensures Skip(data, pos) == (true, pos + |Encode(v)|)
  {
    hide Utf8, U32, Get32, NulAt, ReadProps, ReadProplist, ReadVolumes, Volumes, Positions, EncodeProps, Put32, Sits;
    SitsByte(data, pos, Encode(v), 0);
    MapBack(v, data, pos);
  }

  lemma {:induction false} SkipVolume(v: Value, data: Bytes, pos: nat)
    requires v.CVolume? && Writable(v) && Sits(data, pos, Encode(v))
    ensures Skip(data, pos) == (true, pos + |Encode(v)|)
  {
    hide Utf8, U32, Get32, NulAt, ReadProps, ReadProplist, ReadVolumes, Volumes, Positions, EncodeProps, Put32, Sits;
    SitsByte(data, pos, Encode(v), 0);
    CVolumeBack(v, data, pos);
  }

  lemma {:induction false} SkipBlob(v: Value, data: Bytes, pos: nat)
    requires v.Arbitrary? && Writable(v) && Sits(data, pos, Encode(v))
    ensures Skip(data, pos) == (true, pos + |Encode(v)|)
  {
    assert pos + |Encode(v)| <= |data|;
    hide Utf8, U32, Get32, NulAt, ReadProps, ReadProplist, ReadVolumes, Volumes, Positions, EncodeProps, Put32, Sits;
    SitsByte(data, pos, Encode(v), 0);
    ArbitraryBack(data, pos, v.data);
  }

  lemma {:induction false} SkipProps(v: Value, data: Bytes, pos: nat)
    requires v.Proplist? && Writable(v) && Sits(data, pos, Encode(v))
    ensures Skip(data, pos) == (true, pos + |Encode(v)|)
  {
    hide PropsOk, EncodeProps, ReadProps, Skip, Sits;
    var e := [TAG_PROPLIST] + EncodeProps(v.props);
    assert Encode(v) == e;
    hide Encode, Writable;
    ProplistBack(data, pos, v.props);
    ListSkipped(data, pos, EncodeProps(v.props));
  }

  lemma ListSkipped(data: Bytes, pos: nat, rest: Bytes)
    requires Sits(data, pos, [TAG_PROPLIST] + rest)
    ensures Skip(data, pos) == (true, ReadProplist(data, pos).pos)
  {
    SitsByte(data, pos, [TAG_PROPLIST] + rest, 0);
    hide ReadProplist, NulAt, Get32;
  }

  lemma {:induction false} SkipFixed(v: Value, data: Bytes, pos: nat)
    requires Writable(v) && Sits(data, pos, Encode(v)) && !Counted(v)
    ensures Skip(data, pos) == (true, pos + |Encode(v)|) <==> Skippable(v)
  {
    SitsByte(data, pos, Encode(v), 0);
    hide Utf8, U32, Get32, NulAt, ReadProps, ReadVolumes, Volumes, Positions, EncodeProps, Put32;
    match v
    case U32Value(n) => Put32Read(BigEndian, n);
    case SampleSpec(format, channels, rate) => Put32Read(BigEndian, rate);
    case Usec(hi, lo) => Put32Read(BigEndian, hi); Put32Read(BigEndian, lo);
    case S64(hi, lo) => Put32Read(BigEndian, hi); Put32Read(BigEndian, lo);
    case _ =>
  }

  lemma {:induction false} ProplistBack(data: Bytes, pos: nat, ps: seq<(Bytes, Bytes)>)
    requires PropsOk(ps) && Sits(data, pos, [TAG_PROPLIST] + EncodeProps(ps))
    ensures ReadProplist(data, pos) == Read(Some(ps), pos + 1 + |EncodeProps(ps)|)
  {
    hide EncodeProps, ReadProps;
    SitsSplit(data, pos, [TAG_PROPLIST], EncodeProps(ps));
    SitsByte(data, pos, [TAG_PROPLIST], 0);
    PropsBack(data, pos + 1, ps);
  }

  lemma {:induction false} SpecBack(v: Value, data: Bytes, pos: nat)
    requires v.SampleSpec? && Writable(v) && Sits(data, pos, Encode(v))
    ensures ReadSampleSpec(data, pos) == Read(Some((v.format, v.channels, v.rate)), pos + 7) && |Encode(v)| == 7
  {
    var head := [TAG_SAMPLE_SPEC, v.format, v.channels];
    SitsSplit(data, pos, head, Be32(v.rate));
    SitsByte(data, pos, head, 0);
    SitsByte(data, pos, head, 1);
    SitsByte(data, pos, head, 2);
    Get32Back(data, pos + 3, v.rate);
    hide Get32, Be32;
  }

  lemma {:induction false} MapBack(v: Value, data: Bytes, pos: nat)
    requires v.ChannelMap? && Sits(data, pos, Encode(v))
    ensures ReadChannelMap(data, pos) == Read(Some(Positions(v.channels)), pos + 2 + v.channels)
    ensures |Encode(v)| == 2 + v.channels && data[pos + 1] == v.channels
  {
    var head := [TAG_CHANNEL_MAP, v.channels];
    SitsSplit(data, pos, head, Positions(v.channels));
    SitsByte(data, pos, head, 0);
    SitsByte(data, pos, head, 1);
  }

  lemma {:induction false} CVolumeBack(v: Value, data: Bytes, pos: nat)
    requires v.CVolume? && Writable(v) && Sits(data, pos, Encode(v))
    ensures ReadCVolume(data, pos) == Read(Some(Repeat(v.channels, v.volume)), pos + |Encode(v)|)
    ensures |Encode(v)| == 2 + 4 * (v.channels as nat) && data[pos + 1] == v.channels
  {
    var head := [TAG_CVOLUME, v.channels];
    SitsSplit(data, pos, head, Volumes(v.channels, v.volume));
    SitsByte(data, pos, head, 0);
    SitsByte(data, pos, head, 1);
    VolumesBack(data, pos + 2, v.channels, v.volume);
    hide ReadVolumes, Volumes;
  }

  datatype Step = ReadAs(k: Kind) | SkipOne

  // A step that the value it meets allows.
  predicate Suits(s: Step, v: Value) {
    match s
    case ReadAs(k) => KindOf(v) == Some(k)
    case SkipOne => Skippable(v)
  }

  function Expected(s: Step, v: Value): Option<Seen> {
    if s.ReadAs? && KindOf(v).Some? then Some(Shown(v)) else None
  }

  ghost function EncodeAll(vs: seq<Value>): Bytes
    requires forall i :: 0 <= i < |vs| ==> Writable(vs[i])
  {
    if vs == [] then [] else Encode(vs[0]) + EncodeAll(vs[1..])
  }

  // What a run of steps returns (None for a skip) and where it ends.
  function Steps(data: Bytes, pos: nat, steps: seq<Step>): (seq<Option<Seen>>, nat)
    decreases |steps|
  {
    if steps == [] then ([], pos)
    else
      match steps[0]
      case ReadAs(k) =>
        var r := ReadKind(k, data, pos);
        var rest := Steps(data, r.pos, steps[1..]);
        ([r.value] + rest.0, rest.1)
      case SkipOne =>
        var rest := Steps(data, Skip(data, pos).1, steps[1..]);
        ([None] + rest.0, rest.1)
  }

  // Any mix of reads and skips over written values returns the read values
  // and ends exactly at the end.
  lemma {:induction false} MixedRoundTrip(data: Bytes, pos: nat, vs: seq<Value>, steps: seq<Step>)
    requires |steps| == |vs| && forall i :: 0 <= i < |vs| ==> Writable(vs[i]) && Suits(steps[i], vs[i])
    requires Sits(data, pos, EncodeAll(vs))
    ensures var (seen, end) := Steps(data, pos, steps);
      && end == pos + |EncodeAll(vs)| && |seen| == |vs|
      && forall i :: 0 <= i < |vs| ==> seen[i] == Expected(steps[i], vs[i])
    decreases |vs|
  {
    hide ReadKind, Skip, Encode, Shown, Writable;
    if vs != [] {
      SitsSplit(data, pos, Encode(vs[0]), EncodeAll(vs[1..]));
      if steps[0].ReadAs? { ReadBack(vs[0], data, pos); } else { SkipBack(vs[0], data, pos); }
      MixedRoundTrip(data, pos + |Encode(vs[0])|, vs[1..], steps[1..]);
    }
  }

  lemma ConcatRest<T>(done: seq<T>, next: T, rest: Option<seq<T>>)
    ensures rest.Some? ==> done + ([next] + rest.value) == (done + [next]) + rest.value
  {
  }
}
