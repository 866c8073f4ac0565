// Cutting a client's byte stream into requests, and numbering what is sent
// back.
module Framing {
  import opened Basics
  import opened ByteOrder

  // What a handler is given: the opcode and the request without any extended
  // length word.
  datatype Request = Request(opcode: Byte, data: Bytes)

  datatype Step = NeedMore | Malformed | Framed(length: nat, request: Request)

  // The first request in a buffer. An extended length under two words passes
  // the length test but then breaks the slicing of the header.
  function First(o: Order, buf: Bytes): (s: Step)
    ensures s.Framed? ==> 4 <= s.length <= |buf|
  {
    if |buf| < 4 then NeedMore
    else
      var len := U16(o, buf[2], buf[3]);
      if len != 0 then
        if |buf| < 4 * len then NeedMore else Framed(4 * len, Request(buf[0], buf[..4 * len]))
      else if |buf| < 8 then NeedMore
      else
        var n := 4 * U32(o, buf[4], buf[5], buf[6], buf[7]);
        if |buf| < n then NeedMore
        else if n < 8 then Malformed
        else Framed(n, Request(buf[0], buf[..4] + buf[8..n]))
  }

  // The requests of a buffer in order, the bytes not consumed, and whether
  // the scan ended at a malformed header.
  datatype Scan = Scan(requests: seq<Request>, rest: Bytes, failed: bool)

  function ScanAll(o: Order, buf: Bytes): Scan
    decreases |buf|
  {
    match First(o, buf)
    case NeedMore => Scan([], buf, false)
    case Malformed => Scan([], buf, true)
    case Framed(n, r) =>
      var s := ScanAll(o, buf[n..]);
      Scan([r] + s.requests, s.rest, s.failed)
  }

  // ---------------------------------------------------------------------
  // Any split into chunks

  lemma {:induction false} FirstStable(o: Order, a: Bytes, b: Bytes)
    requires !First(o, a).NeedMore?
    ensures First(o, a + b) == First(o, a)
  {
    assert forall i :: 0 <= i < |a| ==> (a + b)[i] == a[i];
    if First(o, a).Framed? {
      var n := First(o, a).length;
      assert (a + b)[..n] == a[..n] && (a + b)[..4] == a[..4];
      if 8 <= n { assert (a + b)[8..n] == a[8..n]; }
    }
  }

  // Scanning two pieces one after the other.
  lemma {:induction false} ScanConcat(o: Order, a: Bytes, b: Bytes)
    ensures var p := ScanAll(o, a);
      var whole := ScanAll(o, a + b);
      if p.failed then whole.failed && whole.requests == p.requests
      else
        var q := ScanAll(o, p.rest + b);
        whole == Scan(p.requests + q.requests, q.rest, q.failed)
    decreases |a|
  {
    match First(o, a)
    case NeedMore =>
    case Malformed => FirstStable(o, a, b);
    case Framed(n, r) =>
      FirstStable(o, a, b);
      assert (a + b)[n..] == a[n..] + b;
      ScanConcat(o, a[n..], b);
      var p := ScanAll(o, a[n..]);
      if !p.failed {
        ConcatAssoc([r], p.requests, ScanAll(o, p.rest + b).requests);
      }
  }

  function Joined(chunks: seq<Bytes>): Bytes {
    if chunks == [] then [] else Joined(chunks[..|chunks| - 1]) + chunks[|chunks| - 1]
  }

  // The connection after reading chunks: each read appends to the pending
  // bytes and scans; a malformed header ends the connection.
  function Read(o: Order, chunks: seq<Bytes>): Scan {
    if chunks == [] then Scan([], [], false)
    else
      var before := Read(o, chunks[..|chunks| - 1]);
      if before.failed then before
      else
        var s := ScanAll(o, before.rest + chunks[|chunks| - 1]);
        Scan(before.requests + s.requests, s.rest, s.failed)
  }

  // However the stream is cut up, the handlers see the requests of the whole
  // stream, a malformed header is met or not, and what is pending is the
  // unparsed rest.
  lemma {:induction false} SplitInvariance(o: Order, chunks: seq<Bytes>)
    ensures var r, whole := Read(o, chunks), ScanAll(o, Joined(chunks));
      && r.requests == whole.requests && r.failed == whole.failed
      && (!r.failed ==> r.rest == whole.rest)
  {
    if chunks != [] {
      var few, last := chunks[..|chunks| - 1], chunks[|chunks| - 1];
      SplitInvariance(o, few);
      ScanConcat(o, Joined(few), last);
    }
  }

  // ---------------------------------------------------------------------
  // What clients send

  datatype Form = Short | Extended

  datatype Message = Message(opcode: Byte, detail: Byte, body: Bytes, form: Form)

  // The body is padded to words and its length fits the form.
  predicate Sendable(m: Message) {
    && |m.body| % 4 == 0
    && (m.form.Short? ==> 1 + |m.body| / 4 < 0x1_0000)
    && (m.form.Extended? ==> 2 + |m.body| / 4 < 0x1_0000_0000)
  }

  function Encode(o: Order, m: Message): (r: Bytes)
    requires Sendable(m)
    ensures 4 <= |r|
  {
    if m.form.Short? then [m.opcode, m.detail] + Put16(o, 1 + |m.body| / 4) + m.body
    else [m.opcode, m.detail] + [0, 0] + Put32(o, 2 + |m.body| / 4) + m.body
  }

  ghost predicate AllSendable(ms: seq<Message>) {
    forall i :: 0 <= i < |ms| ==> Sendable(ms[i])
  }

  function EncodeAll(o: Order, ms: seq<Message>): Bytes
    requires AllSendable(ms)
  {
    if ms == [] then [] else Encode(o, ms[0]) + EncodeAll(o, ms[1..])
  }

  // The handler's view of a request: opcode, data byte and body.
  function View(r: Request): (Byte, Byte, Bytes)
    requires 4 <= |r.data|
  {
    (r.opcode, r.data[1], r.data[4..])
  }

  ghost predicate Delivers(rs: seq<Request>, ms: seq<Message>) {
    && |rs| == |ms|
    && forall i :: 0 <= i < |rs| ==>
         4 <= |rs[i].data| && View(rs[i]) == (ms[i].opcode, ms[i].detail, ms[i].body)
  }

  // One encoded message comes out as itself, in either form.
  lemma {:induction false} FirstOfEncoded(o: Order, m: Message, tail: Bytes)
    requires Sendable(m)
    ensures var s := First(o, Encode(o, m) + tail);
      && s.Framed? && s.length == |Encode(o, m)| && 4 <= |s.request.data|
      && View(s.request) == (m.opcode, m.detail, m.body)
  {
    if m.form.Short? { FirstOfShort(o, m, tail); } else { FirstOfExtended(o, m, tail); }
  }

  lemma {:induction false} FirstOfShort(o: Order, m: Message, tail: Bytes)
    requires Sendable(m) && m.form.Short?
    ensures var s := First(o, Encode(o, m) + tail);
      && s.Framed? && s.length == |Encode(o, m)| && 4 <= |s.request.data|
      && View(s.request) == (m.opcode, m.detail, m.body)
  {
    var e := Encode(o, m);
    var buf, n := e + tail, Put16(o, 1 + |m.body| / 4);
    Put16Read(o, 1 + |m.body| / 4);
    assert |n| == 2;
    hide Put16, U16;
    assert buf[0] == m.opcode && buf[1] == m.detail && buf[2] == n[0] && buf[3] == n[1];
    assert buf[..|e|] == e && e[4..] == m.body;
  }

  lemma {:induction false} FirstOfExtended(o: Order, m: Message, tail: Bytes)
    requires Sendable(m) && m.form.Extended?
    ensures var s := First(o, Encode(o, m) + tail);
      && s.Framed? && s.length == |Encode(o, m)| && 4 <= |s.request.data|
      && View(s.request) == (m.opcode, m.detail, m.body)
  {
    var e := Encode(o, m);
    var buf, n := e + tail, Put32(o, 2 + |m.body| / 4);
    Put32Read(o, 2 + |m.body| / 4);
    hide Put32, U32;
    assert buf[0] == m.opcode && buf[1] == m.detail && buf[2] == 0 && buf[3] == 0;
    assert buf[4] == n[0] && buf[5] == n[1] && buf[6] == n[2] && buf[7] == n[3];
    assert buf[8..|e|] == m.body;
    assert (buf[..4] + m.body)[4..] == m.body;
  }

  // A stream of messages in any mix of forms is scanned into exactly those
  // messages; an incomplete or malformed one after them stays pending.
  lemma {:induction false} StreamRoundTrip(o: Order, ms: seq<Message>, tail: Bytes)
    requires AllSendable(ms) && !First(o, tail).Framed?
    ensures var s := ScanAll(o, EncodeAll(o, ms) + tail);
      Delivers(s.requests, ms) && s.rest == tail && s.failed == First(o, tail).Malformed?
  {
    hide First, Encode, View;
    if ms == [] {
      assert EncodeAll(o, ms) + tail == tail;
    } else {
      var e, more := Encode(o, ms[0]), EncodeAll(o, ms[1..]);
      FirstOfEncoded(o, ms[0], more + tail);
      assert EncodeAll(o, ms) + tail == e + (more + tail);
      assert (e + (more + tail))[|e|..] == more + tail;
      StreamRoundTrip(o, ms[1..], tail);
    }
  }

  // Every framed request is the encoding of a message.
  lemma {:induction false} FramedIsEncoded(o: Order, buf: Bytes) returns (m: Message)
    requires First(o, buf).Framed?
    ensures Sendable(m) && Encode(o, m) == buf[..First(o, buf).length]
  {
    var n := First(o, buf).length;
    Put16Written(o, buf[2], buf[3]);
    hide Put16, Put32;
    if U16(o, buf[2], buf[3]) != 0 {
      m := Message(buf[0], buf[1], buf[4..n], Short);
      assert 1 + |m.body| / 4 == U16(o, buf[2], buf[3]);
      assert [buf[0], buf[1]] + [buf[2], buf[3]] + buf[4..n] == buf[..n];
    } else {
      Put32Written(o, buf[4], buf[5], buf[6], buf[7]);
      m := Message(buf[0], buf[1], buf[8..n], Extended);
      assert 2 + |m.body| / 4 == U32(o, buf[4], buf[5], buf[6], buf[7]);
      assert buf[2] == 0 && buf[3] == 0;
      assert [buf[0], buf[1]] + [0, 0] + [buf[4], buf[5], buf[6], buf[7]] + buf[8..n] == buf[..n];
    }
  }

  // The scan fails on a stream exactly when some whole messages are followed
  // by a complete header whose extended length is below two words; otherwise
  // the stream is whole messages and an incomplete one.
  lemma {:induction false} StreamShape(o: Order, buf: Bytes) returns (ms: seq<Message>, tail: Bytes)
    ensures AllSendable(ms) && buf == EncodeAll(o, ms) + tail
    ensures if ScanAll(o, buf).failed then First(o, tail).Malformed? else First(o, tail).NeedMore?
    decreases |buf|
  {
    hide First, Encode, Sendable;
    if First(o, buf).Framed? {
      var n := First(o, buf).length;
      var m := FramedIsEncoded(o, buf);
      var more;
      more, tail := StreamShape(o, buf[n..]);
      ms := [m] + more;
      assert ms[0] == m && ms[1..] == more;
      ConcatAssoc(Encode(o, m), EncodeAll(o, more), tail);
      assert buf == buf[..n] + buf[n..];
    } else {
      ms, tail := [], buf;
      assert EncodeAll(o, []) + buf == buf;
    }
  }

  // ---------------------------------------------------------------------
  // What is written back

  // Replies, errors and events, 32 bytes and up, the sequence number in
  // bytes 2 and 3.
  type Message32 = b: Bytes | 32 <= |b| witness seq(32, _ => 0)

  datatype Kind = IsReply | IsError | IsEvent

  // How a packet's number is put in: in the client's byte order, or low byte
  // first whatever that is.
  datatype Mode = ClientOrder | LowFirst

  // What a handler writes to the client while it runs.
  datatype Outgoing = Outgoing(kind: Kind, mode: Mode, data: Message32)

  // A packet on the wire, whether it came from the queue, and how many
  // requests had been framed when it was written.
  datatype Packet = Packet(what: Outgoing, queued: bool, framed: nat)

  // The number a client reads from a packet.
  function Stamp(o: Order, p: Packet): nat {
    U16(o, p.what.data[2], p.what.data[3])
  }

  // set_event_sequence
  function Stamped(o: Order, data: Message32, seq16: nat): (r: Message32)
    requires seq16 < 0x1_0000
    ensures |r| == |data| && U16(o, r[2], r[3]) == seq16
    ensures forall i :: 0 <= i < |r| && i != 2 && i != 3 ==> r[i] == data[i]
  {
    Put16Read(o, seq16);
    data[2 := Put16(o, seq16)[0]][3 := Put16(o, seq16)[1]]
  }

  function Numbered(o: Order, w: Outgoing, seq16: nat): Outgoing
    requires seq16 < 0x1_0000
  {
    w.(data := Stamped(if w.mode.LowFirst? then LittleEndian else o, w.data, seq16))
  }

  // What the request loop sends in the name of a request that failed.
  function ErrorOf(code: Byte, opcode: Byte): Outgoing {
    var zero: Bytes := seq(32, _ => 0);
    Outgoing(IsError, LowFirst, zero[1 := code][8 := opcode][10 := opcode])
  }

  lemma ErrorLayout(code: Byte, opcode: Byte)
    ensures var e := ErrorOf(code, opcode).data;
      && |e| == 32 && e[0] == 0 && e[1] == code && e[8] == opcode && e[10] == opcode
      && forall i :: 0 <= i < 32 && i !in {1, 8, 10} ==> e[i] == 0
  {
  }

  // The NoExposure event of CopyArea, numbered low byte first like the errors.
  function NoExposure(o: Order, drawable: nat): Outgoing
    requires drawable < 0x1_0000_0000
  {
    var zero: Bytes := seq(32, _ => 0);
    var d := Put32(o, drawable);
    assert |d| == 4 by { Put32Read(o, drawable); }
    Outgoing(IsEvent, LowFirst, zero[0 := 14][4 := d[0]][5 := d[1]][6 := d[2]][7 := d[3]][10 := 62])
  }

  // Event 14, the drawable in bytes 4 to 7, and major opcode 62.
  lemma {:induction false} NoExposureLayout(o: Order, drawable: nat)
    requires drawable < 0x1_0000_0000
    ensures var e := NoExposure(o, drawable).data;
      && |e| == 32 && e[0] == 14 && U32(o, e[4], e[5], e[6], e[7]) == drawable && e[10] == 62
      && forall i :: 0 <= i < 32 && i !in {0, 4, 5, 6, 7, 10} ==> e[i] == 0
  {
    Put32Read(o, drawable);
    hide Put32, U32;
  }

  function FromQueue(event: Message32): Outgoing {
    Outgoing(IsEvent, ClientOrder, event)
  }

  // What happens while one request is handled: the replies, errors and events
  // its handler writes at once, whether the loop adds an error in its name,
  // and the events queued meanwhile, by the handler or by anyone else, with
  // whatever number they were built with.
  datatype Response = Response(atOnce: seq<Outgoing>, error: Option<Byte>, events: seq<Message32>)

  // A connection's progress. `posted` is every event queued so far.
  datatype Link = Link(pending: Bytes, handled: seq<Request>, failed: bool,
                       queue: seq<Message32>, written: seq<Packet>, posted: seq<Message32>)

  const Fresh := Link([], [], false, [], [], [])

  function Packets(o: Order, ws: seq<Outgoing>, n: nat): seq<Packet> {
    seq(|ws|, i requires 0 <= i < |ws| => Packet(Numbered(o, ws[i], n % 0x1_0000), false, n))
  }

  function QueuePackets(o: Order, es: seq<Message32>, n: nat): seq<Packet> {
    seq(|es|, i requires 0 <= i < |es| => Packet(Numbered(o, FromQueue(es[i]), n % 0x1_0000), true, n))
  }

  function Errors(code: Option<Byte>, opcode: Byte): seq<Outgoing> {
    if code.None? then [] else [ErrorOf(code.value, opcode)]
  }

  // One request handled, as the next in number.
  function Handled(o: Order, s: Link, r: Request, a: Response): Link {
    var n := |s.handled| + 1;
    s.(handled := s.handled + [r],
       queue := s.queue + a.events, posted := s.posted + a.events,
       written := s.written + Packets(o, a.atOnce, n) + Packets(o, Errors(a.error, r.opcode), n))
  }

  // How the n-th request is answered; any function stands for any interleaving.
  type React = (nat, Request) -> Response

  function HandledAll(o: Order, s: Link, rs: seq<Request>, react: React): Link
    decreases |rs|
  {
    if rs == [] then s
    else HandledAll(o, Handled(o, s, rs[0], react(|s.handled| + 1, rs[0])), rs[1..], react)
  }

  // The first k queued events go out under the number of the last request.
  function Delivered(o: Order, s: Link, k: nat): Link {
    var k := Min(k, |s.queue|);
    s.(queue := s.queue[k..], written := s.written + QueuePackets(o, s.queue[..k], |s.handled|))
  }

  datatype Input =
    | Chunk(bytes: Bytes, react: React)
    | Queue(event: Message32)
    | Deliver(k: nat)

  // A read handles every complete request and then empties the queue. A failed
  // connection does nothing more.
  function After(o: Order, s: Link, i: Input): Link {
    if s.failed then s
    else
      match i
      case Chunk(bytes, react) =>
        var scan := ScanAll(o, s.pending + bytes);
        var t := HandledAll(o, s, scan.requests, react).(pending := scan.rest, failed := scan.failed);
        if scan.failed then t else Delivered(o, t, |t.queue|)
      case Queue(e) => s.(queue := s.queue + [e], posted := s.posted + [e])
      case Deliver(k) => Delivered(o, s, k)
  }

  function Run(o: Order, run: seq<Input>): Link {
    if run == [] then Fresh else After(o, Run(o, run[..|run| - 1]), run[|run| - 1])
  }

  // ---------------------------------------------------------------------
  // What holds over every run

  // Packets go out in the order of their numbers, none ahead of the count.
  ghost predicate InOrder(ps: seq<Packet>, last: nat) {
    && (forall i :: 0 <= i < |ps| ==> ps[i].framed <= last)
    && (forall i, j :: 0 <= i < j < |ps| ==> ps[i].framed <= ps[j].framed)
  }

  // A packet reads as its number exactly when the client is little-endian, or
  // it was numbered in the client's order, or the two bytes are equal.
  ghost predicate ReadsAs(o: Order, p: Packet) {
    var n := p.framed % 0x1_0000;
    Stamp(o, p) == n <==> o.LittleEndian? || p.what.mode.ClientOrder? || n / 0x100 == n % 0x100
  }

  ghost predicate AllRead(o: Order, ps: seq<Packet>) {
    forall i :: 0 <= i < |ps| ==> ReadsAs(o, ps[i])
  }

  // An event but for its number.
  function Bare(data: Message32): Bytes {
    data[..2] + data[4..]
  }

  function BareAll(ms: seq<Message32>): seq<Bytes> {
    if ms == [] then [] else BareAll(ms[..|ms| - 1]) + [Bare(ms[|ms| - 1])]
  }

  // The events that came from the queue.
  function Events(ps: seq<Packet>): seq<Bytes> {
    if ps == [] then []
    else
      var p := ps[|ps| - 1];
      Events(ps[..|ps| - 1]) + if p.queued then [Bare(p.what.data)] else []
  }

  ghost predicate Good(o: Order, s: Link) {
    && InOrder(s.written, |s.handled|)
    && AllRead(o, s.written)
    && Events(s.written) + BareAll(s.queue) == BareAll(s.posted)
  }

  // Over every run of reads, queued events and deliveries: packets go out in
  // the order of their numbers; each reads as the number of requests framed
  // when it was written, modulo 2^16, exactly in the cases above, however stale
  // the number it was queued with; and no queued event is lost, repeated,
  // overtaken by another queued event or otherwise altered.
  lemma {:induction false} WireStamps(o: Order, run: seq<Input>)
    ensures Good(o, Run(o, run))
  {
    if run != [] {
      WireStamps(o, run[..|run| - 1]);
      AfterGood(o, Run(o, run[..|run| - 1]), run[|run| - 1]);
      hide Good;
    }
  }

  lemma {:induction false} AfterGood(o: Order, s: Link, i: Input)
    requires Good(o, s)
    ensures Good(o, After(o, s, i))
  {
    hide Events, BareAll, InOrder, AllRead, Good;
    match i
    case Chunk(bytes, react) =>
      var scan := ScanAll(o, s.pending + bytes);
      HandledAllGood(o, s, scan.requests, react);
      var t := HandledAll(o, s, scan.requests, react).(pending := scan.rest, failed := scan.failed);
      SameGood(o, HandledAll(o, s, scan.requests, react), t);
      DeliveredGood(o, t, |t.queue|);
    case Queue(e) => QueuedGood(o, s, [e]);
    case Deliver(k) => DeliveredGood(o, s, k);
  }

  lemma SameGood(o: Order, s: Link, t: Link)
    requires Good(o, s)
    requires t.written == s.written && t.handled == s.handled && t.queue == s.queue && t.posted == s.posted
    ensures Good(o, t)
  {
  }

  lemma {:induction false} QueuedGood(o: Order, s: Link, es: seq<Message32>)
    requires Good(o, s)
    ensures Good(o, s.(queue := s.queue + es, posted := s.posted + es))
  {
    BareConcat(s.queue, es);
    BareConcat(s.posted, es);
    ConcatAssoc(Events(s.written), BareAll(s.queue), BareAll(es));
    hide Events, BareAll, InOrder, AllRead;
  }

  lemma {:induction false} DeliveredGood(o: Order, s: Link, k: nat)
    requires Good(o, s)
    ensures Good(o, Delivered(o, s, k))
  {
    var k := Min(k, |s.queue|);
    var out, rest, n := s.queue[..k], s.queue[k..], |s.handled|;
    QueuePacketsGood(o, out, n);
    WrittenGood(o, s.written, QueuePackets(o, out, n), n);
    BareConcat(out, rest);
    assert out + rest == s.queue;
    ConcatAssoc(Events(s.written), BareAll(out), BareAll(rest));
    hide Events, BareAll, InOrder, AllRead, QueuePackets;
  }

  lemma {:induction false} HandledAllGood(o: Order, s: Link, rs: seq<Request>, react: React)
    requires Good(o, s)
    ensures Good(o, HandledAll(o, s, rs, react))
    decreases |rs|
  {
    hide Good, Handled;
    if rs != [] {
      var a := react(|s.handled| + 1, rs[0]);
      HandledGood(o, s, rs[0], a);
      HandledAllGood(o, Handled(o, s, rs[0], a), rs[1..], react);
    }
  }

  lemma {:induction false} HandledGood(o: Order, s: Link, r: Request, a: Response)
    requires Good(o, s)
    ensures Good(o, Handled(o, s, r, a))
  {
    var n := |s.handled| + 1;
    var first, errors := Packets(o, a.atOnce, n), Packets(o, Errors(a.error, r.opcode), n);
    PacketsGood(o, a.atOnce, n);
    PacketsGood(o, Errors(a.error, r.opcode), n);
    Later(s.written, n - 1, n);
    WrittenGood(o, s.written, first, n);
    WrittenGood(o, s.written + first, errors, n);
    hide Events, BareAll, InOrder, AllRead, Packets, Errors;
    var t := s.(handled := s.handled + [r], written := s.written + first + errors);
    assert Events(t.written) == Events(s.written);
    assert Good(o, t);
    QueuedGood(o, t, a.events);
  }

  lemma Later(ps: seq<Packet>, last: nat, n: nat)
    requires InOrder(ps, last) && last <= n
    ensures InOrder(ps, n)
  {
  }

  // Packets appended under the current number.
  lemma {:induction false} WrittenGood(o: Order, ps: seq<Packet>, more: seq<Packet>, n: nat)
    requires InOrder(ps, n) && AllRead(o, ps)
    requires AllRead(o, more) && forall i :: 0 <= i < |more| ==> more[i].framed == n
    ensures InOrder(ps + more, n) && AllRead(o, ps + more)
    ensures Events(ps + more) == Events(ps) + Events(more)
  {
    EventsConcat(ps, more);
    hide Events, ReadsAs;
  }

  lemma {:induction false} PacketsGood(o: Order, ws: seq<Outgoing>, n: nat)
    ensures var ps := Packets(o, ws, n);
      AllRead(o, ps) && (forall i :: 0 <= i < |ps| ==> ps[i].framed == n) && Events(ps) == []
  {
    hide Numbered, ReadsAs, Bare;
    var ps := Packets(o, ws, n);
    if ws != [] {
      var few := ws[..|ws| - 1];
      PacketsGood(o, few, n);
      assert ps[..|ws| - 1] == Packets(o, few, n);
      StampExact(o, ws[|ws| - 1], false, n);
    }
  }

  lemma {:induction false} QueuePacketsGood(o: Order, es: seq<Message32>, n: nat)
    ensures var ps := QueuePackets(o, es, n);
      AllRead(o, ps) && (forall i :: 0 <= i < |ps| ==> ps[i].framed == n) && Events(ps) == BareAll(es)
  {
    var ps := QueuePackets(o, es, n);
    if es != [] {
      var few, last := es[..|es| - 1], es[|es| - 1];
      QueuePacketsGood(o, few, n);
      assert ps[..|es| - 1] == QueuePackets(o, few, n);
      StampExact(o, FromQueue(last), true, n);
      BareStamped(o, last, n % 0x1_0000);
      hide Events, Bare, Stamped, ReadsAs;
    }
  }

  lemma {:induction false} StampExact(o: Order, w: Outgoing, queued: bool, n: nat)
    ensures ReadsAs(o, Packet(Numbered(o, w, n % 0x1_0000), queued, n))
  {
    var p := Packet(Numbered(o, w, n % 0x1_0000), queued, n);
    var b2, b3 := p.what.data[2], p.what.data[3];
    hide Numbered;
    assert w.mode.LowFirst? ==> U16(LittleEndian, b2, b3) == n % 0x1_0000;
  }

  // CopyArea as a handler: it writes a NoExposure when the graphics context
  // asks for one, as it does unless told otherwise.
  function CopyAreaReply(o: Order, drawable: nat, graphicsExposures: bool): Response
    requires drawable < 0x1_0000_0000
  {
    Response(if graphicsExposures then [NoExposure(o, drawable)] else [], None, [])
  }

  // The first request of a big-endian client, a CopyArea, answered by an event
  // that reads as 256 times the count; and it overtakes an event queued before.
  lemma {:induction false} NoExposureMisread(drawable: nat, e: Message32, request: Bytes)
    requires drawable < 0x1_0000_0000
    requires |request| == 28 && request[0] == 62 && request[2] == 0 && request[3] == 7
    ensures var copy := Chunk(request, (n, r) => CopyAreaReply(BigEndian, drawable, true));
      var ps := Run(BigEndian, [Queue(e), copy]).written;
      && |ps| == 2 && !ps[0].queued && ps[1].queued && Bare(ps[1].what.data) == Bare(e)
      && ps[0].framed == 1 && Stamp(BigEndian, ps[0]) == 0x100
      && ps[1].framed == 1 && Stamp(BigEndian, ps[1]) == 1
  {
    var copy := Chunk(request, (n, r) => CopyAreaReply(BigEndian, drawable, true));
    var s := Fresh.(queue := [e], posted := [e]);
    hide NoExposure, Run, Bare, Stamped, After, Packets, QueuePackets;
    RunTwo(BigEndian, Queue(e), copy);
    assert After(BigEndian, Fresh, Queue(e)) == s by { QueuedFirst(BigEndian, e); }
    CopyAnswered(s, drawable, e, request, copy);
    BareStamped(BigEndian, e, 1);
    OnePacket(BigEndian, NoExposure(BigEndian, drawable), 1);
    OneFromQueue(BigEndian, e, 1);
  }

  lemma QueuedFirst(o: Order, e: Message32)
    ensures After(o, Fresh, Queue(e)) == Fresh.(queue := [e], posted := [e])
  {
    assert [] + [e] == [e];
  }

  lemma CopyAnswered(s: Link, drawable: nat, e: Message32, request: Bytes, copy: Input)
    requires drawable < 0x1_0000_0000 && s == Fresh.(queue := [e], posted := [e])
    requires |request| == 28 && request[0] == 62 && request[2] == 0 && request[3] == 7
    requires copy == Chunk(request, (n, r) => CopyAreaReply(BigEndian, drawable, true))
    ensures After(BigEndian, s, copy).written ==
            Packets(BigEndian, [NoExposure(BigEndian, drawable)], 1) + QueuePackets(BigEndian, [e], 1)
  {
    hide NoExposure, First, ScanAll, HandledAll, Handled, Delivered, CopyAreaReply, Packets, QueuePackets;
    var r := Request(62, request);
    assert s.pending + request == request;
    CopyFramed(request);
    HandledOne(BigEndian, s, r, copy.react);
    CopyHandled(s, drawable, e, r);
    var t := Handled(BigEndian, s, r, CopyAreaReply(BigEndian, drawable, true)).(pending := [], failed := false);
    AllDelivered(BigEndian, t);
  }

  lemma CopyHandled(s: Link, drawable: nat, e: Message32, r: Request)
    requires drawable < 0x1_0000_0000 && s == Fresh.(queue := [e], posted := [e])
    ensures var t := Handled(BigEndian, s, r, CopyAreaReply(BigEndian, drawable, true));
      t.written == Packets(BigEndian, [NoExposure(BigEndian, drawable)], 1) && t.queue == [e] && |t.handled| == 1
  {
    hide NoExposure, Packets;
    NoPackets(BigEndian, 1);
    assert [e] + [] == [e];
  }

  lemma AllDelivered(o: Order, s: Link)
    ensures Delivered(o, s, |s.queue|).written == s.written + QueuePackets(o, s.queue, |s.handled|)
  {
    hide QueuePackets;
    assert s.queue[..|s.queue|] == s.queue;
  }

  lemma NoPackets(o: Order, n: nat)
    ensures Packets(o, [], n) == []
  {
  }

  lemma OnePacket(o: Order, w: Outgoing, n: nat)
    ensures Packets(o, [w], n) == [Packet(Numbered(o, w, n % 0x1_0000), false, n)]
  {
  }

  lemma OneFromQueue(o: Order, e: Message32, n: nat)
    ensures QueuePackets(o, [e], n) == [Packet(Numbered(o, FromQueue(e), n % 0x1_0000), true, n)]
  {
  }

  lemma RunTwo(o: Order, i: Input, j: Input)
    ensures Run(o, [i, j]) == After(o, After(o, Fresh, i), j)
  {
    hide After;
    assert [i, j][..1] == [i] && [i][..0] == [];
    assert Run(o, []) == Fresh;
    assert Run(o, [i]) == After(o, Fresh, i);
  }

  lemma CopyFramed(request: Bytes)
    requires |request| == 28 && request[0] == 62 && request[2] == 0 && request[3] == 7
    ensures ScanAll(BigEndian, request) == Scan([Request(62, request)], [], false)
  {
    assert request[28..] == [] && request[..28] == request;
    assert First(BigEndian, request) == Framed(28, Request(62, request));
    assert ScanAll(BigEndian, []) == Scan([], [], false);
  }

  lemma HandledOne(o: Order, s: Link, r: Request, react: React)
    ensures HandledAll(o, s, [r], react) == Handled(o, s, r, react(|s.handled| + 1, r))
  {
    hide Handled;
    assert [r][1..] == [];
  }

  lemma BareStamped(o: Order, data: Message32, seq16: nat)
    requires seq16 < 0x1_0000
    ensures Bare(Stamped(o, data, seq16)) == Bare(data)
  {
  }

  lemma {:induction false} BareConcat(a: seq<Message32>, b: seq<Message32>)
    ensures BareAll(a + b) == BareAll(a) + BareAll(b)
  {
    if b == [] {
      assert a + b == a;
    } else {
      assert (a + b)[..|a + b| - 1] == a + b[..|b| - 1];
      BareConcat(a, b[..|b| - 1]);
    }
  }

  lemma {:induction false} EventsConcat(a: seq<Packet>, b: seq<Packet>)
    ensures Events(a + b) == Events(a) + Events(b)
  {
    if b == [] {
      assert a + b == a;
    } else {
      assert (a + b)[..|a + b| - 1] == a + b[..|b| - 1];
      EventsConcat(a, b[..|b| - 1]);
    }
  }

  // A request's answers come out in the order its handler writes them, the
  // loop's error last, all under its place in the stream.
  lemma {:induction false} AnswersInOrder(o: Order, s: Link, r: Request, a: Response)
    ensures var n := |s.handled| + 1;
      var w := Handled(o, s, r, a).written;
      && |w| == |s.written| + |a.atOnce| + (if a.error.Some? then 1 else 0) && s.written <= w
      && (forall i :: |s.written| <= i < |s.written| + |a.atOnce| ==>
            !w[i].queued && w[i].framed == n && w[i].what.kind == a.atOnce[i - |s.written|].kind &&
            Bare(w[i].what.data) == Bare(a.atOnce[i - |s.written|].data))
      && (a.error.Some? ==>
            var e := w[|w| - 1];
            !e.queued && e.framed == n && e.what.kind.IsError? && e.what.data[1] == a.error.value)
  {
    var n := |s.handled| + 1;
    var w := Handled(o, s, r, a).written;
    forall i | |s.written| <= i < |s.written| + |a.atOnce|
      ensures Bare(w[i].what.data) == Bare(a.atOnce[i - |s.written|].data)
    {
      var out := a.atOnce[i - |s.written|];
      assert w[i].what == Numbered(o, out, n % 0x1_0000);
      BareStamped(if out.mode.LowFirst? then LittleEndian else o, out.data, n % 0x1_0000);
    }
    hide Bare, Stamped;
  }

  // A read that does not fail leaves nothing queued; a delivery takes as many
  // events as it may.
  lemma {:induction false} QueueAfter(o: Order, s: Link, i: Input)
    requires !s.failed
    ensures i.Chunk? ==> After(o, s, i).failed || After(o, s, i).queue == []
    ensures i.Deliver? ==> After(o, s, i).queue == s.queue[Min(i.k, |s.queue|)..]
    ensures i.Queue? ==> After(o, s, i).queue == s.queue + [i.event]
  {
    hide ScanAll, HandledAll, QueuePackets;
  }

  // The requests handled in a run are those of the chunks read.
  function Chunks(run: seq<Input>): seq<Bytes> {
    if run == [] then []
    else
      var few, last := Chunks(run[..|run| - 1]), run[|run| - 1];
      if last.Chunk? then few + [last.bytes] else few
  }

  lemma {:induction false} RunReads(o: Order, run: seq<Input>)
    ensures var s := Run(o, run);
      Read(o, Chunks(run)) == Scan(s.handled, s.pending, s.failed)
  {
    if run != [] {
      var few, last := run[..|run| - 1], run[|run| - 1];
      RunReads(o, few);
      var s := Run(o, few);
      if last.Chunk? {
        assert Chunks(run)[..|Chunks(few)|] == Chunks(few);
        if !s.failed {
          HandledAllHandles(o, s, ScanAll(o, s.pending + last.bytes).requests, last.react);
        }
      }
      hide ScanAll, HandledAll, Handled, QueuePackets;
    }
  }

  lemma {:induction false} HandledAllHandles(o: Order, s: Link, rs: seq<Request>, react: React)
    ensures HandledAll(o, s, rs, react).handled == s.handled + rs
    decreases |rs|
  {
    if rs != [] {
      HandledAllHandles(o, Handled(o, s, rs[0], react(|s.handled| + 1, rs[0])), rs[1..], react);
      ConcatAssoc(s.handled, [rs[0]], rs[1..]);
      assert [rs[0]] + rs[1..] == rs;
      hide Packets, Errors, HandledAll;
    }
  }

  lemma HandledPending(o: Order, s: Link, r: Request, a: Response, pending: Bytes)
    ensures Handled(o, s.(pending := pending), r, a) == Handled(o, s, r, a).(pending := pending)
  {
  }

  // One round of the request loop.
  lemma NextHandled(o: Order, s: Link, buf: Bytes, react: React)
    requires First(o, buf).Framed?
    ensures var f := First(o, buf);
      var more, all := ScanAll(o, buf[f.length..]), ScanAll(o, buf);
      && all.rest == more.rest && all.failed == more.failed
      && HandledAll(o, s, all.requests, react) ==
         HandledAll(o, Handled(o, s, f.request, react(|s.handled| + 1, f.request)), more.requests, react)
  {
    hide First, Handled;
  }

  lemma LastHandled(o: Order, s: Link, buf: Bytes, react: React)
    requires !First(o, buf).Framed?
    ensures var all := ScanAll(o, buf);
      && all.rest == buf && all.failed == First(o, buf).Malformed?
      && HandledAll(o, s, all.requests, react) == s
  {
    hide First, Handled;
  }

  // One more event of a queue written.
  lemma OneWritten(o: Order, out: seq<Packet>, all: seq<Message32>, i: nat, n: nat)
    requires i < |all|
    ensures out + QueuePackets(o, all[..i], n) + [Packet(Numbered(o, FromQueue(all[i]), n % 0x1_0000), true, n)] ==
            out + QueuePackets(o, all[..i + 1], n)
    ensures all[i..][0] == all[i] && all[i..][1..] == all[i + 1..]
  {
    hide Numbered;
    assert QueuePackets(o, all[..i + 1], n) ==
      QueuePackets(o, all[..i], n) + [Packet(Numbered(o, FromQueue(all[i]), n % 0x1_0000), true, n)];
  }

  lemma NoneWritten(o: Order, out: seq<Packet>, all: seq<Message32>, n: nat)
    ensures out + QueuePackets(o, all[..0], n) == out && all[0..] == all
  {
  }

  // One more packet of a handler written.
  lemma OneMorePacket(o: Order, out: seq<Packet>, ws: seq<Outgoing>, i: nat, n: nat)
    requires i < |ws|
    ensures out + Packets(o, ws[..i], n) + [Packet(Numbered(o, ws[i], n % 0x1_0000), false, n)] ==
            out + Packets(o, ws[..i + 1], n)
  {
    hide Numbered;
    assert Packets(o, ws[..i + 1], n) ==
      Packets(o, ws[..i], n) + [Packet(Numbered(o, ws[i], n % 0x1_0000), false, n)];
  }

  lemma NoMorePackets(o: Order, out: seq<Packet>, ws: seq<Outgoing>, n: nat)
    ensures ws[..|ws|] == ws && out + Packets(o, ws[..0], n) == out
  {
  }

  // ---------------------------------------------------------------------
  // The connection object

  class Connection {
    const order: Order
    var pending: Bytes
    // 16 bits, one past the number of the current request.
    var counter: nat
    var failed: bool
    var handled: seq<Request>
    var queue: seq<Message32>
    var written: seq<Packet>
    ghost var posted: seq<Message32>
    ghost var run: seq<Input>

    ghost function Now(): Link
      reads this
    {
      Link(pending, handled, failed, queue, written, posted)
    }

    ghost predicate Counted()
      reads this
    {
      counter == (|handled| + 1) % 0x1_0000
    }

    ghost predicate Valid()
      reads this
    {
      Counted() && Now() == Run(order, run)
    }

    constructor (order: Order)
      ensures Valid() && run == [] && this.order == order
    {
      this.order := order;
      pending, counter, failed, handled, queue, written, posted, run := [], 1, false, [], [], [], [], [];
    }

    ghost method Record(i: Input)
      modifies this`run
      ensures run == old(run) + [i] && Run(order, run) == After(order, Run(order, old(run)), i)
    {
      assert (run + [i])[..|run|] == run;
      run := run + [i];
    }

    // current_request_sequence: one below the counter, wrapping.
    function CurrentSequence(): nat
      reads this
    {
      (counter + 0xFFFF) % 0x1_0000
    }

    // One read: append the chunk, frame and handle every complete request,
    // then deliver what has been queued.
    method OnRead(chunk: Bytes, react: React)
      requires Valid() && !failed
      modifies this
      ensures Valid() && run == old(run) + [Chunk(chunk, react)]
      ensures Now() == After(order, old(Now()), Chunk(chunk, react))
    {
      hide First, Handled, HandledAll, ScanAll, Delivered, Run;
      ghost var start := Now();
      ghost var s := start;
      pending := pending + chunk;
      ghost var all := ScanAll(order, pending);
      while true
        invariant Counted() && !failed && run == old(run)
        invariant Now() == s.(pending := pending)
        invariant HandledAll(order, start, all.requests, react) ==
                  HandledAll(order, s, ScanAll(order, pending).requests, react)
        invariant all.rest == ScanAll(order, pending).rest && all.failed == ScanAll(order, pending).failed
        decreases |pending|
      {
        var step := First(order, pending);
        if !step.Framed? {
          LastHandled(order, s, pending, react);
        }
        if step.NeedMore? {
          break;
        }
        if step.Malformed? {
          failed := true;
          break;
        }
        NextHandled(order, s, pending, react);
        pending := pending[step.length..];
        ghost var answer := react(|handled| + 1, step.request);
        HandledPending(order, s, step.request, answer, pending);
        HandleRequest(step.request, react);
        s := Handled(order, s, step.request, answer);
      }
      assert Now() == HandledAll(order, start, all.requests, react).(pending := all.rest, failed := all.failed);
      if !failed {
        DeliverEvents(|queue|);
      }
      Record(Chunk(chunk, react));
    }

    // One request, under the next sequence number; whatever is written in
    // answer is stamped with it.
    method HandleRequest(request: Request, react: React)
      requires Counted()
      modifies this`counter, this`handled, this`queue, this`written, this`posted
      ensures Counted() && Now() == Handled(order, old(Now()), request, react(|old(handled)| + 1, request))
    {
      hide Packets, ErrorOf;
      counter := (counter + 1) % 0x1_0000;
      handled := handled + [request];
      var answer := react(|handled|, request);
      queue, posted := queue + answer.events, posted + answer.events;
      WriteAll(answer.atOnce);
      WriteAll(Errors(answer.error, request.opcode));
    }

    // Each packet is stamped as it is written.
    method WriteAll(ws: seq<Outgoing>)
      requires Counted()
      modifies this`written
      ensures written == old(written) + Packets(order, ws, |handled|)
    {
      hide Packets, Numbered;
      ghost var out, n := written, |handled|;
      NoMorePackets(order, out, ws, n);
      for i := 0 to |ws|
        invariant |handled| == n && CurrentSequence() == n % 0x1_0000
        invariant written == out + Packets(order, ws[..i], n)
      {
        OneMorePacket(order, out, ws, i, n);
        written := written + [Packet(Numbered(order, ws[i], CurrentSequence()), false, |handled|)];
      }
    }

    // An event from any thread, stamped with any number.
    method Enqueue(event: Message32)
      requires Valid() && !failed
      modifies this
      ensures Valid() && run == old(run) + [Queue(event)] && Now() == After(order, old(Now()), Queue(event))
    {
      queue, posted := queue + [event], posted + [event];
      Record(Queue(event));
    }

    // The loops over the queue: each event is stamped afresh as it is written.
    method DeliverEvents(limit: nat)
      requires Counted()
      modifies this`queue, this`written
      ensures Now() == Delivered(order, old(Now()), limit)
    {
      hide QueuePackets, Numbered, U16, Put16;
      ghost var all, out, n := queue, written, |handled|;
      NoneWritten(order, out, all, n);
      var i := 0;
      while i < limit && queue != []
        invariant i <= |all| && i <= limit && queue == all[i..] && |handled| == n
        invariant CurrentSequence() == n % 0x1_0000
        invariant written == out + QueuePackets(order, all[..i], n)
        decreases |queue|
      {
        OneWritten(order, out, all, i, n);
        var event := Numbered(order, FromQueue(queue[0]), CurrentSequence());
        written := written + [Packet(event, true, |handled|)];
        queue := queue[1..];
        i := i + 1;
      }
      assert i == Min(limit, |all|);
    }

    // Events on their own: the first and at most 16 more.
    method OnEvents()
      requires Valid() && !failed
      modifies this
      ensures Valid() && run == old(run) + [Deliver(17)] && Now() == After(order, old(Now()), Deliver(17))
    {
      DeliverEvents(17);
      Record(Deliver(17));
    }
  }
}
