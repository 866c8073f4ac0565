// Typing input-method text into a client: characters become key events
// through a keysym table rewritten for each batch, and the client reads them
// back through that table.
module Ime {
  import opened Basics
  import opened Keyboard

  // A text is the sequence of its code points.
  type CodePoint = nat
  type Text = seq<CodePoint>

  // What is sent to the client: a MappingNotify (answered by fetching the
  // keysym table in force) and key events.
  datatype Wire =
    | MappingNotify(keysyms: seq<nat>)
    | KeyPress(code: nat, shift: bool)
    | KeyRelease(code: nat, shift: bool)

  // ---------------------------------------------------------------------
  // The client

  // The keysyms fetched for the virtual keycodes, and the text typed so far.
  datatype Client = Client(virtual: seq<nat>, text: Text)

  // What a keysym does in a client that reads Latin-1 keysyms as characters
  // and Unicode keysyms from U+0100 on.
  datatype Effect = Insert(c: CodePoint) | Erase | Ignore

  function EffectOf(keysym: nat): Effect {
    if Printable(keysym) then Insert(keysym)
    else if keysym == 0xFF08 then Erase
    else if 0x0100_0100 <= keysym < 0x0111_0000 then Insert(keysym - 0x0100_0000)
    else Ignore
  }

  function Edit(text: Text, e: Effect): Text {
    match e
    case Insert(c) => text + [c]
    case Erase => if text == [] then [] else text[..|text| - 1]
    case Ignore => text
  }

  function Receive(c: Client, w: Wire): Client {
    match w
    case MappingNotify(ks) => c.(virtual := ks)
    case KeyPress(code, shift) => c.(text := Edit(c.text, EffectOf(KeysymOf(c.virtual, code, shift))))
    case KeyRelease(_, _) => c
  }

  function After(c: Client, ws: seq<Wire>): Client {
    if ws == [] then c else Receive(After(c, ws[..|ws| - 1]), ws[|ws| - 1])
  }

  lemma {:induction false} AfterConcat(c: Client, a: seq<Wire>, b: seq<Wire>)
    ensures After(c, a + b) == After(After(c, a), b)
  {
    if b == [] {
      assert a + b == a;
    } else {
      assert (a + b)[..|a + b| - 1] == a + b[..|b| - 1];
      AfterConcat(c, a, b[..|b| - 1]);
    }
  }

  // ---------------------------------------------------------------------
  // What typing a text amounts to

  // Fullwidth forms become ASCII, the ideographic space a space, the yen
  // sign a backslash.
  function Normal(c: CodePoint): CodePoint {
    if 0xFF01 <= c <= 0xFF5E then c - 0xFF01 + 0x21
    else if c == 0x3000 then 0x20
    else if c == 0xA5 then 0x5C
    else c
  }

  function Normalised(t: Text): (r: Text)
    ensures |r| == |t| && forall i :: 0 <= i < |t| ==> r[i] == Normal(t[i])
  {
    seq(|t|, i requires 0 <= i < |t| => Normal(t[i]))
  }

  function CharEffect(c: CodePoint): Effect {
    if c < 0x80 then EffectOf(KeysymOf([], AsciiToX11Keycode(c), NeedsShift(c)))
    else EffectOf(UNICODE_KEYSYM + c)
  }

  function Typed(text: Text, chars: Text): Text {
    if chars == [] then text else Edit(Typed(text, chars[..|chars| - 1]), CharEffect(chars[|chars| - 1]))
  }

  // The characters that arrive as themselves.
  predicate Typable(c: CodePoint) {
    Printable(c) || 0x100 <= c < 0x11_0000
  }

  predicate AllTypable(t: Text) {
    forall i :: 0 <= i < |t| ==> Typable(t[i])
  }

  lemma {:induction false} CharEffectExact(c: CodePoint)
    ensures CharEffect(c) == Insert(c) <==> Typable(c)
  {
    if Printable(c) { PrintableReadsBack(c); }
    else if c < 0x80 { Controls(c); }
  }

  lemma {:induction false} TypedGrowth(text: Text, chars: Text)
    ensures |Typed(text, chars)| <= |text| + |chars|
  {
    hide CharEffect;
    if chars != [] {
      TypedGrowth(text, chars[..|chars| - 1]);
    }
  }

  // Typing appends the text unchanged exactly when every character of it is
  // a printable ASCII character or lies beyond Latin-1.
  lemma {:induction false} TypedExact(text: Text, chars: Text)
    ensures Typed(text, chars) == text + chars <==> AllTypable(chars)
  {
    hide CharEffect, Typable, Edit;
    if chars == [] {
      assert text + chars == text;
    } else {
      var few, c := chars[..|chars| - 1], chars[|chars| - 1];
      TypedExact(text, few);
      TypedGrowth(text, few);
      CharEffectExact(c);
      LastTypable(few, c);
      assert few + [c] == chars;
      LastEdit(text, few, c, Typed(text, few), CharEffect(c));
    }
  }

  lemma LastTypable(few: Text, c: CodePoint)
    ensures AllTypable(few + [c]) <==> AllTypable(few) && Typable(c)
  {
    if AllTypable(few + [c]) {
      assert (few + [c])[|few|] == c;
      forall i | 0 <= i < |few| ensures Typable(few[i]) { assert (few + [c])[i] == few[i]; }
    }
  }

  // Typing never puts a character of another kind into a text.
  lemma {:induction false} TypedTypable(text: Text, chars: Text)
    requires AllTypable(text)
    ensures AllTypable(Typed(text, chars))
  {
    if chars != [] {
      var few, c := chars[..|chars| - 1], chars[|chars| - 1];
      TypedTypable(text, few);
      EffectTypable(c);
      EditTypable(Typed(text, few), CharEffect(c));
      hide Typable, CharEffect, Edit;
    }
  }

  lemma EffectTypable(c: CodePoint)
    ensures CharEffect(c).Insert? ==> Typable(CharEffect(c).c)
  {
    hide AsciiToX11Keycode, KeysymOf, NeedsShift;
  }

  lemma EditTypable(text: Text, e: Effect)
    requires AllTypable(text) && (e.Insert? ==> Typable(e.c))
    ensures AllTypable(Edit(text, e))
  {
    hide Typable;
  }

  lemma {:induction false} LastEdit(text: Text, few: Text, c: CodePoint, typed: Text, e: Effect)
    requires |typed| <= |text| + |few|
    ensures Edit(typed, e) == text + (few + [c]) <==> typed == text + few && e == Insert(c)
  {
    var all := text + (few + [c]);
    assert all == (text + few) + [c];
    if Edit(typed, e) == all {
      assert typed == all[..|all| - 1] == text + few;
      assert Edit(typed, e)[|all| - 1] == c;
    }
  }

  lemma {:induction false} TypedConcat(text: Text, a: Text, b: Text)
    ensures Typed(text, a + b) == Typed(Typed(text, a), b)
  {
    if b == [] {
      assert a + b == a;
    } else {
      assert (a + b)[..|a + b| - 1] == a + b[..|b| - 1];
      TypedConcat(text, a, b[..|b| - 1]);
    }
  }

  // ---------------------------------------------------------------------
  // Batches

  datatype Key = Key(code: nat, shift: bool)

  // A key of a batch acts, under the batch's table, like its character. Keys
  // of ASCII characters lie below the virtual keycodes, so no table affects
  // them.
  predicate Carries(keysyms: seq<nat>, k: Key, c: CodePoint) {
    if c < 0x80 then k == Key(AsciiToX11Keycode(c), NeedsShift(c)) && k.code < VIRTUAL_BASE
    else
      && VIRTUAL_BASE <= k.code < VIRTUAL_BASE + |keysyms| && !k.shift
      && keysyms[k.code - VIRTUAL_BASE] == UNICODE_KEYSYM + c
  }

  ghost predicate BatchFor(keysyms: seq<nat>, keys: seq<Key>, chars: Text) {
    && |keysyms| <= MAX_VIRTUAL && NoDup(keysyms)
    && |keys| == |chars|
    && forall i :: 0 <= i < |keys| ==> Carries(keysyms, keys[i], chars[i])
  }

  function KeyEvents(keys: seq<Key>): seq<Wire> {
    if keys == [] then []
    else
      var k := keys[|keys| - 1];
      KeyEvents(keys[..|keys| - 1]) + [KeyPress(k.code, k.shift), KeyRelease(k.code, k.shift)]
  }

  function BatchEvents(keysyms: seq<nat>, keys: seq<Key>): seq<Wire> {
    (if keysyms == [] then [] else [MappingNotify(keysyms)]) + KeyEvents(keys)
  }

  lemma {:induction false} CarriedEffect(keysyms: seq<nat>, virtual: seq<nat>, k: Key, c: CodePoint)
    requires Carries(keysyms, k, c) && (keysyms != [] ==> virtual == keysyms)
    ensures EffectOf(KeysymOf(virtual, k.code, k.shift)) == CharEffect(c)
  {
    hide EvdevToMac, MacKeysyms, AsciiToX11Keycode, EffectOf;
  }

  lemma {:induction false} KeysDelivered(c: Client, keysyms: seq<nat>, keys: seq<Key>, chars: Text)
    requires BatchFor(keysyms, keys, chars) && (keysyms != [] ==> c.virtual == keysyms)
    ensures After(c, KeyEvents(keys)) == Client(c.virtual, Typed(c.text, chars))
  {
    if keys != [] {
      var k, few := keys[|keys| - 1], keys[..|keys| - 1];
      KeysDelivered(c, keysyms, few, chars[..|chars| - 1]);
      CarriedEffect(keysyms, c.virtual, k, chars[|chars| - 1]);
      hide KeysymOf, EffectOf, CharEffect, Carries;
      AfterConcat(c, KeyEvents(few), [KeyPress(k.code, k.shift), KeyRelease(k.code, k.shift)]);
      AfterPress(After(c, KeyEvents(few)), k);
    }
  }

  lemma {:induction false} AfterPress(c: Client, k: Key)
    ensures After(c, [KeyPress(k.code, k.shift), KeyRelease(k.code, k.shift)]) ==
            c.(text := Edit(c.text, EffectOf(KeysymOf(c.virtual, k.code, k.shift))))
  {
    hide KeysymOf, EffectOf;
    var p, r := KeyPress(k.code, k.shift), KeyRelease(k.code, k.shift);
    assert [p, r][..1] == [p] && [p][..0] == [];
    assert After(c, [p]) == Receive(After(c, []), p);
  }

  // A batch types its characters into any client, whatever table the client
  // held before.
  lemma {:induction false} BatchDelivered(c: Client, keysyms: seq<nat>, keys: seq<Key>, chars: Text)
    requires BatchFor(keysyms, keys, chars)
    ensures After(c, BatchEvents(keysyms, keys)).text == Typed(c.text, chars)
  {
    if keysyms == [] {
      assert BatchEvents(keysyms, keys) == KeyEvents(keys);
      KeysDelivered(c, keysyms, keys, chars);
    } else {
      var n := MappingNotify(keysyms);
      AfterConcat(c, [n], KeyEvents(keys));
      assert [n][..0] == [];
      assert After(c, [n]) == Receive(After(c, []), n);
      KeysDelivered(c.(virtual := keysyms), keysyms, keys, chars);
    }
  }

  // The size of the table in force after a stretch of wire.
  ghost function InForce(ws: seq<Wire>, before: nat): nat {
    if ws == [] then before
    else if ws[|ws| - 1].MappingNotify? then |ws[|ws| - 1].keysyms|
    else InForce(ws[..|ws| - 1], before)
  }

  // Every table announced has 1 to 136 distinct keysyms, and every keycode
  // sent is an 8-bit keycode, virtual only within the table in force.
  ghost predicate WellFormed(ws: seq<Wire>, before: nat) {
    ws == [] ||
    (&& WellFormed(ws[..|ws| - 1], before)
     && match ws[|ws| - 1]
        case MappingNotify(ks) => 0 < |ks| <= 136 && NoDup(ks)
        case KeyPress(code, _) => code < 256 && code < 120 + InForce(ws[..|ws| - 1], before)
        case KeyRelease(code, _) => code < 256 && code < 120 + InForce(ws[..|ws| - 1], before))
  }

  lemma {:induction false} KeysWellFormed(ws: seq<Wire>, keys: seq<Key>, before: nat)
    requires WellFormed(ws, before) && InForce(ws, before) <= MAX_VIRTUAL
    requires forall i :: 0 <= i < |keys| ==> keys[i].code < VIRTUAL_BASE + InForce(ws, before)
    ensures WellFormed(ws + KeyEvents(keys), before)
    ensures InForce(ws + KeyEvents(keys), before) == InForce(ws, before)
  {
    if keys == [] {
      assert ws + KeyEvents(keys) == ws;
    } else {
      var k, few := keys[|keys| - 1], keys[..|keys| - 1];
      KeysWellFormed(ws, few, before);
      var w0 := ws + KeyEvents(few);
      var w1 := w0 + [KeyPress(k.code, k.shift)];
      var w2 := w1 + [KeyRelease(k.code, k.shift)];
      assert w1[..|w1| - 1] == w0 && w2[..|w2| - 1] == w1;
      assert keys[|keys| - 1].code < VIRTUAL_BASE + InForce(w0, before);
      assert WellFormed(w1, before) && InForce(w1, before) == InForce(w0, before);
      assert WellFormed(w2, before);
      assert w2 == ws + KeyEvents(keys);
    }
  }

  lemma {:induction false} BatchWellFormed(ws: seq<Wire>, keysyms: seq<nat>, keys: seq<Key>, chars: Text, before: nat)
    requires BatchFor(keysyms, keys, chars)
    requires WellFormed(ws, before) && InForce(ws, before) <= MAX_VIRTUAL
    ensures WellFormed(ws + BatchEvents(keysyms, keys), before)
    ensures InForce(ws + BatchEvents(keysyms, keys), before) <= MAX_VIRTUAL
  {
    hide AsciiToX11Keycode, NeedsShift;
    var w0 := if keysyms == [] then ws else ws + [MappingNotify(keysyms)];
    assert keysyms != [] ==> w0[..|w0| - 1] == ws;
    forall i | 0 <= i < |keys| ensures keys[i].code < VIRTUAL_BASE + InForce(w0, before) {
      assert Carries(keysyms, keys[i], chars[i]);
    }
    KeysWellFormed(w0, keys, before);
    assert ws + BatchEvents(keysyms, keys) == w0 + KeyEvents(keys);
  }
}
