// The input-method event loop: preedit text is injected into the client as
// it changes, and replaced by suffixes or by backspaces and retyping.
module Preedit {
  import opened Basics
  import opened Keyboard
  import opened Ime

  // Every event carries the focus window in force when it is handled (0 for
  // none).
  datatype Event =
    | Draw(text: Text)
    | Commit(text: Text)
    | Replace(erase: nat, text: Text)
    | Done

  // The loop's locals.
  datatype State = State(preedit: Text, count: nat, injected: bool)

  const IDLE: State := State([], 0, false)

  // `text.starts_with(preedit)` on a non-empty preedit.
  predicate Extends(s: State, text: Text) {
    s.preedit != [] && s.preedit <= text
  }

  function Shortened(t: Text, n: nat): Text {
    t[..Max(|t| - n, 0)]
  }

  // Backspaces are dropped without a focus window; typing is not.
  function Erased(t: Text, n: nat, focus: nat): Text {
    if focus == 0 then t else Shortened(t, n)
  }

  function Appended(t: Text, more: Text): Text {
    Typed(t, Normalised(more))
  }

  // What an event does to the client's text.
  function Reaction(s: State, e: Event, focus: nat, t: Text): Text {
    match e
    case Draw(text) =>
      if Extends(s, text) then Appended(t, text[|s.preedit|..])
      else Appended(Erased(t, s.count, focus), text)
    case Commit(text) =>
      if !s.injected then Appended(t, text)
      else if Extends(s, text) then Appended(t, text[|s.preedit|..])
      else Appended(Erased(t, s.count, focus), text)
    case Replace(n, text) => Appended(Erased(t, n, focus), text)
    case Done => if s.injected then Erased(t, s.count, focus) else t
  }

  function Next(s: State, e: Event): State {
    match e
    case Draw(text) => State(text, |text|, true)
    case _ => IDLE
  }

  // ---------------------------------------------------------------------
  // The dispatcher

  class Dispatcher {
    var virtualKeysyms: seq<nat>
    var wire: seq<Wire>
    var preeditText: Text
    var preeditCount: nat
    var preeditInjected: bool

    function Locals(): State
      reads this
    {
      State(preeditText, preeditCount, preeditInjected)
    }

    // The announced tables are the server's own.
    ghost predicate Valid()
      reads this
    {
      WellFormed(wire, MAX_VIRTUAL) && InForce(wire, MAX_VIRTUAL) <= MAX_VIRTUAL
    }

    constructor (keysyms: seq<nat>)
      ensures Valid() && Locals() == IDLE && wire == [] && virtualKeysyms == keysyms
    {
      virtualKeysyms, wire := keysyms, [];
      preeditText, preeditCount, preeditInjected := [], 0, false;
    }

    // One batch: as many characters as fit in one table.
    method BuildBatch(chars: Text, start: nat) returns (keys: seq<Key>, keysyms: seq<nat>, end: nat)
      requires start < |chars|
      ensures start < end <= |chars|
      ensures BatchFor(keysyms, keys, chars[start..end])
      ensures end < |chars| ==> |keysyms| == 136 && 0x80 <= chars[end] &&
                                UNICODE_KEYSYM + chars[end] !in keysyms
    {
      hide AsciiToX11Keycode, NeedsShift;
      keys, keysyms, end := [], [], start;
      while end < |chars|
        invariant start <= end <= |chars|
        invariant BatchFor(keysyms, keys, chars[start..end])
        invariant end == start ==> keysyms == []
      {
        var c := chars[end];
        assert chars[start..end + 1] == chars[start..end] + [c];
        if c < 0x80 {
          AsciiKeycodes(c);
          keys := keys + [Key(AsciiToX11Keycode(c), NeedsShift(c))];
        } else {
          var keysym := UNICODE_KEYSYM + c;
          var slot := Position(keysyms, keysym);
          if slot == |keysyms| {
            if |keysyms| >= MAX_VIRTUAL {
              break;
            }
            GrownBatch(keysyms, keysym, keys, chars[start..end]);
            keysyms := keysyms + [keysym];
          }
          keys := keys + [Key(VIRTUAL_BASE + slot, false)];
        }
        end := end + 1;
      }
    }

    method Position(keysyms: seq<nat>, keysym: nat) returns (slot: nat)
      ensures slot <= |keysyms| && keysym !in keysyms[..slot]
      ensures slot < |keysyms| ==> keysyms[slot] == keysym
    {
      slot := 0;
      while slot < |keysyms| && keysyms[slot] != keysym
        invariant slot <= |keysyms| && keysym !in keysyms[..slot]
      {
        slot := slot + 1;
      }
    }

    // send_ime_text. The outer loop advances by at least one character per
    // batch, and any client that receives the wire types the text.
    method SendText(text: Text) returns (ghost sent: seq<Wire>)
      requires Valid()
      modifies this`wire, this`virtualKeysyms
      ensures Valid() && wire == old(wire) + sent
      ensures forall c: Client :: After(c, sent).text == Appended(c.text, text)
    {
      hide Typed, CharEffect, After, BatchFor, WellFormed, InForce, BatchEvents, Normal;
      var chars := [];
      for i := 0 to |text|
        invariant |chars| == i && forall k :: 0 <= k < i ==> chars[k] == Normal(text[k])
      {
        chars := chars + [Normal(text[i])];
      }
      assert chars == Normalised(text);
      sent := [];
      SentNothing();
      var start := 0;
      while start < |chars|
        invariant start <= |chars| && Valid() && wire == old(wire) + sent
        invariant forall c: Client :: After(c, sent).text == Typed(c.text, chars[..start])
      {
        var keys, keysyms, end := BuildBatch(chars, start);
        ghost var w := wire;
        SendBatch(keysyms, keys, chars[start..end]);
        SentMore(sent, keysyms, keys, chars[..start], chars[start..end]);
        ConcatAssoc(old(wire), sent, BatchEvents(keysyms, keys));
        assert chars[..end] == chars[..start] + chars[start..end];
        sent := sent + BatchEvents(keysyms, keys);
        start := end;
      }
      assert chars[..|chars|] == chars;
    }

    // Install and announce the table if the batch needs one, then send the
    // key events.
    method SendBatch(keysyms: seq<nat>, keys: seq<Key>, ghost chars: Text)
      requires Valid() && BatchFor(keysyms, keys, chars)
      modifies this`wire, this`virtualKeysyms
      ensures Valid() && wire == old(wire) + BatchEvents(keysyms, keys)
      ensures virtualKeysyms == if keysyms == [] then old(virtualKeysyms) else keysyms
    {
      BatchWellFormed(wire, keysyms, keys, chars, MAX_VIRTUAL);
      hide WellFormed, InForce, BatchFor;
      if keysyms != [] {
        virtualKeysyms := keysyms;
        wire := wire + [MappingNotify(keysyms)];
        ConcatAssoc(old(wire), [MappingNotify(keysyms)], KeyEvents(keys));
      }
      assert keysyms == [] ==> BatchEvents(keysyms, keys) == KeyEvents(keys);
      SendKeys(keys);
    }

    // A press and a release for each key.
    method SendKeys(keys: seq<Key>)
      modifies this`wire
      ensures wire == old(wire) + KeyEvents(keys)
    {
      for i := 0 to |keys|
        invariant wire == old(wire) + KeyEvents(keys[..i])
      {
        ghost var pair := [KeyPress(keys[i].code, keys[i].shift), KeyRelease(keys[i].code, keys[i].shift)];
        assert keys[..i + 1][..i] == keys[..i];
        ConcatAssoc(old(wire), KeyEvents(keys[..i]), pair);
        wire := wire + [KeyPress(keys[i].code, keys[i].shift), KeyRelease(keys[i].code, keys[i].shift)];
      }
      assert keys[..|keys|] == keys;
    }

    // send_backspaces
    method SendBackspaces(count: nat, focus: nat) returns (ghost sent: seq<Wire>)
      requires Valid()
      modifies this`wire
      ensures Valid() && wire == old(wire) + sent
      ensures forall c: Client :: After(c, sent).text == Erased(c.text, count, focus)
    {
      sent := [];
      if count == 0 || focus == 0 {
        forall c: Client ensures After(c, sent).text == Erased(c.text, count, focus) {}
        return;
      }
      ghost var keys: seq<Key> := [];
      for i := 0 to count
        invariant Valid() && sent == KeyEvents(keys) && wire == old(wire) + sent
        invariant forall k :: k in keys ==> k == Key(BACKSPACE_KEYCODE, false)
        invariant |keys| == i
      {
        ghost var k := Key(BACKSPACE_KEYCODE, false);
        KeysWellFormed(wire, [k], MAX_VIRTUAL);
        assert [k][..0] == [] && KeyEvents([k]) == [KeyPress(k.code, k.shift), KeyRelease(k.code, k.shift)];
        assert (keys + [k])[..i] == keys;
        keys := keys + [k];
        sent := KeyEvents(keys);
        wire := wire + [KeyPress(BACKSPACE_KEYCODE, false), KeyRelease(BACKSPACE_KEYCODE, false)];
      }
      forall c: Client ensures After(c, sent).text == Erased(c.text, count, focus) {
        BackspacesErase(c, keys);
      }
    }

    // One event of the loop.
    method Handle(e: Event, focus: nat) returns (ghost sent: seq<Wire>)
      requires Valid()
      modifies this
      ensures Valid() && wire == old(wire) + sent
      ensures Locals() == Next(old(Locals()), e)
      ensures forall c: Client :: After(c, sent).text == Reaction(old(Locals()), e, focus, c.text)
    {
      hide After, Appended, Erased, WellFormed, InForce;
      match e
      case Draw(text) =>
        if preeditText != [] && preeditText <= text {
          sent := SendSuffix(text[|preeditText|..]);
        } else {
          sent := Retype(preeditCount, text, focus);
        }
        preeditCount, preeditInjected, preeditText := |text|, true, text;
      case Commit(text) =>
        if preeditInjected {
          if preeditText != [] && preeditText <= text {
            sent := SendSuffix(text[|preeditText|..]);
          } else {
            sent := Retype(preeditCount, text, focus);
          }
        } else {
          sent := SendText(text);
        }
        Clear();
      case Replace(n, text) =>
        sent := Retype(n, text, focus);
        Clear();
      case Done =>
        if preeditInjected && preeditCount > 0 {
          sent := SendBackspaces(preeditCount, focus);
        } else {
          sent := [];
          NothingSent(focus);
        }
        Clear();
    }

    method SendSuffix(suffix: Text) returns (ghost sent: seq<Wire>)
      requires Valid()
      modifies this`wire, this`virtualKeysyms
      ensures Valid() && wire == old(wire) + sent
      ensures forall c: Client :: After(c, sent).text == Appended(c.text, suffix)
    {
      sent := [];
      NothingSent(0);
      if suffix != [] {
        sent := SendText(suffix);
      }
    }

    // Erase, then type.
    method Retype(count: nat, text: Text, focus: nat) returns (ghost sent: seq<Wire>)
      requires Valid()
      modifies this`wire, this`virtualKeysyms
      ensures Valid() && wire == old(wire) + sent
      ensures forall c: Client :: After(c, sent).text == Appended(Erased(c.text, count, focus), text)
    {
      hide After, Appended, Erased;
      ghost var first := SendBackspaces(count, focus);
      ghost var second := SendText(text);
      sent := first + second;
      forall c: Client ensures After(c, sent).text == Appended(Erased(c.text, count, focus), text) {
        AfterConcat(c, first, second);
      }
    }

    method Clear()
      modifies this`preeditText, this`preeditCount, this`preeditInjected
      ensures Locals() == IDLE
    {
      preeditText, preeditCount, preeditInjected := [], 0, false;
    }
  }

  lemma NothingSent(focus: nat)
    ensures forall c: Client :: After(c, []).text == c.text == Appended(c.text, []) == Erased(c.text, 0, focus)
  {
  }

  lemma SentNothing()
    ensures forall c: Client :: After(c, []).text == Typed(c.text, [])
  {
  }

  lemma {:induction false} SentMore(sent: seq<Wire>, keysyms: seq<nat>, keys: seq<Key>, before: Text, chars: Text)
    requires BatchFor(keysyms, keys, chars)
    requires forall c: Client :: After(c, sent).text == Typed(c.text, before)
    ensures forall c: Client ::
      After(c, sent + BatchEvents(keysyms, keys)).text == Typed(c.text, before + chars)
  {
    hide BatchFor, BatchEvents, CharEffect;
    forall c: Client ensures After(c, sent + BatchEvents(keysyms, keys)).text == Typed(c.text, before + chars) {
      AfterConcat(c, sent, BatchEvents(keysyms, keys));
      BatchDelivered(After(c, sent), keysyms, keys, chars);
      TypedConcat(c.text, before, chars);
    }
  }

  // A table may grow at its end without disturbing the keys already placed.
  lemma {:induction false} GrownBatch(keysyms: seq<nat>, keysym: nat, keys: seq<Key>, chars: Text)
    requires BatchFor(keysyms, keys, chars) && keysym !in keysyms && |keysyms| < MAX_VIRTUAL
    ensures BatchFor(keysyms + [keysym], keys, chars)
  {
    hide AsciiToX11Keycode, NeedsShift;
    forall i | 0 <= i < |keys| ensures Carries(keysyms + [keysym], keys[i], chars[i]) {
      assert Carries(keysyms, keys[i], chars[i]);
    }
  }

  lemma {:induction false} BackspacesErase(c: Client, keys: seq<Key>)
    requires forall k :: k in keys ==> k == Key(BACKSPACE_KEYCODE, false)
    ensures After(c, KeyEvents(keys)) == c.(text := Shortened(c.text, |keys|))
  {
    if keys != [] {
      var k, few := keys[|keys| - 1], keys[..|keys| - 1];
      forall f | f in few ensures f == Key(BACKSPACE_KEYCODE, false) { assert f in keys; }
      BackspacesErase(c, few);
      AfterConcat(c, KeyEvents(few), [KeyPress(k.code, k.shift), KeyRelease(k.code, k.shift)]);
      AfterPress(After(c, KeyEvents(few)), k);
      assert k in keys;
      assert EffectOf(KeysymOf(c.virtual, BACKSPACE_KEYCODE, false)) == Erase;
    }
  }

  // ---------------------------------------------------------------------
  // What normalised text is, in the client

  // Fullwidth characters are typed as the ASCII characters they stand for, an
  // ideographic space as a space and a yen sign as a backslash; every other
  // character that can be typed arrives as itself.
  lemma {:induction false} CharacterTyped(t: Text, c: CodePoint)
    ensures 0x21 <= c <= 0x7E ==> Appended(t, [c + 0xFEE0]) == t + [c]
    ensures Appended(t, [0x3000]) == t + [' ' as nat] && Appended(t, [0xA5]) == t + ['\\' as nat]
    ensures (0x20 <= c <= 0x7E || 0x100 <= c < 0x11_0000) && c != 0x3000 && !(0xFF01 <= c <= 0xFF5E) ==>
      Appended(t, [c]) == t + [c]
  {
    hide Typed, Normalised, CharEffect;
    NormalisedOne(c + 0xFEE0);
    NormalisedOne(0x3000);
    NormalisedOne(0xA5);
    NormalisedOne(c);
    TypedExact(t, [c]);
    TypedExact(t, [0x20]);
    TypedExact(t, [0x5C]);
  }

  lemma NormalisedOne(c: CodePoint)
    ensures Normalised([c]) == [Normal(c)]
  {
  }

  // A text is typed character by character, and its first part first.
  lemma {:induction false} AppendedConcat(t: Text, a: Text, b: Text)
    ensures Appended(t, a + b) == Appended(Appended(t, a), b)
  {
    assert Normalised(a + b) == Normalised(a) + Normalised(b);
    TypedConcat(t, Normalised(a), Normalised(b));
  }

  // ---------------------------------------------------------------------
  // Runs

  // The client shows what was committed followed by the current preedit.
  ghost predicate Synced(s: State, committed: Text, t: Text) {
    && t == committed + Normalised(s.preedit)
    && s.count == |s.preedit|
    && (s.preedit != [] ==> s.injected)
  }

  // What the user has committed after an event.
  function Committed(committed: Text, e: Event): Text {
    match e
    case Draw(_) => committed
    case Commit(text) => committed + Normalised(text)
    case Replace(n, text) => Shortened(committed, n) + Normalised(text)
    case Done => committed
  }

  predicate TypableEvent(e: Event) {
    e.Done? || AllTypable(Normalised(e.text))
  }

  // The guard the loop does not test: an event that has to erase something
  // needs a focus window, and a replacement must not find a preedit pending
  // (unless it erases past everything).
  predicate Safe(s: State, e: Event, focus: nat, committed: Text) {
    match e
    case Draw(text) => focus != 0 || Extends(s, text) || s.preedit == []
    case Commit(text) => focus != 0 || Extends(s, text) || s.preedit == []
    case Replace(n, _) =>
      if focus == 0 then s.preedit == [] && (n == 0 || committed == [])
      else s.preedit == [] || |committed| + |s.preedit| <= n
    case Done => focus != 0 || s.preedit == []
  }

  lemma {:induction false} AppendedIs(t: Text, more: Text)
    requires AllTypable(Normalised(more))
    ensures Appended(t, more) == t + Normalised(more)
  {
    TypedExact(t, Normalised(more));
  }

  // One event keeps the client in step exactly when it is safe and its text can
  // be typed.
  lemma {:induction false} EventKeepsSync(s: State, e: Event, focus: nat, committed: Text, t: Text)
    requires Synced(s, committed, t) && AllTypable(t)
    ensures Synced(Next(s, e), Committed(committed, e), Reaction(s, e, focus, t)) <==>
            Safe(s, e, focus, committed) && TypableEvent(e)
    ensures AllTypable(Reaction(s, e, focus, t))
  {
    ReactionTypable(s, e, focus, t);
    if TypableEvent(e) {
      TypableKeepsSync(s, e, focus, committed, t);
    } else {
      UntypableLosesSync(s, e, committed, Reaction(s, e, focus, t));
    }
    hide Synced, Safe, Reaction, Committed, Next, TypableEvent, AllTypable;
  }

  lemma ReactionTypable(s: State, e: Event, focus: nat, t: Text)
    requires AllTypable(t)
    ensures AllTypable(Reaction(s, e, focus, t))
  {
    hide Typable, Typed, Normalised;
    forall u, n | AllTypable(u) ensures AllTypable(Erased(u, n, focus)) {}
    forall u, more | AllTypable(u) ensures AllTypable(Appended(u, more)) { TypedTypable(u, Normalised(more)); }
  }

  // The client's text holds typable characters only, so never the event's.
  lemma {:induction false} UntypableLosesSync(s: State, e: Event, committed: Text, t: Text)
    requires !TypableEvent(e) && AllTypable(t)
    ensures !Synced(Next(s, e), Committed(committed, e), t)
  {
    var all := Normalised(e.text);
    var before := match e case Replace(n, _) => Shortened(committed, n) case _ => committed;
    var i :| 0 <= i < |all| && !Typable(all[i]);
    assert (before + all)[|before| + i] == all[i];
    assert t != before + all;
    assert Normalised([]) == [] && before + all + [] == before + all;
  }

  lemma {:induction false} TypableKeepsSync(s: State, e: Event, focus: nat, committed: Text, t: Text)
    requires Synced(s, committed, t) && TypableEvent(e)
    ensures Synced(Next(s, e), Committed(committed, e), Reaction(s, e, focus, t)) <==> Safe(s, e, focus, committed)
  {
    hide Appended, AllTypable;
    match e
    case Draw(text) => DrawOrCommit(s, text, focus, committed, t); NextSynced(s, e);
    case Commit(text) => CommitSync(s, text, focus, committed, t);
    case Replace(n, text) => ReplaceSync(s, n, text, focus, committed, t);
    case Done =>
      assert Normalised([]) == [] && committed + [] == committed;
      if s.preedit != [] { assert |t| == |committed| + |s.preedit|; }
  }

  lemma NextSynced(s: State, e: Event)
    ensures Next(s, e).count == |Next(s, e).preedit|
    ensures Next(s, e).preedit != [] ==> Next(s, e).injected
  {
  }

  lemma {:induction false} CommitSync(s: State, text: Text, focus: nat, committed: Text, t: Text)
    requires Synced(s, committed, t) && AllTypable(Normalised(text))
    ensures Reaction(s, Commit(text), focus, t) + [] == committed + Normalised(text) <==>
            focus != 0 || Extends(s, text) || s.preedit == []
    ensures Normalised([]) == []
  {
    hide Appended, AllTypable;
    DrawOrCommit(s, text, focus, committed, t);
    if s.preedit == [] { AppendedIs(t, text); }
    assert Reaction(s, Commit(text), focus, t) + [] == Reaction(s, Commit(text), focus, t);
  }

  lemma {:induction false} ReplaceSync(s: State, n: nat, text: Text, focus: nat, committed: Text, t: Text)
    requires Synced(s, committed, t) && AllTypable(Normalised(text))
    ensures Reaction(s, Replace(n, text), focus, t) + [] == Shortened(committed, n) + Normalised(text) <==>
            Safe(s, Replace(n, text), focus, committed)
    ensures Normalised([]) == []
  {
    hide Appended, AllTypable;
    AppendedIs(Erased(t, n, focus), text);
    SamePrefix(Erased(t, n, focus), Shortened(committed, n), Normalised(text));
    assert Erased(t, n, focus) == Shortened(committed, n) <==> |Erased(t, n, focus)| == |Shortened(committed, n)|;
    assert Reaction(s, Replace(n, text), focus, t) + [] == Reaction(s, Replace(n, text), focus, t);
  }

  lemma SamePrefix(a: Text, b: Text, c: Text)
    ensures a + c == b + c <==> a == b
  {
    if a + c == b + c {
      assert a == (a + c)[..|a|] && b == (b + c)[..|b|];
    }
  }

  lemma {:induction false} DrawOrCommit(s: State, text: Text, focus: nat, committed: Text, t: Text)
    requires Synced(s, committed, t) && AllTypable(Normalised(text))
    ensures var r := if Extends(s, text) then Appended(t, text[|s.preedit|..])
                     else Appended(Erased(t, s.count, focus), text);
      r == committed + Normalised(text) <==> focus != 0 || Extends(s, text) || s.preedit == []
  {
    hide Appended, Typable;
    if Extends(s, text) {
      var suffix := text[|s.preedit|..];
      assert Normalised(text) == Normalised(s.preedit) + Normalised(suffix);
      assert AllTypable(Normalised(suffix)) by {
        forall i | 0 <= i < |suffix| ensures Typable(Normalised(suffix)[i]) {
          assert Normalised(text)[|s.preedit| + i] == Normalised(suffix)[i];
        }
      }
      AppendedIs(t, suffix);
      ConcatAssoc(committed, Normalised(s.preedit), Normalised(suffix));
    } else {
      AppendedIs(Erased(t, s.count, focus), text);
      SamePrefix(Erased(t, s.count, focus), committed, Normalised(text));
    }
  }

  datatype Focused = Focused(e: Event, focus: nat)

  ghost predicate SyncedThroughout(s: State, committed: Text, t: Text, run: seq<Focused>)
    decreases |run|
  {
    && Synced(s, committed, t)
    && (run != [] ==>
        SyncedThroughout(Next(s, run[0].e), Committed(committed, run[0].e),
                         Reaction(s, run[0].e, run[0].focus, t), run[1..]))
  }

  ghost predicate AllSafe(s: State, committed: Text, run: seq<Focused>)
    decreases |run|
  {
    run == [] ||
    (&& Safe(s, run[0].e, run[0].focus, committed)
     && AllSafe(Next(s, run[0].e), Committed(committed, run[0].e), run[1..]))
  }

  predicate EachTypable(run: seq<Focused>) {
    run == [] || (TypableEvent(run[0].e) && EachTypable(run[1..]))
  }

  // Over every run the client always shows the committed text followed by the
  // preedit exactly when every event met its guard and every text can be typed.
  lemma {:induction false} RunKeepsSync(s: State, committed: Text, t: Text, run: seq<Focused>)
    requires Synced(s, committed, t) && AllTypable(t)
    ensures SyncedThroughout(s, committed, t, run) <==> AllSafe(s, committed, run) && EachTypable(run)
    decreases |run|
  {
    hide Reaction, Committed, Next, Safe, Synced, TypableEvent, AllTypable;
    if run != [] {
      var e, focus := run[0].e, run[0].focus;
      EventKeepsSync(s, e, focus, committed, t);
      if Safe(s, e, focus, committed) && TypableEvent(e) {
        RunKeepsSync(Next(s, e), Committed(committed, e), Reaction(s, e, focus, t), run[1..]);
      }
    }
  }

  // In particular from the loop's start.
  lemma {:induction false} IdleKeepsSync(run: seq<Focused>)
    ensures SyncedThroughout(IDLE, [], [], run) <==> AllSafe(IDLE, [], run) && EachTypable(run)
  {
    assert Synced(IDLE, [], []);
    RunKeepsSync(IDLE, [], [], run);
  }

  // On a text the client got elsewhere the two failures can cancel out: an
  // unfocused replacement of an e with acute accent by itself neither erases
  // nor types.
  lemma {:induction false} FailuresCancel()
    ensures var e, t := Replace(1, [0xE9]), [0xE9];
      && Synced(IDLE, t, t) && !Safe(IDLE, e, 0, t) && !TypableEvent(e)
      && Synced(Next(IDLE, e), Committed(t, e), Reaction(IDLE, e, 0, t))
  {
    assert Normalised([0xE9]) == [0xE9] && Normalised([]) == [];
    assert [0xE9][..0] == [] && Typed([0xE9], []) == [0xE9];
    assert CharEffect(0xE9) == Ignore;
    assert !Typable(Normalised([0xE9])[0]);
  }

  // Without a focus window a changed preedit piles up instead of replacing
  // the old one.
  lemma {:induction false} UnfocusedPiles()
    ensures var s := State([0x3042], 1, true);
      && Synced(s, [], [0x3042])
      && Reaction(s, Draw([0x3044]), 0, [0x3042]) == [0x3042, 0x3044]
  {
    assert Normalised([0x3042]) == [0x3042] && Normalised([0x3044]) == [0x3044];
    assert Typable(0x3044);
    AppendedIs([0x3042], [0x3044]);
  }
}
