// The pointer half of the event loop: implicit grabs and crossing events.
module Pointer {
  import opened Basics
  import opened WindowTree
  import opened Coordinates

  // What the loop sends, in order.
  datatype Sent =
    | Enter(window: Xid)
    | Leave(window: Xid)
    | Button(window: Xid, press: bool, at: Point)
    | Motion(window: Xid, at: Point)

  // Native events on a top-level window; buttons from 4 up are the scroll
  // wheel, and a motion says whether any real button is held.
  datatype Event =
    | Press(button: nat, p: Point)
    | Release(button: nat, p: Point)
    | Move(p: Point, held: bool)

  // The locals of the loop: implicit grab window and offset, counted real
  // buttons, and the window last entered.
  datatype Locals = Locals(grab: Xid, offset: Point, buttons: nat, entered: Xid)

  // An event with the target its hit test found, or the redirection of an
  // explicit grab.
  datatype Input = Input(event: Event, hit: Target)

  const Idle := Locals(0, Point(0, 0), 0, 0)

  function Shifted(s: Locals, p: Point): Point {
    Wrap(Less(p, s.offset))
  }

  // Crossing events for a pointer that goes from one window to another.
  function Crossing(from: Xid, to: Xid): seq<Sent> {
    if from == to then []
    else (if from == 0 then [] else [Leave(from)]) + [Enter(to)]
  }

  // What one event makes the loop send, crossing events first.
  function Sends(s: Locals, i: Input): seq<Sent> {
    var hit := i.hit;
    match i.event
    case Press(button, _) =>
      (if button < 4 then Crossing(s.entered, hit.window) else []) + [Button(hit.window, true, hit.at)]
    case Release(button, p) =>
      if button < 4 && s.grab != 0 then [Button(s.grab, false, Shifted(s, p))]
      else [Button(hit.window, false, hit.at)]
    case Move(p, held) =>
      var t := if held && s.grab != 0 then Target(s.grab, Shifted(s, p)) else hit;
      Crossing(s.entered, t.window) + [Motion(t.window, t.at)]
  }

  function After(s: Locals, i: Input): Locals {
    var hit := i.hit;
    match i.event
    case Press(button, p) =>
      if button >= 4 then s
      else if s.buttons == 0 then Locals(hit.window, Wrap(Less(p, hit.at)), 1, hit.window)
      else s.(buttons := Min(s.buttons + 1, 255), entered := hit.window)
    case Release(button, _) =>
      if button >= 4 then s
      else s.(buttons := Max(s.buttons - 1, 0), grab := if s.buttons <= 1 then 0 else s.grab)
    case Move(_, held) =>
      if s.grab == 0 then s.(entered := hit.window)
      else if held then s.(entered := s.grab)
      else s.(grab := 0, buttons := 0, entered := hit.window)
  }

  function State(s: Locals, run: seq<Input>): Locals {
    if run == [] then s else After(State(s, run[..|run| - 1]), run[|run| - 1])
  }

  function Log(s: Locals, run: seq<Input>): seq<Sent> {
    if run == [] then []
    else var few := run[..|run| - 1]; Log(s, few) + Sends(State(s, few), run[|run| - 1])
  }

  // The last crossing event of a log names the window the pointer is in; a
  // leave names the window entered before it.
  ghost predicate Crossings(log: seq<Sent>, inside: Xid) {
    if log == [] then inside == 0
    else
      var few, last := log[..|log| - 1], log[|log| - 1];
      match last
      case Enter(w) => w == inside && w != 0 && Crossings(few, 0)
      case Leave(w) => inside == 0 && w != 0 && Crossings(few, w)
      case _ => Crossings(few, inside)
  }

  lemma CrossingsNext(log: seq<Sent>, s: Sent, inside: Xid)
    requires Crossings(log, inside)
    ensures s.Enter? && s.window != 0 && inside == 0 ==> Crossings(log + [s], s.window)
    ensures s.Leave? && s.window == inside != 0 ==> Crossings(log + [s], 0)
    ensures !s.Enter? && !s.Leave? ==> Crossings(log + [s], inside)
  {
    assert (log + [s])[..|log|] == log;
  }

  lemma CrossingKeeps(log: seq<Sent>, from: Xid, to: Xid)
    requires Crossings(log, from) && to != 0
    ensures Crossings(log + Crossing(from, to), to)
  {
    hide Crossings;
    if from == to {
      assert log + Crossing(from, to) == log;
    } else if from == 0 {
      CrossingsNext(log, Enter(to), 0);
      assert log + Crossing(from, to) == log + [Enter(to)];
    } else {
      CrossingsNext(log, Leave(from), from);
      CrossingsNext(log + [Leave(from)], Enter(to), 0);
      assert log + Crossing(from, to) == log + [Leave(from)] + [Enter(to)];
    }
  }

  // What the loop's locals and the log should say: a grab is active exactly
  // while real buttons are counted, the pointer is in some window meanwhile,
  // and enters and leaves alternate, each leave naming the window last entered.
  ghost predicate Consistent(s: Locals, log: seq<Sent>) {
    && (s.grab != 0 <==> 0 < s.buttons) && s.buttons <= 255
    && (0 < s.buttons ==> s.entered != 0)
    && Crossings(log, s.entered)
  }

  // The target is a window where the loop takes one. GrabPointer can name
  // window 0, and so can CreateWindow.
  predicate RealTarget(s: Locals, i: Input) {
    match i.event
    case Press(button, _) => button < 4 ==> i.hit.window != 0
    case Release(_, _) => true
    case Move(_, held) => i.hit.window != 0 || (held && s.grab != 0) || s.entered == 0
  }

  lemma {:induction false} StepConsistent(s: Locals, log: seq<Sent>, i: Input)
    requires Consistent(s, log)
    ensures Consistent(After(s, i), log + Sends(s, i)) <==> RealTarget(s, i)
  {
    if RealTarget(s, i) {
      SendsKeeps(log, s, i);
      hide Crossings, Sends;
    } else {
      SendsBreaks(log, s, i);
      hide Crossings, Sends;
    }
  }

  lemma SendsKeeps(log: seq<Sent>, s: Locals, i: Input)
    requires Crossings(log, s.entered) && RealTarget(s, i)
    ensures Crossings(log + Sends(s, i), After(s, i).entered)
  {
    hide Crossings;
    var out, to := Sends(s, i), After(s, i).entered;
    var last := out[|out| - 1];
    var crossing := if i.event.Release? || (i.event.Press? && i.event.button >= 4) then [] else Crossing(s.entered, to);
    assert out == crossing + [last];
    if crossing == [] {
      assert log + crossing == log;
    } else {
      CrossingKeeps(log, s.entered, to);
    }
    CrossingsNext(log + crossing, last, to);
    assert log + out == log + crossing + [last];
  }

  // Window 0 is entered, or counted without a grab.
  lemma SendsBreaks(log: seq<Sent>, s: Locals, i: Input)
    requires !RealTarget(s, i)
    ensures s.entered != 0 ==> !Crossings(log + Sends(s, i), After(s, i).entered)
    ensures s.entered == 0 ==> After(s, i).grab == 0 < After(s, i).buttons || 0 < s.buttons
  {
    if s.entered != 0 {
      var out := log + Sends(s, i);
      var few := out[..|out| - 1];
      assert few[|few| - 1] == Enter(0);
      assert !Crossings(few, After(s, i).entered);
    }
  }

  ghost predicate ConsistentThroughout(run: seq<Input>) {
    && (run == [] || ConsistentThroughout(run[..|run| - 1]))
    && Consistent(State(Idle, run), Log(Idle, run))
  }

  predicate RealTargets(run: seq<Input>) {
    run == [] ||
    (RealTargets(run[..|run| - 1]) && RealTarget(State(Idle, run[..|run| - 1]), run[|run| - 1]))
  }

  // Over every run the loop stays consistent exactly as long as no real press
  // is aimed at window 0, and no motion takes the pointer from a window to 0.
  lemma {:induction false} RunConsistent(run: seq<Input>)
    ensures ConsistentThroughout(run) <==> RealTargets(run)
  {
    hide After, Sends, Crossings, RealTarget;
    if run == [] {
      NoCrossings();
    } else {
      var few, last := run[..|run| - 1], run[|run| - 1];
      RunConsistent(few);
      if ConsistentThroughout(few) {
        StepConsistent(State(Idle, few), Log(Idle, few), last);
      }
    }
  }

  predicate RealPresses(run: seq<Input>) {
    forall i :: 0 <= i < |run| && run[i].event.Press? && run[i].event.button < 4 ==> run[i].hit.window != 0
  }

  // So when hit tests find windows, the targets of real presses decide.
  lemma {:induction false} PressesDecide(run: seq<Input>)
    requires forall i :: 0 <= i < |run| && run[i].event.Move? ==> run[i].hit.window != 0
    ensures ConsistentThroughout(run) <==> RealPresses(run)
  {
    RunConsistent(run);
    hide ConsistentThroughout;
    PressTargets(run);
  }

  lemma {:induction false} PressTargets(run: seq<Input>)
    requires forall i :: 0 <= i < |run| && run[i].event.Move? ==> run[i].hit.window != 0
    ensures RealTargets(run) <==> RealPresses(run)
  {
    if run != [] {
      var few, last := run[..|run| - 1], run[|run| - 1];
      PressTargets(few);
      assert forall i :: 0 <= i < |few| ==> few[i] == run[i];
      assert RealPresses(run) <==>
        RealPresses(few) && (last.event.Press? && last.event.button < 4 ==> last.hit.window != 0);
      hide State;
    }
  }

  lemma NoCrossings()
    ensures Crossings([], 0)
  {
  }

  // A press redirected by a GrabPointer on window 0 is counted without a grab;
  // and between two motions over a window the pointer enters 0 and never
  // leaves it.
  lemma {:induction false} GrabOnNothing(t: Target, p: Point)
    requires t.window != 0
    ensures var press, move := Input(Press(1, p), Target(0, p)), Input(Move(p, false), t);
      var w := t.window;
      && State(Idle, [press]).grab == 0 && State(Idle, [press]).buttons == 1
      && Log(Idle, [move, press, move]) == [Enter(w), Motion(w, t.at), Leave(w), Enter(0), Button(0, true, p),
                                            Enter(w), Motion(w, t.at)]
  {
    var press, move := Input(Press(1, p), Target(0, p)), Input(Move(p, false), t);
    assert [press][..0] == [] && [move][..0] == [];
    assert [move, press][..1] == [move] && [move, press, move][..2] == [move, press];
    assert State(Idle, [move]).entered == t.window;
    assert State(Idle, [move, press]).entered == 0;
    assert Log(Idle, [move]) == [Enter(t.window), Motion(t.window, t.at)];
    assert Log(Idle, [move, press]) == Log(Idle, [move]) + [Leave(t.window), Enter(0), Button(0, true, p)];
  }

  // Real buttons down after an event, counted in 8 bits.
  function Counted(down: int, e: Event): int {
    if e.Press? && e.button < 4 then Min(down + 1, 255)
    else if e.Release? && e.button < 4 then down - 1
    else down
  }

  // Real buttons down after a run that starts with `b` of them down.
  function Down(b: int, run: seq<Input>): int {
    if run == [] then b else Counted(Down(b, run[..|run| - 1]), run[|run| - 1].event)
  }

  // A drag goes on: after every event some button is down, and every motion
  // says so.
  ghost predicate KeptDown(b: int, run: seq<Input>) {
    if run == [] then 0 < b
    else
      var last := run[|run| - 1].event;
      KeptDown(b, run[..|run| - 1]) && 0 < Down(b, run) && (last.Move? ==> last.held)
  }

  // The receiver of a motion or real release during a drag.
  ghost predicate ToGrab(s: Locals, e: Event, sent: seq<Sent>) {
    match e
    case Press(_, _) => true
    case Release(button, p) => button < 4 ==> sent == [Button(s.grab, false, Shifted(s, p))]
    case Move(p, _) => sent != [] && sent[|sent| - 1] == Motion(s.grab, Shifted(s, p))
  }

  ghost predicate AllToGrab(s: Locals, run: seq<Input>) {
    run == [] ||
    var few, last := run[..|run| - 1], run[|run| - 1];
    AllToGrab(s, few) && ToGrab(s, last.event, Sends(State(s, few), last))
  }

  // The grab is active after every event.
  ghost predicate GrabLasts(s: Locals, run: seq<Input>) {
    State(s, run).grab != 0 && (run == [] || GrabLasts(s, run[..|run| - 1]))
  }

  // A grab outlasts a run exactly if a button is down all along. Then window
  // and offset stay those of the first press, and every motion and real release
  // is sent to that window by that offset, wherever the hit test points.
  lemma {:induction false} DragLasts(s: Locals, run: seq<Input>)
    requires s.grab != 0 && 0 < s.buttons
    ensures GrabLasts(s, run) <==> KeptDown(s.buttons, run)
    ensures KeptDown(s.buttons, run) ==>
      && State(s, run) == s.(buttons := Down(s.buttons, run), entered := State(s, run).entered)
      && AllToGrab(s, run)
  {
    if run != [] {
      var few, last := run[..|run| - 1], run[|run| - 1];
      DragLasts(s, few);
      KeptNow(s.buttons, few);
      hide After, Counted, Sends, ToGrab;
      if KeptDown(s.buttons, few) {
        DragStep(s, State(s, few), last, Down(s.buttons, few));
      }
    }
  }

  lemma KeptNow(b: int, run: seq<Input>)
    ensures KeptDown(b, run) ==> 0 < Down(b, run)
  {
  }

  // One event of a drag.
  lemma DragStep(s: Locals, now: Locals, i: Input, down: int)
    requires s.grab != 0 && 0 < down && now == s.(buttons := down, entered := now.entered)
    ensures After(now, i).grab != 0 <==> 0 < Counted(down, i.event) && (i.event.Move? ==> i.event.held)
    ensures After(now, i).grab != 0 ==>
      && After(now, i) == s.(buttons := Counted(down, i.event), entered := After(now, i).entered)
      && ToGrab(s, i.event, Sends(now, i))
  {
  }

  class PointerLoop {
    var grab: Xid
    var offset: Point
    var buttons: nat
    var entered: Xid
    var log: seq<Sent>
    ghost var run: seq<Input>

    ghost predicate Valid()
      reads this
    {
      Now() == State(Idle, run) && log == Log(Idle, run)
    }

    ghost function Now(): Locals
      reads this
    {
      Locals(grab, offset, buttons, entered)
    }

    constructor ()
      ensures Valid() && run == [] && log == [] && Now() == Idle
    {
      grab, offset, buttons, entered, log, run := 0, Point(0, 0), 0, 0, [], [];
    }

    method Cross(target: Xid)
      modifies this`entered, this`log
      ensures entered == target && log == old(log) + Crossing(old(entered), target)
    {
      if entered != target {
        if entered != 0 {
          log := log + [Leave(entered)];
        }
        log := log + [Enter(target)];
        entered := target;
      }
    }

    ghost method Record(i: Input)
      modifies this`run
      ensures run == old(run) + [i]
      ensures State(Idle, run) == After(State(Idle, old(run)), i)
      ensures Log(Idle, run) == Log(Idle, old(run)) + Sends(State(Idle, old(run)), i)
    {
      assert (run + [i])[..|run|] == run;
      run := run + [i];
    }

    // `hit` is the result of the hit test, or the redirection of an explicit
    // grab.
    method OnPress(button: nat, p: Point, hit: Target)
      requires Valid()
      modifies this
      ensures Valid() && run == old(run) + [Input(Press(button, p), hit)]
      ensures Now() == After(old(Now()), Input(Press(button, p), hit))
      ensures log == old(log) + Sends(old(Now()), Input(Press(button, p), hit))
    {
      if button < 4 {
        if buttons == 0 {
          grab := hit.window;
          offset := Wrap(Less(p, hit.at));
        }
        buttons := Min(buttons + 1, 255);
        Cross(hit.window);
      }
      log := log + [Button(hit.window, true, hit.at)];
      Record(Input(Press(button, p), hit));
    }

    method OnRelease(button: nat, p: Point, hit: Target)
      requires Valid()
      modifies this
      ensures Valid() && run == old(run) + [Input(Release(button, p), hit)]
      ensures Now() == After(old(Now()), Input(Release(button, p), hit))
      ensures log == old(log) + Sends(old(Now()), Input(Release(button, p), hit))
    {
      var t := if button < 4 && grab != 0 then Target(grab, Wrap(Less(p, offset))) else hit;
      log := log + [Button(t.window, false, t.at)];
      if button < 4 {
        buttons := Max(buttons - 1, 0);
        if buttons == 0 {
          grab := 0;
        }
      }
      Record(Input(Release(button, p), hit));
    }

    // A motion with no button held breaks a grab that missed its release.
    method OnMove(p: Point, held: bool, hit: Target)
      requires Valid()
      modifies this
      ensures Valid() && run == old(run) + [Input(Move(p, held), hit)]
      ensures Now() == After(old(Now()), Input(Move(p, held), hit))
      ensures log == old(log) + Sends(old(Now()), Input(Move(p, held), hit))
    {
      if grab != 0 && !held {
        grab := 0;
        buttons := 0;
      }
      var t := if grab != 0 then Target(grab, Wrap(Less(p, offset))) else hit;
      Cross(t.window);
      log := log + [Motion(t.window, t.at)];
      Record(Input(Move(p, held), hit));
    }
  }

  // ---------------------------------------------------------------------
  // Where the points of a drag are reported

  lemma {:induction false} StateFrom(s: Locals, first: Input, run: seq<Input>)
    ensures State(s, [first] + run) == State(After(s, first), run)
  {
    if run == [] {
      assert [first] + [] == [first] && [first][..0] == [];
      assert State(s, []) == s;
    } else {
      var n := |run| - 1;
      assert ([first] + run)[..n + 1] == [first] + run[..n];
      StateFrom(s, first, run[..n]);
    }
    hide After;
  }

  // A real press at p that nothing else holds, and the run after it up to
  // an event at which the grab may end.
  ghost predicate Drag(s: Locals, press: Input, run: seq<Input>) {
    && press.event.Press? && press.event.button < 4 && press.hit.window != 0
    && s.buttons == 0 && run != [] && KeptDown(1, run[..|run| - 1])
    && ToTheGrab(run[|run| - 1].event)
  }

  // A motion with a button held, or the release of a real button.
  predicate ToTheGrab(e: Event) {
    (e.Move? && e.held) || (e.Release? && e.button < 4)
  }

  // The last thing the loop sent, if it is a motion or a release.
  function Reported(log: seq<Sent>): Option<Target> {
    if log == [] then None
    else
      match log[|log| - 1]
      case Motion(w, at) => Some(Target(w, at))
      case Button(w, false, at) => Some(Target(w, at))
      case _ => None
  }

  // Whatever the hit tests say meanwhile, the point is reported to the window
  // pressed on, as far from where the press was reported as the pointer is
  // from where it was pressed.
  lemma {:induction false} DragFollows(s: Locals, press: Input, run: seq<Input>)
    requires Drag(s, press, run)
    ensures var later := run[|run| - 1].event.p;
      Reported(Log(s, [press] + run)) ==
        Some(Target(press.hit.window, Wrap(Plus(press.hit.at, Less(later, press.event.p)))))
    ensures run[|run| - 1].event.Move? ==> State(s, [press] + run).entered == press.hit.window
  {
    var n := |run| - 1;
    var few, last := run[..n], run[n];
    var s1 := After(s, press);
    StateFrom(s, press, few);
    DragLasts(s1, few);
    KeptNow(1, few);
    assert ([press] + run)[..n + 1] == [press] + few;
    var now := State(s1, few);
    assert now.grab == press.hit.window && now.offset == Wrap(Less(press.event.p, press.hit.at));
    assert State(s, [press] + run) == After(now, last);
    hide State, KeptDown;
    assert Log(s, [press] + run) == Log(s, [press] + few) + Sends(now, last);
    assert Reported(Sends(now, last)) == Some(Target(now.grab, Shifted(now, last.event.p)));
    hide Sends, Log, Wrap;
    OffsetCancels(last.event.p, press.event.p, press.hit.at);
  }

  lemma {:induction false} OffsetCancels(later: Point, p: Point, at: Point)
    ensures Wrap(Less(later, Wrap(Less(p, at)))) == Wrap(Plus(at, Less(later, p)))
  {
    CancelsAxis(later.x, p.x, at.x);
    CancelsAxis(later.y, p.y, at.y);
  }

  lemma CancelsAxis(later: int, p: int, at: int)
    ensures I16(later - I16(p - at)) == I16(at + (later - p))
  {
    var k := Turns(p - at);
    hide I16;
    assert later - I16(p - at) == at + (later - p) + 0x10000 * -k;
    SameTurn(at + (later - p), -k);
  }

  // The same point of the screen, given in the frames of two windows.
  ghost predicate SameOnScreen(m: Table, root: Xid, v: Xid, at: Point, w: Xid, p: Point)
    requires Tree(m, root) && IsWindow(m, v) && IsWindow(m, w)
  {
    Wrap(Plus(at, FromRoot(m, root, v))) == Wrap(Plus(p, FromRoot(m, root, w)))
  }

  // So when the press went to the window its point hit, every later point of
  // the drag is reported in that window's own frame, inside it or not.
  lemma {:induction false} DragStaysInFrame(m: Table, root: Xid, w: Xid, s: Locals, press: Input, run: seq<Input>)
    requires Tree(m, root) && IsWindow(m, w) && Drag(s, press, run) && Small(press.event.p)
    requires press.hit == Descend(m, w, press.event.p, HIT_LIMIT)
    ensures var sent := Reported(Log(s, [press] + run));
      && sent.Some? && sent.value.window == press.hit.window && IsWindow(m, sent.value.window)
      && SameOnScreen(m, root, sent.value.window, sent.value.at, w, run[|run| - 1].event.p)
  {
    DragFollows(s, press, run);
    HitInFrame(m, root, w, press.event.p);
    var p, later, at := press.event.p, run[|run| - 1].event.p, press.hit.at;
    var v, far := FromRoot(m, root, press.hit.window), FromRoot(m, root, w);
    hide Descend, Log, Drag, Wrap, Tree, FromRoot, Reported;
    MoveBoth(at, v, p, far, Less(later, p));
    assert Plus(p, Less(later, p)) == later;
  }

  // A hit test keeps the point of the screen.
  lemma {:induction false} HitInFrame(m: Table, root: Xid, w: Xid, p: Point)
    requires Tree(m, root) && IsWindow(m, w) && Small(p)
    ensures var t := Descend(m, w, p, HIT_LIMIT);
      IsWindow(m, t.window) && SameOnScreen(m, root, t.window, t.at, w, p)
  {
    var t := Descend(m, w, p, HIT_LIMIT);
    var k := DescendFacts(m, root, w, p, HIT_LIMIT);
    TargetIsWindow(m, root, w, p, HIT_LIMIT);
    FromRootSplit(m, root, t.window, k);
    var o, above := Offset(m, t.window, k), FromRoot(m, root, w);
    hide Descend, FromRoot, Tree, Offset, Wrap;
    WrapPlus(Less(p, o), Plus(o, above));
    assert Plus(Less(p, o), Plus(o, above)) == Plus(p, above);
  }

  lemma {:induction false} MoveBoth(at: Point, v: Point, p: Point, far: Point, step: Point)
    requires Wrap(Plus(at, v)) == Wrap(Plus(p, far))
    ensures Wrap(Plus(Wrap(Plus(at, step)), v)) == Wrap(Plus(Plus(p, step), far))
  {
    WrapPlus(Plus(at, step), v);
    WrapPlus(Plus(at, v), step);
    WrapPlus(Plus(p, far), step);
    hide Wrap;
    assert Plus(Plus(at, step), v) == Plus(Plus(at, v), step);
    assert Plus(Plus(p, step), far) == Plus(Plus(p, far), step);
  }

  predicate Enters(e: Event) { e.Move? || (e.Press? && e.button < 4) }

  // Presses, scrolling, and motions and releases without a grab go to the
  // window hit, after any run, at the same point of the screen; motions and
  // real presses enter it.
  lemma {:induction false} FreeInFrame(m: Table, root: Xid, w: Xid, run: seq<Input>)
    requires Tree(m, root) && IsWindow(m, w) && run != [] && Small(run[|run| - 1].event.p)
    requires var i := run[|run| - 1];
      && i.hit == Descend(m, w, i.event.p, HIT_LIMIT)
      && (i.event.Press? || !ToTheGrab(i.event) || State(Idle, run[..|run| - 1]).grab == 0)
    ensures var log := Log(Idle, run);
      && log != [] && IsWindow(m, log[|log| - 1].window)
      && (match log[|log| - 1]
          case Button(v, down, at) =>
            run[|run| - 1].event.Press? == down && run[|run| - 1].event.Release? == !down &&
            SameOnScreen(m, root, v, at, w, run[|run| - 1].event.p)
          case Motion(v, at) =>
            run[|run| - 1].event.Move? && SameOnScreen(m, root, v, at, w, run[|run| - 1].event.p)
          case _ => false)
      && (Enters(run[|run| - 1].event) ==> State(Idle, run).entered == log[|log| - 1].window)
  {
    var i := run[|run| - 1];
    HitInFrame(m, root, w, i.event.p);
    assert State(Idle, run) == After(State(Idle, run[..|run| - 1]), i);
    hide Descend, SameOnScreen, State;
    var sent := Sends(State(Idle, run[..|run| - 1]), i);
    assert sent[|sent| - 1] == if i.event.Move? then Motion(i.hit.window, i.hit.at)
                               else Button(i.hit.window, i.event.Press?, i.hit.at);
  }

  // I16 moves a value by whole turns of 2^16, and forgets them.
  lemma Turns(v: int) returns (q: int)
    ensures I16(v) == v + 0x10000 * q
  {
    q := -((v + 0x8000) / 0x10000);
  }

  lemma SameTurn(v: int, q: int)
    ensures I16(v + 0x10000 * q) == I16(v)
  {
  }
}
