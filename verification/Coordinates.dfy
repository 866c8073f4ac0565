// Walking coordinates through the window tree: translation, native offsets,
// hit testing and event propagation, all in wrapping 16-bit arithmetic.
module Coordinates {
  import opened Basics
  import opened WindowTree
  import WindowServer

  const WALK_LIMIT: nat := 32
  const HIT_LIMIT: nat := 16

  function Plus(a: Point, b: Point): Point { Point(a.x + b.x, a.y + b.y) }

  function Less(a: Point, b: Point): Point { Point(a.x - b.x, a.y - b.y) }

  function Wrap(p: Point): Point { Point(I16(p.x), I16(p.y)) }

  predicate Small(p: Point) {
    -0x8000 <= p.x < 0x8000 && -0x8000 <= p.y < 0x8000
  }

  function Origin(m: Table, w: Xid): Point {
    if IsWindow(m, w) then Point(m[w].win.geometry.x, m[w].win.geometry.y) else Point(0, 0)
  }

  lemma I16Sum(a: int, b: int)
    ensures I16(I16(a) + b) == I16(a + b)
  {
  }

  lemma WrapPlus(a: Point, b: Point)
    ensures Wrap(Plus(Wrap(a), b)) == Wrap(Plus(a, b))
    ensures Wrap(Less(Wrap(a), b)) == Wrap(Less(a, b))
  {
    I16Sum(a.x, b.x);
    I16Sum(a.y, b.y);
    I16Sum(a.x, -b.x);
    I16Sum(a.y, -b.y);
  }

  // The offset of w within the window n levels above it.
  ghost function Offset(m: Table, w: Xid, n: nat): Point
    decreases n
  {
    if n == 0 then Point(0, 0) else Plus(Origin(m, w), Offset(m, ParentOf(m, w), n - 1))
  }

  lemma {:induction false} OffsetAdd(m: Table, w: Xid, a: nat, b: nat)
    ensures Offset(m, w, a + b) == Plus(Offset(m, w, a), Offset(m, Up(m, w, a), b))
    decreases a
  {
    if a != 0 {
      OffsetAdd(m, ParentOf(m, w), a - 1, b);
    }
  }

  // ---------------------------------------------------------------------
  // Root coordinates and TranslateCoordinates

  function RootWalk(m: Table, root: Xid, w: Xid, n: nat): Point
    decreases n
  {
    if n == 0 || w == root || w == 0 || !IsWindow(m, w) then Point(0, 0)
    else Plus(Origin(m, w), RootWalk(m, root, ParentOf(m, w), n - 1))
  }

  method WindowToRootCoords(m: Table, root: Xid, wid: Xid) returns (abs: Point)
    ensures abs == RootWalk(m, root, wid, 32)
  {
    abs := Point(0, 0);
    var current := wid;
    var i := 0;
    while i < WALK_LIMIT
      invariant 0 <= i <= WALK_LIMIT
      invariant Plus(abs, RootWalk(m, root, current, WALK_LIMIT - i)) == RootWalk(m, root, wid, WALK_LIMIT)
    {
      if current == root || current == 0 {
        break;
      }
      if current !in m || !m[current].WindowRes? {
        break;
      }
      var g := m[current].win.geometry;
      abs := Point(abs.x + g.x, abs.y + g.y);
      current := m[current].win.parent;
      i := i + 1;
    }
  }

  // On a tree at most 32 levels deep the walk is the window's offset from
  // the root.
  lemma {:induction false} RootWalkIsOffset(m: Table, root: Xid, w: Xid, d: nat, n: nat)
    requires Tree(m, root) && IsWindow(m, w) && Up(m, w, d) == root && d <= n
    ensures RootWalk(m, root, w, n) == Offset(m, w, d)
    decreases d
  {
    if d != 0 {
      if w == root { DepthUnique(m, root, w, 0, d); }
      RootWalkIsOffset(m, root, ParentOf(m, w), d - 1, n - 1);
    } else {
      assert w == root;
    }
  }

  function Translated(m: Table, root: Xid, src: Xid, dst: Xid, p: Point): Point {
    Wrap(Less(Plus(p, RootWalk(m, root, src, WALK_LIMIT)), RootWalk(m, root, dst, WALK_LIMIT)))
  }

  method TranslateCoordinates(m: Table, root: Xid, src: Xid, dst: Xid, p: Point) returns (r: Point)
    ensures r == Translated(m, root, src, dst, p)
  {
    var a := WindowToRootCoords(m, root, src);
    var b := WindowToRootCoords(m, root, dst);
    r := Point(I16(p.x + a.x - b.x), I16(p.y + a.y - b.y));
  }

  // Translations compose and undo each other on every table, tree or not,
  // and through any amount of wrap-around.
  lemma {:induction false} TranslationLaws(m: Table, root: Xid, a: Xid, b: Xid, c: Xid, p: Point)
    requires Small(p)
    ensures Translated(m, root, b, c, Translated(m, root, a, b, p)) == Translated(m, root, a, c, p)
    ensures Translated(m, root, a, a, p) == p
    ensures Translated(m, root, b, a, Translated(m, root, a, b, p)) == p
  {
    var ra, rb := RootWalk(m, root, a, WALK_LIMIT), RootWalk(m, root, b, WALK_LIMIT);
    var rc := RootWalk(m, root, c, WALK_LIMIT);
    hide RootWalk;
    WrapTwice(Less(Plus(p, ra), rb), rb, rc);
    WrapTwice(Less(Plus(p, ra), rb), rb, ra);
  }

  lemma {:induction false} WrapTwice(v: Point, up: Point, down: Point)
    ensures Wrap(Less(Plus(Wrap(v), up), down)) == Wrap(Less(Plus(v, up), down))
  {
    WrapPlus(v, Less(up, down));
    assert Less(Plus(Wrap(v), up), down) == Plus(Wrap(v), Less(up, down));
    assert Less(Plus(v, up), down) == Plus(v, Less(up, down));
  }

  // ---------------------------------------------------------------------
  // Native offsets

  datatype Found = Found(handle: nat, at: Point)

  // The nearest native window from `current` up, adding origins on the way.
  function NativeWalk(m: Table, current: Xid, at: Point, n: nat): Option<Found>
    decreases n
  {
    if n == 0 || !IsWindow(m, current) then None
    else if m[current].win.native.Some? then Some(Found(m[current].win.native.value, at))
    else NativeWalk(m, ParentOf(m, current), Wrap(Plus(at, Origin(m, current))), n - 1)
  }

  // find_native_position: a position in the drawable's native window.
  method FindNativePosition(m: Table, drawable: Xid, p: Point) returns (r: Found)
    ensures r == NativePosition(m, drawable, p)
  {
    if drawable in m && m[drawable].WindowRes? {
      var w := m[drawable].win;
      if w.native.Some? {
        return Found(w.native.value, p);
      }
      var at := Wrap(Plus(p, Point(w.geometry.x, w.geometry.y)));
      var found := WalkToNative(m, w.parent, at);
      if found.Some? {
        return found.value;
      }
    }
    return Found(0, Point(0, 0));
  }

  function NativePosition(m: Table, drawable: Xid, p: Point): Found {
    if !IsWindow(m, drawable) then Found(0, Point(0, 0))
    else if m[drawable].win.native.Some? then Found(m[drawable].win.native.value, p)
    else
      match NativeWalk(m, ParentOf(m, drawable), Wrap(Plus(p, Origin(m, drawable))), WALK_LIMIT)
      case Some(f) => f
      case None => Found(0, Point(0, 0))
  }

  // The 32-step loop both walks share.
  method WalkToNative(m: Table, from: Xid, start: Point) returns (r: Option<Found>)
    ensures r == NativeWalk(m, from, start, WALK_LIMIT)
  {
    var current, at := from, start;
    for i := 0 to WALK_LIMIT
      invariant NativeWalk(m, current, at, WALK_LIMIT - i) == NativeWalk(m, from, start, WALK_LIMIT)
    {
      if current !in m || !m[current].WindowRes? {
        return None;
      }
      var w := m[current].win;
      if w.native.Some? {
        return Some(Found(w.native.value, at));
      }
      at := Wrap(Plus(at, Point(w.geometry.x, w.geometry.y)));
      current := w.parent;
    }
    r := None;
  }

  // dispatch_render_commands: the mailbox a window's commands go to and the
  // offset they are moved by; a native window's own commands are not moved.
  method DispatchTarget(m: Table, drawable: Xid) returns (r: Option<Found>)
    ensures r == Dispatch(m, drawable)
  {
    if drawable !in m || !m[drawable].WindowRes? {
      return None;
    }
    var w := m[drawable].win;
    if w.native.Some? {
      return Some(Found(w.native.value, Point(0, 0)));
    }
    r := WalkToNative(m, w.parent, Point(w.geometry.x, w.geometry.y));
  }

  function Dispatch(m: Table, drawable: Xid): Option<Found> {
    if !IsWindow(m, drawable) then None
    else if m[drawable].win.native.Some? then Some(Found(m[drawable].win.native.value, Point(0, 0)))
    else NativeWalk(m, ParentOf(m, drawable), Origin(m, drawable), WALK_LIMIT)
  }

  lemma {:induction false} NativeWalkShift(m: Table, w: Xid, at: Point, p: Point, n: nat)
    ensures var f, g := NativeWalk(m, w, at, n), NativeWalk(m, w, Wrap(Plus(at, p)), n);
      f.Some? == g.Some? && (f.Some? ==> g.value.handle == f.value.handle && g.value.at == Wrap(Plus(f.value.at, p)))
    decreases n
  {
    if n != 0 && IsWindow(m, w) && m[w].win.native.None? {
      var o := Origin(m, w);
      WrapPlus(Plus(at, p), o);
      WrapPlus(Plus(at, o), p);
      assert Plus(Plus(at, p), o) == Plus(Plus(at, o), p);
      NativeWalkShift(m, ParentOf(m, w), Wrap(Plus(at, o)), p, n - 1);
    }
  }

  // The position of a drawable's pixel in its native window is the pixel
  // moved by the offset its render commands get, on every table.
  lemma {:induction false} WalksAgree(m: Table, drawable: Xid, p: Point)
    requires Small(p) && Small(Origin(m, drawable))
    ensures match Dispatch(m, drawable)
      case Some(f) => NativePosition(m, drawable, p) == Found(f.handle, Wrap(Plus(f.at, p)))
      case None => NativePosition(m, drawable, p) == Found(0, Point(0, 0))
  {
    if IsWindow(m, drawable) && m[drawable].win.native.None? {
      var o := Origin(m, drawable);
      assert Wrap(o) == o && Plus(o, p) == Plus(p, o);
      NativeWalkShift(m, ParentOf(m, drawable), o, p, WALK_LIMIT);
    }
  }

  // The walk stops at the first native window above, and what it added up is
  // the offset within that window.
  lemma {:induction false} NativeWalkOffset(m: Table, w: Xid, at: Point, n: nat) returns (k: nat)
    requires NativeWalk(m, w, at, n).Some?
    ensures k < n && IsWindow(m, Up(m, w, k)) && m[Up(m, w, k)].win.native == Some(NativeWalk(m, w, at, n).value.handle)
    ensures forall i: nat :: i < k ==> IsWindow(m, Up(m, w, i)) && m[Up(m, w, i)].win.native.None?
    ensures Wrap(NativeWalk(m, w, at, n).value.at) == Wrap(Plus(at, Offset(m, w, k)))
    decreases n
  {
    if m[w].win.native.Some? {
      k := 0;
      assert Up(m, w, 0) == w;
    } else {
      var o := Origin(m, w);
      k := NativeWalkOffset(m, ParentOf(m, w), Wrap(Plus(at, o)), n - 1);
      var rest := Offset(m, ParentOf(m, w), k);
      WrapPlus(Plus(at, o), rest);
      assert Plus(Plus(at, o), rest) == Plus(at, Offset(m, w, k + 1));
      forall i: nat | i < k + 1 ensures IsWindow(m, Up(m, w, i)) && m[Up(m, w, i)].win.native.None? {
        if i != 0 { assert Up(m, w, i) == Up(m, ParentOf(m, w), i - 1); }
      }
      assert Up(m, w, k + 1) == Up(m, ParentOf(m, w), k);
      k := k + 1;
    }
  }

  // ---------------------------------------------------------------------
  // Hit testing

  // The server's test of a point against a child, with its casts.
  predicate Hits(m: Table, c: Xid, p: Point) {
    IsWindow(m, c) && m[c].win.mapped &&
    var g := m[c].win.geometry;
    SpanHit(g.x, g.width, p.x) && SpanHit(g.y, g.height, p.y)
  }

  // Along one axis: the test with its casts, and the pixels really covered.
  predicate SpanHit(x: int, width: nat, p: int) {
    x <= p < I16(x + I16(width))
  }

  predicate InSpan(x: int, width: nat, p: int) {
    x <= p < x + width
  }

  // The test is exact for a span exactly when the span ends within 16 bits;
  // a window reaching further cannot be hit at all.
  lemma {:induction false} SpanExact(x: int, width: nat)
    requires -0x8000 <= x < 0x8000 && width < 0x10000
    ensures (forall p :: -0x8000 <= p < 0x8000 ==> (SpanHit(x, width, p) <==> InSpan(x, width, p)))
            <==> x + width < 0x8000
    ensures 0x8000 <= x + width ==> forall p :: !SpanHit(x, width, p)
  {
    assert I16(x + I16(width)) == I16(x + width);
    if 0x8000 <= x + width {
      assert !SpanHit(x, width, x) && InSpan(x, width, x);
    }
  }

  // The topmost hit: children are tried last to first.
  function TopHit(m: Table, kids: seq<Xid>, p: Point): (r: Option<Xid>)
    ensures r.Some? ==> r.value in kids && Hits(m, r.value, p)
    ensures r.None? ==> forall c :: c in kids ==> !Hits(m, c, p)
  {
    if kids == [] then None
    else if Hits(m, kids[|kids| - 1], p) then Some(kids[|kids| - 1])
    else TopHit(m, kids[..|kids| - 1], p)
  }

  datatype Target = Target(window: Xid, at: Point)

  function Descend(m: Table, w: Xid, p: Point, n: nat): Target
    decreases n
  {
    if n == 0 then Target(w, p)
    else
      match TopHit(m, Kids(m, w), p)
      case None => Target(w, p)
      case Some(c) => Descend(m, c, Wrap(Less(p, Origin(m, c))), n - 1)
  }

  method TestHit(m: Table, c: Xid, at: Point) returns (hit: bool)
    ensures hit == Hits(m, c, at)
  {
    hit := false;
    if c in m && m[c].WindowRes? && m[c].win.mapped {
      var g := m[c].win.geometry;
      var x2, y2 := I16(g.x + I16(g.width)), I16(g.y + I16(g.height));
      hit := at.x >= g.x && at.x < x2 && at.y >= g.y && at.y < y2;
    }
  }

  method FindTopHit(m: Table, children: seq<Xid>, at: Point) returns (found: Option<Xid>)
    ensures found == TopHit(m, children, at)
  {
    hide Hits;
    var i := |children|;
    assert children[..i] == children;
    while i > 0
      invariant 0 <= i <= |children|
      invariant TopHit(m, children, at) == TopHit(m, children[..i], at)
    {
      i := i - 1;
      var c := children[i];
      assert children[..i + 1][..i] == children[..i];
      var hit := TestHit(m, c, at);
      if hit {
        return Some(c);
      }
    }
    found := None;
  }

  method FindChildAtPoint(m: Table, window: Xid, p: Point) returns (t: Target)
    ensures t == Descend(m, window, p, 16)
  {
    hide Wrap, TopHit, Hits;
    var current, at := window, p;
    var depth := 0;
    while depth < HIT_LIMIT
      invariant 0 <= depth <= HIT_LIMIT
      invariant Descend(m, current, at, HIT_LIMIT - depth) == Descend(m, window, p, HIT_LIMIT)
    {
      var children := if current in m && m[current].WindowRes? then m[current].win.children else [];
      var found := FindTopHit(m, children, at);
      TopHitIsWindow(m, children, at);
      if found.None? {
        break;
      }
      var c := found.value;
      at := Wrap(Point(at.x - m[c].win.geometry.x, at.y - m[c].win.geometry.y));
      current := c;
      depth := depth + 1;
    }
    t := Target(current, at);
  }

  lemma {:induction false} TopHitIsWindow(m: Table, children: seq<Xid>, at: Point)
    ensures var hit := TopHit(m, children, at); hit.Some? ==> IsWindow(m, hit.value)
  {
    if children != [] { TopHitIsWindow(m, children[..|children| - 1], at); }
  }

  // The point p of window w as seen from a window n levels below it.
  ghost function Seen(m: Table, below: Xid, n: nat, p: Point): Point {
    Wrap(Less(p, Offset(m, below, n)))
  }

  lemma {:induction false} SeenThrough(m: Table, below: Xid, n: nat, c: Xid, p: Point)
    requires Up(m, below, n) == c
    ensures Seen(m, below, n, Wrap(Less(p, Origin(m, c)))) == Seen(m, below, n + 1, p)
  {
    OffsetAdd(m, below, n, 1);
    OffsetOne(m, c);
    WrapLessTwice(p, Origin(m, c), Offset(m, below, n));
    hide Wrap, Less, Plus, Origin, Offset;
  }

  lemma OffsetOne(m: Table, c: Xid)
    ensures Offset(m, c, 1) == Origin(m, c)
  {
    assert Offset(m, ParentOf(m, c), 0) == Point(0, 0);
  }

  lemma {:induction false} WrapLessTwice(p: Point, a: Point, b: Point)
    ensures Wrap(Less(Wrap(Less(p, a)), b)) == Wrap(Less(p, Plus(b, a)))
  {
    WrapPlus(Less(p, a), b);
    assert Less(Less(p, a), b) == Less(p, Plus(b, a));
  }

  // The window i levels above the target (w being k levels above) is the
  // topmost child of its parent hit by the point.
  ghost predicate ReachedByHit(m: Table, target: Xid, i: nat, p: Point, k: nat)
    requires i < k
  {
    var parent := Up(m, target, i + 1);
    TopHit(m, Kids(m, parent), Seen(m, parent, k - i - 1, p)) == Some(Up(m, target, i))
  }

  ghost predicate AllReached(m: Table, target: Xid, p: Point, k: nat) {
    forall i: nat :: i < k ==> ReachedByHit(m, target, i, p, k)
  }

  lemma {:induction false} ReachedFrame(m: Table, target: Xid, c: Xid, p: Point, k: nat)
    requires Up(m, target, k) == c && Small(p)
    requires TopHit(m, Kids(m, ParentOf(m, c)), p) == Some(c)
    requires AllReached(m, target, Wrap(Less(p, Origin(m, c))), k)
    ensures AllReached(m, target, p, k + 1)
  {
    hide TopHit;
    var top := k + 1;
    forall i: nat | i < top ensures ReachedByHit(m, target, i, p, top) {
      var parent := Up(m, target, i + 1);
      UpOne(m, target, i);
      if i == k {
        assert Offset(m, parent, 0) == Point(0, 0);
        assert Seen(m, parent, 0, p) == p;
      } else {
        assert ReachedByHit(m, target, i, Wrap(Less(p, Origin(m, c))), k);
        UpAdd(m, target, i + 1, k - i - 1);
        SeenThrough(m, parent, k - i - 1, c, p);
      }
    }
  }

  // The target is reached through topmost hits only, its coordinates are the
  // point less its offset, and unless the depth limit cut the search no
  // child of it is hit.
  lemma {:induction false} DescendFacts(m: Table, root: Xid, w: Xid, p: Point, n: nat) returns (k: nat)
    requires Tree(m, root) && Small(p)
    ensures var t := Descend(m, w, p, n);
      && k <= n && Up(m, t.window, k) == w && Small(t.at)
      && t.at == Seen(m, t.window, k, p)
      && AllReached(m, t.window, p, k)
      && (k < n ==> forall c :: c in Kids(m, t.window) ==> !Hits(m, c, t.at))
    decreases n
  {
    hide Hits;
    var t := Descend(m, w, p, n);
    k := 0;
    assert Offset(m, w, 0) == Point(0, 0) && Seen(m, w, 0, p) == p;
    if n != 0 {
      var hit := TopHit(m, Kids(m, w), p);
      if hit.Some? {
        var c := hit.value;
        var inner := Wrap(Less(p, Origin(m, c)));
        k := DescendFacts(m, root, c, inner, n - 1);
        assert ParentOf(m, c) == w;
        hide Tree, TopHit, Seen, AllReached;
        UpOne(m, t.window, k);
        SeenThrough(m, t.window, k, c, p);
        ReachedFrame(m, t.window, c, p, k);
        k := k + 1;
      }
    }
  }

  // Positions and sizes are INT16 and CARD16.
  ghost predicate FieldsFit(m: Table) {
    forall c {:trigger IsWindow(m, c)} :: IsWindow(m, c) ==>
      var g := m[c].win.geometry;
      Small(Point(g.x, g.y)) && g.width < 0x10000 && g.height < 0x10000
  }

  // The child is mapped and covers the point of its parent.
  predicate Contains(m: Table, c: Xid, p: Point) {
    IsWindow(m, c) && m[c].win.mapped &&
    var g := m[c].win.geometry;
    InSpan(g.x, g.width, p.x) && InSpan(g.y, g.height, p.y)
  }

  // Its right and bottom edges have 16-bit coordinates.
  predicate FarEdgesFit(m: Table, c: Xid) {
    IsWindow(m, c) &&
    var g := m[c].win.geometry;
    g.x + g.width < 0x8000 && g.y + g.height < 0x8000
  }

  lemma {:induction false} HitsExactly(m: Table, c: Xid, p: Point)
    requires FieldsFit(m) && Small(p)
    ensures Hits(m, c, p) <==> Contains(m, c, p) && FarEdgesFit(m, c)
  {
    if IsWindow(m, c) {
      var g := m[c].win.geometry;
      SpanExact(g.x, g.width);
      SpanExact(g.y, g.height);
      hide SpanHit, InSpan;
    }
  }

  lemma {:induction false} TopHitIsLast(m: Table, kids: seq<Xid>, p: Point) returns (j: nat)
    requires TopHit(m, kids, p).Some?
    ensures j < |kids| && kids[j] == TopHit(m, kids, p).value && Hits(m, kids[j], p)
    ensures forall i :: j < i < |kids| ==> !Hits(m, kids[i], p)
  {
    hide Hits;
    j := |kids| - 1;
    if !Hits(m, kids[j], p) { j := TopHitIsLast(m, kids[..j], p); }
  }

  // c contains the point, and no child listed above it does that can be hit.
  ghost predicate Topmost(m: Table, kids: seq<Xid>, c: Xid, p: Point) {
    Contains(m, c, p) && FarEdgesFit(m, c) &&
    exists j :: 0 <= j < |kids| && kids[j] == c &&
      forall i :: j < i < |kids| && FarEdgesFit(m, kids[i]) ==> !Contains(m, kids[i], p)
  }

  // The windows from the target up to w each contain the point, in their
  // parent's frame, and are the topmost to do so; and unless the search was
  // cut at 16 levels no child of the target that can be hit contains it.
  lemma {:induction false} TargetExactly(m: Table, root: Xid, w: Xid, p: Point) returns (k: nat)
    requires Tree(m, root) && FieldsFit(m) && Small(p)
    ensures var t := Descend(m, w, p, HIT_LIMIT);
      && k <= 16 && Up(m, t.window, k) == w && t.at == Seen(m, t.window, k, p)
      && (forall i: nat :: i < k ==> var parent := Up(m, t.window, i + 1);
            Topmost(m, Kids(m, parent), Up(m, t.window, i), Seen(m, parent, k - i - 1, p)))
      && (k < 16 ==> forall c :: c in Kids(m, t.window) && FarEdgesFit(m, c) ==> !Contains(m, c, t.at))
  {
    k := DescendFacts(m, root, w, p, HIT_LIMIT);
    var t := Descend(m, w, p, HIT_LIMIT);
    hide Hits, Contains, FarEdgesFit, Tree, TopHit, Descend;
    forall i: nat | i < k ensures var parent := Up(m, t.window, i + 1);
      Topmost(m, Kids(m, parent), Up(m, t.window, i), Seen(m, parent, k - i - 1, p))
    {
      assert ReachedByHit(m, t.window, i, p, k);
      var parent := Up(m, t.window, i + 1);
      TopHitIsTopmost(m, Kids(m, parent), Seen(m, parent, k - i - 1, p));
    }
    forall c | c in Kids(m, t.window) && k < 16 ensures !(FarEdgesFit(m, c) && Contains(m, c, t.at)) {
      HitsExactly(m, c, t.at);
    }
  }

  lemma {:induction false} TopHitIsTopmost(m: Table, kids: seq<Xid>, p: Point)
    requires FieldsFit(m) && Small(p) && TopHit(m, kids, p).Some?
    ensures Topmost(m, kids, TopHit(m, kids, p).value, p)
  {
    hide Hits, Contains, FarEdgesFit;
    var j := TopHitIsLast(m, kids, p);
    forall i ensures 0 <= i < |kids| ==>
      (Hits(m, kids[i], p) <==> Contains(m, kids[i], p) && FarEdgesFit(m, kids[i]))
    {
      if 0 <= i < |kids| { HitsExactly(m, kids[i], p); }
    }
  }

  // ---------------------------------------------------------------------
  // Propagation

  predicate HasBit(mask: nat, bit: nat)
    requires bit != 0
  {
    (mask / bit) % 2 == 1
  }

  // The connection of the first selection that wants the event.
  function FirstMatch(selections: seq<(nat, nat)>, wants: nat -> bool): Option<nat> {
    if selections == [] then None
    else if wants(selections[0].1) then Some(selections[0].0)
    else FirstMatch(selections[1..], wants)
  }

  lemma {:induction false} FirstMatchIs(selections: seq<(nat, nat)>, wants: nat -> bool) returns (i: nat)
    ensures i <= |selections| && forall k :: 0 <= k < i ==> !wants(selections[k].1)
    ensures FirstMatch(selections, wants).None? <==> i == |selections|
    ensures i < |selections| ==>
      wants(selections[i].1) && FirstMatch(selections, wants) == Some(selections[i].0)
  {
    if selections == [] || wants(selections[0].1) {
      i := 0;
    } else {
      i := FirstMatchIs(selections[1..], wants);
      i := i + 1;
    }
  }

  // The connection named by the selection that takes an event at w; 0 is no
  // window here, even when the table holds one.
  function Client(m: Table, w: Xid, wants: nat -> bool): Option<nat> {
    if w != 0 && IsWindow(m, w) then FirstMatch(m[w].win.selections, wants) else None
  }

  datatype Delivery = Delivery(client: nat, window: Xid, child: Xid, at: Point)

  // Up to the nearest window with a matching selection. Its first one takes
  // the event, even from a connection that is gone.
  function PropagateFrom(m: Table, live: set<nat>, w: Xid, child: Xid, at: Point, wants: nat -> bool, n: nat)
    : Option<Delivery>
    decreases n
  {
    if n == 0 || w == 0 || !IsWindow(m, w) then None
    else
      match Client(m, w, wants)
      case Some(client) => if client in live then Some(Delivery(client, w, child, at)) else None
      case None => PropagateFrom(m, live, ParentOf(m, w), w, Wrap(Plus(at, Origin(m, w))), wants, n - 1)
  }

  // The loop of send_button_event and send_motion_event.
  method Propagate(m: Table, live: set<nat>, target: Xid, p: Point, wants: nat -> bool) returns (r: Option<Delivery>)
    ensures r == PropagateFrom(m, live, target, 0, p, wants, WALK_LIMIT)
  {
    var current, child, at := target, 0, p;
    var i := 0;
    while i < WALK_LIMIT
      invariant 0 <= i <= WALK_LIMIT
      invariant PropagateFrom(m, live, current, child, at, wants, WALK_LIMIT - i) ==
                PropagateFrom(m, live, target, 0, p, wants, WALK_LIMIT)
    {
      if current == 0 || current !in m || !m[current].WindowRes? {
        return None;
      }
      var w := m[current].win;
      var j := 0;
      while j < |w.selections|
        invariant 0 <= j <= |w.selections|
        invariant FirstMatch(w.selections[j..], wants) == FirstMatch(w.selections, wants)
      {
        if wants(w.selections[j].1) {
          r := if w.selections[j].0 in live then Some(Delivery(w.selections[j].0, current, child, at)) else None;
          return;
        }
        j := j + 1;
      }
      child := current;
      at := Wrap(Point(at.x + w.geometry.x, at.y + w.geometry.y));
      current := w.parent;
      i := i + 1;
    }
    r := None;
  }

  const BUTTON_PRESS_MASK: nat := 0x4
  const BUTTON_RELEASE_MASK: nat := 0x8

  method SendButtonEvent(m: Table, live: set<nat>, press: bool, window: Xid, p: Point) returns (r: Option<Delivery>)
    ensures r == PropagateFrom(m, live, window, 0, p, (mask: nat) => HasBit(mask, if press then 0x4 else 0x8), 32)
  {
    r := Propagate(m, live, window, p,
      (mask: nat) => HasBit(mask, if press then BUTTON_PRESS_MASK else BUTTON_RELEASE_MASK));
  }

  // A motion mask matches outright, or for any button held, or for a
  // particular one.
  function WantsMotion(held: set<nat>): nat -> bool {
    (mask: nat) =>
      || HasBit(mask, 0x40)
      || (HasBit(mask, 0x2000) && held != {})
      || (HasBit(mask, 0x100) && 1 in held)
      || (HasBit(mask, 0x200) && 2 in held)
      || (HasBit(mask, 0x400) && 3 in held)
      || (HasBit(mask, 0x800) && 4 in held)
      || (HasBit(mask, 0x1000) && 5 in held)
  }

  function Power(k: nat): nat { if k == 0 then 1 else 2 * Power(k - 1) }

  // The bits of an event mask that select a motion: PointerMotion, ButtonMotion
  // while any button is held, Button1Motion to Button5Motion while that one is.
  predicate MotionBit(k: nat, held: set<nat>) {
    k == 6 || (k == 13 && held != {}) || (8 <= k <= 12 && k - 7 in held)
  }

  lemma {:induction false} MotionMasks(mask: nat, held: set<nat>)
    ensures WantsMotion(held)(mask) <==>
      exists k: nat :: MotionBit(k, held) && (mask / Power(k)) % 2 == 1
  {
    assert Power(6) == 0x40 && Power(7) == 0x80 && Power(8) == 0x100 && Power(9) == 0x200;
    assert Power(10) == 0x400 && Power(11) == 0x800 && Power(12) == 0x1000 && Power(13) == 0x2000;
  }

  method SendMotionEvent(m: Table, live: set<nat>, window: Xid, p: Point, held: set<nat>)
    returns (r: Option<Delivery>)
    ensures r == PropagateFrom(m, live, window, 0, p, WantsMotion(held), 32)
  {
    r := Propagate(m, live, window, p, WantsMotion(held));
  }

  // The window j parents up is the nearest one with a matching selection, and
  // the way there does not pass 0.
  ghost predicate Nearest(m: Table, from: Xid, wants: nat -> bool, j: nat) {
    && Client(m, Up(m, from, j), wants).Some?
    && forall i: nat :: i < j ==> Up(m, from, i) != 0 && Client(m, Up(m, from, i), wants).None?
  }

  lemma {:induction false} NearestUp(m: Table, w: Xid, wants: nat -> bool, j: nat)
    requires j != 0
    ensures Nearest(m, w, wants, j) <==>
      w != 0 && Client(m, w, wants).None? && Nearest(m, ParentOf(m, w), wants, j - 1)
  {
    assert Up(m, w, j) == Up(m, ParentOf(m, w), j - 1) && Up(m, w, 0) == w;
    forall i: nat | 0 < i < j ensures Up(m, w, i) == Up(m, ParentOf(m, w), i - 1) {}
    if Nearest(m, w, wants, j) {
      forall i: nat | i < j - 1
        ensures Up(m, ParentOf(m, w), i) != 0 && Client(m, Up(m, ParentOf(m, w), i), wants).None?
      {
        assert Up(m, w, i + 1) == Up(m, ParentOf(m, w), i);
      }
    }
  }

  // An event that is delivered goes to the nearest ancestor with a matching
  // selection and to the connection of its first one, names that window's
  // child on the way to the target, and carries the target's point moved by
  // the target's offset in it.
  lemma {:induction false} PropagateFacts(m: Table, live: set<nat>, w: Xid, child: Xid, at: Point,
                                          wants: nat -> bool, n: nat) returns (j: nat)
    requires PropagateFrom(m, live, w, child, at, wants, n).Some? && Small(at)
    ensures var d := PropagateFrom(m, live, w, child, at, wants, n).value;
      && j < n && Nearest(m, w, wants, j)
      && d.window == Up(m, w, j) && Client(m, d.window, wants) == Some(d.client) && d.client in live
      && d.child == (if j == 0 then child else Up(m, w, j - 1))
      && d.at == Wrap(Plus(at, Offset(m, w, j)))
    decreases n
  {
    if Client(m, w, wants).Some? {
      j := 0;
      assert Up(m, w, 0) == w;
    } else {
      var o := Origin(m, w);
      j := PropagateFacts(m, live, ParentOf(m, w), w, Wrap(Plus(at, o)), wants, n - 1);
      var rest := Offset(m, ParentOf(m, w), j);
      WrapPlus(Plus(at, o), rest);
      assert Plus(Plus(at, o), rest) == Plus(at, Offset(m, w, j + 1));
      NearestUp(m, w, wants, j + 1);
      assert Up(m, w, j + 1) == Up(m, ParentOf(m, w), j);
      assert j != 0 ==> Up(m, w, j) == Up(m, ParentOf(m, w), j - 1);
      j := j + 1;
    }
  }

  // Of the windows within n steps none has a matching selection, or the first
  // one of the nearest that has any belongs to a connection that is gone.
  ghost predicate Lost(m: Table, live: set<nat>, w: Xid, wants: nat -> bool, n: nat) {
    forall j: nat :: j < n && Nearest(m, w, wants, j) ==> Client(m, Up(m, w, j), wants).value !in live
  }

  lemma {:induction false} PropagateLoses(m: Table, live: set<nat>, w: Xid, child: Xid, at: Point,
                                          wants: nat -> bool, n: nat)
    ensures PropagateFrom(m, live, w, child, at, wants, n).None? <==> Lost(m, live, w, wants, n)
    decreases n
  {
    hide Lost, Client, Wrap;
    if n == 0 {
      LostAtLimit(m, live, w, wants);
    } else {
      LostHere(m, live, w, wants, n);
      if w != 0 && IsWindow(m, w) && Client(m, w, wants).None? {
        PropagateLoses(m, live, ParentOf(m, w), w, Wrap(Plus(at, Origin(m, w))), wants, n - 1);
      }
    }
  }

  lemma LostAtLimit(m: Table, live: set<nat>, w: Xid, wants: nat -> bool)
    ensures Lost(m, live, w, wants, 0)
  {
  }

  lemma {:induction false} LostHere(m: Table, live: set<nat>, w: Xid, wants: nat -> bool, n: nat)
    requires n != 0
    ensures Lost(m, live, w, wants, n) <==>
      || w == 0 || !IsWindow(m, w)
      || (if Client(m, w, wants).Some? then Client(m, w, wants).value !in live
          else Lost(m, live, ParentOf(m, w), wants, n - 1))
  {
    var up := ParentOf(m, w);
    assert Up(m, w, 0) == w;
    forall j: nat ensures Up(m, w, j + 1) == Up(m, up, j) {}
    forall j: nat | 0 < j
      ensures Nearest(m, w, wants, j) <==> w != 0 && Client(m, w, wants).None? && Nearest(m, up, wants, j - 1)
    {
      NearestUp(m, w, wants, j);
    }
    if w == 0 || !IsWindow(m, w) {
      forall j: nat | j < n ensures !Nearest(m, w, wants, j) {
        if j != 0 { NoneAtZero(m, wants, j - 1); }
      }
    } else if Client(m, w, wants).Some? {
      assert Nearest(m, w, wants, 0);
    } else {
      if Lost(m, live, w, wants, n) {
        forall j: nat | j < n - 1 && Nearest(m, up, wants, j) ensures Client(m, Up(m, up, j), wants).value !in live {
          assert Nearest(m, w, wants, j + 1);
        }
      }
      if Lost(m, live, up, wants, n - 1) {
        forall j: nat | j < n && Nearest(m, w, wants, j) ensures Client(m, Up(m, w, j), wants).value !in live {
          assert Nearest(m, up, wants, j - 1);
        }
      }
    }
  }

  lemma NoneAtZero(m: Table, wants: nat -> bool, j: nat)
    ensures !Nearest(m, 0, wants, j)
  {
    assert Up(m, 0, 0) == 0;
  }

  // A window of client 8 on which both it and client 7 select ButtonPress,
  // 7 first.
  function Shared(g: Geometry, w: Xid): Table {
    var m := WindowServer.Selecting(Created(WindowServer.Start(g), w, 1, g, []), w, 7, BUTTON_PRESS_MASK);
    WindowServer.Selecting(m, w, 8, BUTTON_PRESS_MASK)
  }

  // When 7 leaves, its entry stays, and swallows every press on the window
  // that 8 selected.
  lemma {:induction false} DepartedSwallows(g: Geometry, p: Point)
    ensures var w := WindowServer.BaseOf(1) + 1;
      var m := WindowServer.Apply(Shared(g, w), 1, WindowServer.Disconnect(WindowServer.BaseOf(0)));
      var press := (mask: nat) => HasBit(mask, BUTTON_PRESS_MASK);
      && IsWindow(m, w) && (8, BUTTON_PRESS_MASK) in m[w].win.selections
      && PropagateFrom(m, {7, 8}, w, 0, p, press, WALK_LIMIT) == Some(Delivery(7, w, 0, p))
      && PropagateFrom(m, {8}, w, 0, p, press, WALK_LIMIT) == None
  {
    var w := WindowServer.BaseOf(1) + 1;
    var m := Shared(g, w);
    WindowServer.FirstBlocks();
    forall x | x in m ensures !WindowServer.Owned(WindowServer.BaseOf(0), x) {
      assert x == 1 || x == w;
    }
    WindowServer.NothingOwned(m, 1, WindowServer.BaseOf(0));
    var entries := m[w].win.selections;
    WindowServer.ChosenAt([], 7, BUTTON_PRESS_MASK, 0);
    WindowServer.ChosenAt([(7, BUTTON_PRESS_MASK)], 8, BUTTON_PRESS_MASK, 1);
    assert entries == [(7, BUTTON_PRESS_MASK), (8, BUTTON_PRESS_MASK)];
    assert entries[1] in entries;
  }

  // The offset of a window from the root of a tree.
  ghost function FromRoot(m: Table, root: Xid, w: Xid): Point
    requires Tree(m, root) && IsWindow(m, w)
  {
    assert Below(m, w, root);
    var d: nat :| Up(m, w, d) == root;
    Offset(m, w, d)
  }

  lemma {:induction false} FromRootSplit(m: Table, root: Xid, w: Xid, k: nat)
    requires Tree(m, root) && IsWindow(m, w) && IsWindow(m, Up(m, w, k))
    ensures FromRoot(m, root, w) == Plus(Offset(m, w, k), FromRoot(m, root, Up(m, w, k)))
  {
    assert Below(m, w, root) && Below(m, Up(m, w, k), root);
    var d: nat :| Up(m, w, d) == root && FromRoot(m, root, w) == Offset(m, w, d);
    var e: nat :| Up(m, Up(m, w, k), e) == root && FromRoot(m, root, Up(m, w, k)) == Offset(m, Up(m, w, k), e);
    UpAdd(m, w, k, e);
    DepthUnique(m, root, w, d, k + e);
    OffsetAdd(m, w, k, e);
  }

  // Positions add up from the root, by the fields of each window's record.
  lemma {:induction false} FromRootSteps(m: Table, root: Xid, w: Xid)
    requires Tree(m, root) && IsWindow(m, w)
    ensures FromRoot(m, root, root) == Point(0, 0)
    ensures w != root ==> IsWindow(m, m[w].win.parent)
    ensures w != root ==>
      var g, above := m[w].win.geometry, FromRoot(m, root, m[w].win.parent);
      FromRoot(m, root, w) == Point(above.x + g.x, above.y + g.y)
  {
    assert Up(m, root, 0) == root;
    FromRootIs(m, root, root, 0);
    if w != root {
      assert Up(m, w, 1) == Up(m, ParentOf(m, w), 0);
      FromRootSplit(m, root, w, 1);
      OffsetOne(m, w);
    }
  }

  // Between windows at most 32 levels deep, a translated point is the same
  // point of the screen.
  lemma {:induction false} TranslationOnScreen(m: Table, root: Xid, a: Xid, b: Xid, p: Point, da: nat, db: nat)
    requires Tree(m, root) && IsWindow(m, a) && IsWindow(m, b)
    requires Up(m, a, da) == root && Up(m, b, db) == root && da <= 32 && db <= 32
    ensures Wrap(Plus(Translated(m, root, a, b, p), FromRoot(m, root, b))) == Wrap(Plus(p, FromRoot(m, root, a)))
  {
    RootWalkIsOffset(m, root, a, da, 32);
    RootWalkIsOffset(m, root, b, db, 32);
    FromRootIs(m, root, a, da);
    FromRootIs(m, root, b, db);
    var x, y := FromRoot(m, root, a), FromRoot(m, root, b);
    hide FromRoot, Offset, Tree, Wrap, RootWalk;
    WrapPlus(Less(Plus(p, x), y), y);
    assert Plus(Less(Plus(p, x), y), y) == Plus(p, x);
  }

  lemma {:induction false} FromRootIs(m: Table, root: Xid, w: Xid, d: nat)
    requires Tree(m, root) && IsWindow(m, w) && Up(m, w, d) == root
    ensures FromRoot(m, root, w) == Offset(m, w, d)
  {
    assert Below(m, w, root);
    var e: nat :| Up(m, w, e) == root && FromRoot(m, root, w) == Offset(m, w, e);
    DepthUnique(m, root, w, d, e);
  }

  // The offset a window's render commands are moved by is its distance, on
  // the screen, from the native window that receives them.
  lemma {:induction false} DispatchIsRootDistance(m: Table, root: Xid, drawable: Xid) returns (native: Xid)
    requires Tree(m, root) && Dispatch(m, drawable).Some?
    ensures IsWindow(m, drawable) && IsWindow(m, native) && Below(m, drawable, native)
    ensures var f := Dispatch(m, drawable).value;
      && m[native].win.native == Some(f.handle)
      && Wrap(f.at) == Wrap(Less(FromRoot(m, root, drawable), FromRoot(m, root, native)))
  {
    var k := 0;
    if m[drawable].win.native.None? {
      var above := ParentOf(m, drawable);
      k := NativeWalkOffset(m, above, Origin(m, drawable), WALK_LIMIT);
      assert Offset(m, drawable, k + 1) == Plus(Origin(m, drawable), Offset(m, above, k));
      assert Up(m, drawable, k + 1) == Up(m, above, k);
      k := k + 1;
    } else {
      assert Up(m, drawable, 0) == drawable && Offset(m, drawable, 0) == Point(0, 0);
    }
    native := Up(m, drawable, k);
    FromRootSplit(m, root, drawable, k);
    hide FromRoot, Tree;
    var o, far := Offset(m, drawable, k), FromRoot(m, root, native);
    assert Less(Plus(o, far), far) == o;
  }

  // A press or motion at a point of window w is reported, in the frame of
  // whichever window receives it, at the same point of the screen.
  lemma {:induction false} SamePointOfScreen(m: Table, live: set<nat>, root: Xid, w: Xid, p: Point,
                                             wants: nat -> bool)
    requires Tree(m, root) && IsWindow(m, w) && Small(p)
    requires var t := Descend(m, w, p, HIT_LIMIT);
      PropagateFrom(m, live, t.window, 0, t.at, wants, WALK_LIMIT).Some?
    ensures var t := Descend(m, w, p, HIT_LIMIT);
      var d := PropagateFrom(m, live, t.window, 0, t.at, wants, WALK_LIMIT).value;
      && IsWindow(m, d.window)
      && Wrap(Plus(d.at, FromRoot(m, root, d.window))) == Wrap(Plus(p, FromRoot(m, root, w)))
  {
    var t := Descend(m, w, p, HIT_LIMIT);
    var k := DescendFacts(m, root, w, p, HIT_LIMIT);
    var j := PropagateFacts(m, live, t.window, 0, t.at, wants, WALK_LIMIT);
    var d := PropagateFrom(m, live, t.window, 0, t.at, wants, WALK_LIMIT).value;
    TargetIsWindow(m, root, w, p, HIT_LIMIT);
    FromRootSplit(m, root, t.window, k);
    FromRootSplit(m, root, t.window, j);
    hide Descend, PropagateFrom, FromRoot, Tree, Nearest, Client, Offset, Wrap, AllReached;
    var above, below := Offset(m, t.window, k), Offset(m, t.window, j);
    SameSum(p, t.at, d.at, above, below, FromRoot(m, root, w), FromRoot(m, root, d.window));
  }

  lemma {:induction false} SameSum(p: Point, at: Point, reported: Point, above: Point, below: Point, a: Point, b: Point)
    requires at == Wrap(Less(p, above)) && reported == Wrap(Plus(at, below)) && Plus(above, a) == Plus(below, b)
    ensures Wrap(Plus(reported, b)) == Wrap(Plus(p, a))
  {
    WrapPlus(Plus(at, below), b);
    WrapPlus(Less(p, above), Plus(above, a));
    hide Wrap;
    assert Plus(Plus(at, below), b) == Plus(at, Plus(above, a));
    assert Plus(Less(p, above), Plus(above, a)) == Plus(p, a);
  }

  lemma {:induction false} TargetIsWindow(m: Table, root: Xid, w: Xid, p: Point, n: nat)
    requires Tree(m, root) && IsWindow(m, w)
    ensures IsWindow(m, Descend(m, w, p, n).window)
    decreases n
  {
    if n != 0 {
      match TopHit(m, Kids(m, w), p)
      case None =>
      case Some(c) => TargetIsWindow(m, root, c, Wrap(Less(p, Origin(m, c))), n - 1);
    }
  }
}
