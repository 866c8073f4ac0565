// The resource table as a tree of windows: what creating and reparenting do to
// it, and exactly when they keep it a tree.
module WindowTree {
  import opened Basics

  // X resource identifiers; 0 is "no window".
  type Xid = nat

  datatype Geometry = Geometry(x: int, y: int, width: nat, height: nat)

  datatype Window = Window(
    parent: Xid,
    children: seq<Xid>,
    geometry: Geometry,
    mapped: bool,
    native: Option<nat>,
    selections: seq<(nat, nat)>)

  // Pixmaps, GCs, fonts and cursors share the table with windows.
  datatype Resource = WindowRes(win: Window) | OtherRes

  type Table = map<Xid, Resource>

  predicate IsWindow(m: Table, w: Xid) {
    w in m && m[w].WindowRes?
  }

  function ParentOf(m: Table, w: Xid): Xid {
    if IsWindow(m, w) then m[w].win.parent else 0
  }

  function Kids(m: Table, w: Xid): seq<Xid> {
    if IsWindow(m, w) then m[w].win.children else []
  }

  function WithKids(m: Table, p: Xid, kids: seq<Xid>): (m': Table)
    ensures forall q {:trigger IsWindow(m', q)} :: IsWindow(m', q) <==> IsWindow(m, q)
    ensures forall q {:trigger ParentOf(m', q)} :: ParentOf(m', q) == ParentOf(m, q)
    ensures forall q {:trigger Kids(m', q)} :: Kids(m', q) == if q == p && IsWindow(m, p) then kids else Kids(m, q)
  {
    if IsWindow(m, p) then m[p := WindowRes(m[p].win.(children := kids))] else m
  }

  // ---------------------------------------------------------------------
  // Ancestry

  // The window n parent steps above x (0 once the walk leaves the table).
  ghost function Up(m: Table, x: Xid, n: nat): Xid
    decreases n
  {
    if n == 0 then x else Up(m, ParentOf(m, x), n - 1)
  }

  // x is w or a descendant of w.
  ghost predicate Below(m: Table, x: Xid, w: Xid) {
    exists n: nat :: Up(m, x, n) == w
  }

  // The windows of the subtree rooted at w.
  ghost function Subtree(m: Table, w: Xid): set<Xid> {
    set x | x in m && IsWindow(m, x) && Below(m, x, w)
  }

  ghost predicate Rooted(m: Table, root: Xid) {
    root != 0 && IsWindow(m, root) && !IsWindow(m, 0) && ParentOf(m, root) == 0
  }

  // Every window but the root is listed by its parent, a window.
  ghost predicate Listed(m: Table, root: Xid) {
    forall x {:trigger ParentOf(m, x)} :: IsWindow(m, x) && x != root ==>
      IsWindow(m, ParentOf(m, x)) && x in Kids(m, ParentOf(m, x))
  }

  // Every listed child is a window whose parent is the lister.
  ghost predicate Agreeing(m: Table) {
    forall p, c {:trigger c in Kids(m, p)} :: c in Kids(m, p) ==> IsWindow(m, c) && ParentOf(m, c) == p
  }

  ghost predicate ListedOnce(m: Table) {
    forall p {:trigger Kids(m, p)} :: NoDup(Kids(m, p))
  }

  // Parent fields and children lists say the same thing, once each.
  ghost predicate Linked(m: Table, root: Xid) {
    Rooted(m, root) && Listed(m, root) && Agreeing(m) && ListedOnce(m)
  }

  ghost predicate Tree(m: Table, root: Xid) {
    && Linked(m, root)
    && forall x {:trigger Below(m, x, root)} :: IsWindow(m, x) ==> Below(m, x, root)
  }

  lemma {:induction false} UpAdd(m: Table, x: Xid, a: nat, b: nat)
    ensures Up(m, x, a + b) == Up(m, Up(m, x, a), b)
    decreases a
  {
    if a != 0 {
      UpAdd(m, ParentOf(m, x), a - 1, b);
    }
  }

  lemma {:induction false} UpFromNone(m: Table, n: nat)
    requires !IsWindow(m, 0)
    ensures Up(m, 0, n) == 0
  {
    if n != 0 { UpFromNone(m, n - 1); }
  }

  lemma {:induction false} UpOne(m: Table, x: Xid, n: nat)
    ensures Up(m, x, n + 1) == ParentOf(m, Up(m, x, n))
  {
    UpAdd(m, x, n, 1);
    assert Up(m, Up(m, x, n), 1) == Up(m, ParentOf(m, Up(m, x, n)), 0);
  }

  lemma {:induction false} DepthUnique(m: Table, root: Xid, x: Xid, a: nat, b: nat)
    requires Linked(m, root)
    requires Up(m, x, a) == root == Up(m, x, b)
    ensures a == b
  {
    if a < b {
      UpAdd(m, x, a, b - a);
      UpFromNone(m, b - a - 1);
    } else if b < a {
      UpAdd(m, x, b, a - b);
      UpFromNone(m, a - b - 1);
    }
  }

  lemma {:induction false} NoCycle(m: Table, root: Xid, x: Xid, k: nat)
    requires Tree(m, root) && IsWindow(m, x)
    requires Up(m, x, k) == x
    ensures k == 0
  {
    assert Below(m, x, root);
    var n: nat :| Up(m, x, n) == root;
    UpAdd(m, x, k, n);
    DepthUnique(m, root, x, n, k + n);
  }

  lemma {:induction false} BelowTrans(m: Table, x: Xid, y: Xid, z: Xid)
    requires Below(m, x, y) && Below(m, y, z)
    ensures Below(m, x, z)
  {
    var a: nat :| Up(m, x, a) == y;
    var b: nat :| Up(m, y, b) == z;
    UpAdd(m, x, a, b);
  }

  lemma {:induction false} BelowSelf(m: Table, x: Xid)
    ensures Below(m, x, x)
  {
    assert Up(m, x, 0) == x;
  }

  lemma {:induction false} BelowParent(m: Table, x: Xid)
    ensures Below(m, x, ParentOf(m, x))
  {
    assert Up(m, x, 1) == Up(m, ParentOf(m, x), 0);
  }

  // The first step at which the walk from x meets w.
  lemma {:induction false} FirstMeeting(m: Table, x: Xid, w: Xid, n: nat) returns (k: nat)
    requires Up(m, x, n) == w
    ensures k <= n && Up(m, x, k) == w
    ensures forall i: nat :: i < k ==> Up(m, x, i) != w
  {
    if i: nat :| i < n && Up(m, x, i) == w {
      k := FirstMeeting(m, x, w, i);
    } else {
      k := n;
    }
  }

  // A proper descendant lies under exactly one child.
  lemma {:induction false} SubtreeSplit(m: Table, root: Xid, w: Xid, x: Xid) returns (c: Xid)
    requires Tree(m, root) && IsWindow(m, w)
    requires x in Subtree(m, w) && x != w
    ensures c in Kids(m, w) && x in Subtree(m, c)
  {
    var n: nat :| Up(m, x, n) == w;
    c := Up(m, x, n - 1);
    UpOne(m, x, n - 1);
    assert Below(m, x, c);
  }

  // Two tables with the same parent links along the walk from x.
  lemma {:induction false} UpFrame(m: Table, m': Table, x: Xid, w: Xid, n: nat)
    requires forall q :: q != w ==> ParentOf(m', q) == ParentOf(m, q)
    requires forall i: nat :: i < n ==> Up(m, x, i) != w
    ensures Up(m', x, n) == Up(m, x, n)
    decreases n
  {
    if n != 0 {
      assert Up(m, x, 0) == x;
      forall i: nat | i < n - 1 ensures Up(m, ParentOf(m, x), i) != w {
        assert Up(m, x, i + 1) == Up(m, ParentOf(m, x), i);
      }
      UpFrame(m, m', ParentOf(m, x), w, n - 1);
    }
  }

  // ---------------------------------------------------------------------
  // Create

  // CreateWindow: append to the parent's list if the parent is a window,
  // then insert a childless record (replacing whatever had that id).
  function Created(m: Table, wid: Xid, parent: Xid, g: Geometry, sel: seq<(nat, nat)>): Table {
    var m1 := WithKids(m, parent, Kids(m, parent) + [wid]);
    m1[wid := WindowRes(Window(parent, [], g, false, None, sel))]
  }

  // The new record is unmapped, childless and where it was asked to be; the
  // parent lists it last; nothing else changes.
  lemma {:induction false} CreateExactly(m: Table, wid: Xid, parent: Xid, g: Geometry, sel: seq<(nat, nat)>)
    requires !IsWindow(m, wid) && IsWindow(m, parent)
    ensures var m' := Created(m, wid, parent, g, sel);
      && m'.Keys == m.Keys + {wid}
      && IsWindow(m', wid)
      && (var w := m'[wid].win;
          && w.parent == parent && w.children == [] && !w.mapped && w.native == None && w.selections == sel
          && w.geometry.x == g.x && w.geometry.y == g.y
          && w.geometry.width == g.width && w.geometry.height == g.height)
      && m'[parent] == WindowRes(m[parent].win.(children := m[parent].win.children + [wid]))
      && forall x :: x in m && x != wid && x != parent ==> m'[x] == m[x]
  {
  }

  // The guard the server does not test: a fresh id under an existing window
  // (or the degenerate re-creation of a childless root).
  predicate CreateAllowed(m: Table, root: Xid, wid: Xid, parent: Xid) {
    && wid != 0
    && (|| (!IsWindow(m, wid) && IsWindow(m, parent))
        || (wid == root && parent == 0 && Kids(m, root) == []))
  }

  lemma {:induction false} CreateLinks(m: Table, root: Xid, wid: Xid, parent: Xid, g: Geometry, sel: seq<(nat, nat)>)
    requires Tree(m, root) && wid != 0 && !IsWindow(m, wid) && IsWindow(m, parent)
    ensures Linked(Created(m, wid, parent, g, sel), root)
  {
    var m' := Created(m, wid, parent, g, sel);
    forall q ensures Kids(m', q) == Kids(m, q) + if q == parent then [wid] else [] {}
    forall q ensures wid !in Kids(m, q) {}
    forall q ensures ParentOf(m', q) == if q == wid then parent else ParentOf(m, q) {}
  }

  lemma {:induction false} CreateKeeps(m: Table, root: Xid, wid: Xid, parent: Xid, g: Geometry, sel: seq<(nat, nat)>)
    requires Tree(m, root) && CreateAllowed(m, root, wid, parent)
    ensures Tree(Created(m, wid, parent, g, sel), root)
  {
    var m' := Created(m, wid, parent, g, sel);
    if wid == root {
      OnlyRoot(m, root);
      forall q | IsWindow(m', q) ensures q == root { assert q == root || IsWindow(m, q); }
      forall q ensures Kids(m', q) == [] {}
      BelowSelf(m', root);
    } else {
      CreateLinks(m, root, wid, parent, g, sel);
      forall x | IsWindow(m', x) ensures Below(m', x, root) {
        if x == wid {
          CreatePath(m, root, wid, parent, g, sel, parent);
          BelowParent(m', wid);
          BelowTrans(m', wid, parent, root);
        } else {
          CreatePath(m, root, wid, parent, g, sel, x);
        }
      }
    }
  }

  lemma {:induction false} OnlyRoot(m: Table, root: Xid)
    requires Tree(m, root) && Kids(m, root) == []
    ensures forall x :: IsWindow(m, x) ==> x == root
  {
    forall x | IsWindow(m, x) ensures x == root {
      BelowSelf(m, root);
      if x != root {
        assert x in Subtree(m, root);
        var c := SubtreeSplit(m, root, root, x);
      }
    }
  }

  lemma {:induction false} CreatePath(m: Table, root: Xid, wid: Xid, parent: Xid, g: Geometry,
                                      sel: seq<(nat, nat)>, x: Xid)
    requires Tree(m, root) && wid != 0 && !IsWindow(m, wid) && IsWindow(m, parent)
    requires IsWindow(m, x)
    ensures Below(Created(m, wid, parent, g, sel), x, root)
  {
    assert Below(m, x, root);
    var n: nat :| Up(m, x, n) == root;
    forall i: nat | i < n ensures Up(m, x, i) != wid {
      if Up(m, x, i) == wid {
        UpAdd(m, x, i, n - i);
        UpFromNone(m, n - i - 1);
      }
    }
    UpFrame(m, Created(m, wid, parent, g, sel), x, wid, n);
  }

  lemma {:induction false} CreateBreaks(m: Table, root: Xid, wid: Xid, parent: Xid, g: Geometry, sel: seq<(nat, nat)>)
    requires Tree(m, root) && !CreateAllowed(m, root, wid, parent)
    ensures !Tree(Created(m, wid, parent, g, sel), root)
  {
    var m' := Created(m, wid, parent, g, sel);
    assert ParentOf(m', wid) == parent && Kids(m', wid) == [];
    if wid == root {
      if Kids(m, root) != [] {
        var c := Kids(m, root)[0];
        assert c in Kids(m, root);
        assert ParentOf(m', c) == root;
      }
    } else if IsWindow(m, wid) {
      var q := ParentOf(m, wid);
      if q == wid {
        assert Up(m, wid, 1) == Up(m, wid, 0);
        NoCycle(m, root, wid, 1);
      } else {
        assert wid in Kids(m, q);
        var k :| 0 <= k < |Kids(m, q)| && Kids(m, q)[k] == wid;
        assert Kids(m', q)[k] == wid;
        if q == parent { assert Kids(m', q)[|Kids(m, q)|] == wid; }
      }
    }
  }

  // ---------------------------------------------------------------------
  // Reparent

  // ReparentWindow: rewrite the parent field, drop the id from the old
  // parent's list, append it to the new parent's list.
  function Reparented(m: Table, wid: Xid, parent: Xid, x: int, y: int): Table {
    if !IsWindow(m, wid) then m
    else
      var m1 := Moved(m, wid, parent, x, y);
      var m2 := WithKids(m1, ParentOf(m, wid), Keep(Kids(m1, ParentOf(m, wid)), {wid}));
      WithKids(m2, parent, Kids(m2, parent) + [wid])
  }

  function Moved(m: Table, wid: Xid, parent: Xid, x: int, y: int): (m': Table)
    requires IsWindow(m, wid)
    ensures forall q {:trigger IsWindow(m', q)} :: IsWindow(m', q) <==> IsWindow(m, q)
    ensures forall q {:trigger ParentOf(m', q)} :: ParentOf(m', q) == if q == wid then parent else ParentOf(m, q)
    ensures forall q {:trigger Kids(m', q)} :: Kids(m', q) == Kids(m, q)
  {
    var w := m[wid].win;
    m[wid := WindowRes(w.(parent := parent, geometry := w.geometry.(x := x, y := y)))]
  }

  // The window is at the new position under the new parent, which lists it
  // last; the old parent lists the others as before; the rest stays.
  lemma {:induction false} ReparentExactly(m: Table, root: Xid, wid: Xid, parent: Xid, x: int, y: int)
    requires Linked(m, root) && IsWindow(m, wid) && wid != root && IsWindow(m, parent) && parent != wid
    ensures var m' := Reparented(m, wid, parent, x, y);
      var was, above := m[wid].win, m[wid].win.parent;
      && m'.Keys == m.Keys && IsWindow(m, above)
      && (wid != above ==>
          m'[wid] == WindowRes(was.(parent := parent,
                                    geometry := Geometry(x, y, was.geometry.width, was.geometry.height))))
      && Kids(m', parent) == Keep(Kids(m, parent), {wid}) + [wid]
      && (above != parent ==> Kids(m', above) == Keep(Kids(m, above), {wid}))
      && forall v :: v in m && v !in {wid, parent, above} ==> m'[v] == m[v]
  {
    ReparentLinks(m, root, wid, parent, x, y);
    assert IsWindow(m, ParentOf(m, wid));
    hide Linked;
    ReparentRecords(m, wid, parent, x, y);
    hide Reparented;
  }

  lemma ReparentRecords(m: Table, wid: Xid, parent: Xid, x: int, y: int)
    requires IsWindow(m, wid) && parent != wid
    ensures var m' := Reparented(m, wid, parent, x, y);
      var was, above := m[wid].win, m[wid].win.parent;
      && m'.Keys == m.Keys
      && (wid != above ==>
          m'[wid] == WindowRes(was.(parent := parent,
                                    geometry := Geometry(x, y, was.geometry.width, was.geometry.height))))
      && forall v :: v in m && v !in {wid, parent, above} ==> m'[v] == m[v]
  {
  }

  // The guard the server does not test: the new parent is a window outside
  // the moved subtree.
  ghost predicate ReparentAllowed(m: Table, root: Xid, wid: Xid, parent: Xid) {
    || !IsWindow(m, wid)
    || (wid == root && parent == 0)
    || (wid != root && IsWindow(m, parent) && !Below(m, parent, wid))
  }

  lemma {:induction false} ReparentLinks(m: Table, root: Xid, wid: Xid, parent: Xid, x: int, y: int)
    requires Linked(m, root) && IsWindow(m, wid)
    ensures var m' := Reparented(m, wid, parent, x, y);
            && (forall q {:trigger IsWindow(m', q)} :: IsWindow(m', q) <==> IsWindow(m, q))
            && (forall q {:trigger ParentOf(m', q)} :: ParentOf(m', q) == if q == wid then parent else ParentOf(m, q))
            && (forall q {:trigger Kids(m', q)} :: Kids(m', q) == Relisted(m, wid, parent, q))
  {
    var m' := Reparented(m, wid, parent, x, y);
    forall q ensures Kids(m', q) == Relisted(m, wid, parent, q) {
      ReparentKids(m, root, wid, parent, x, y, q);
    }
  }

  lemma {:induction false} ReparentKids(m: Table, root: Xid, wid: Xid, parent: Xid, x: int, y: int, q: Xid)
    requires Linked(m, root) && IsWindow(m, wid)
    ensures Kids(Reparented(m, wid, parent, x, y), q) == Relisted(m, wid, parent, q)
  {
    if q != ParentOf(m, wid) {
      assert wid !in Kids(m, q);
      assert Keep(Kids(m, q), {wid}) == Kids(m, q);
    }
  }

  function Relisted(m: Table, wid: Xid, parent: Xid, q: Xid): seq<Xid> {
    if IsWindow(m, q) then Keep(Kids(m, q), {wid}) + (if q == parent then [wid] else []) else []
  }

  lemma {:induction false} ReparentLinked(m: Table, m': Table, root: Xid, wid: Xid, parent: Xid)
    requires Linked(m, root) && IsWindow(m, wid) && wid != root && IsWindow(m, parent)
    requires forall q {:trigger IsWindow(m', q)} :: IsWindow(m', q) <==> IsWindow(m, q)
    requires forall q {:trigger ParentOf(m', q)} :: ParentOf(m', q) == if q == wid then parent else ParentOf(m, q)
    requires forall q {:trigger Kids(m', q)} :: Kids(m', q) == Relisted(m, wid, parent, q)
    ensures Linked(m', root)
  {
    forall q ensures NoDup(Kids(m', q)) {
      KeepNoDup(Kids(m, q), {wid});
    }
    assert Listed(m', root) by {
      forall q | IsWindow(m', q) && q != root
        ensures IsWindow(m', ParentOf(m', q)) && q in Kids(m', ParentOf(m', q))
      {
        assert q != wid ==> q in Kids(m, ParentOf(m, q));
      }
    }
    assert Agreeing(m') by {
      forall p, c | c in Kids(m', p) ensures IsWindow(m', c) && ParentOf(m', c) == p {
        assert c == wid || c in Kids(m, p);
      }
    }
  }

  lemma {:induction false} ReparentKeeps(m: Table, root: Xid, wid: Xid, parent: Xid, x: int, y: int)
    requires Tree(m, root) && ReparentAllowed(m, root, wid, parent)
    ensures Tree(Reparented(m, wid, parent, x, y), root)
  {
    var m' := Reparented(m, wid, parent, x, y);
    if IsWindow(m, wid) {
      ReparentLinks(m, root, wid, parent, x, y);
      if wid == root {
        forall q ensures Kids(m', q) == Kids(m, q) { assert ParentOf(m, wid) != q || !IsWindow(m, q); }
        forall q | IsWindow(m', q) ensures Below(m', q, root) {
          assert Below(m, q, root);
          SameParents(m, m', q, root);
        }
      } else {
        ReparentLinked(m, m', root, wid, parent);
        forall q | IsWindow(m', q) ensures Below(m', q, root) {
          ReparentPath(m, m', root, wid, parent, q);
        }
      }
    }
  }

  lemma {:induction false} SameParents(m: Table, m': Table, x: Xid, root: Xid)
    requires forall q :: ParentOf(m', q) == ParentOf(m, q)
    requires Below(m, x, root)
    ensures Below(m', x, root)
  {
    assert Below(m, x, root);
    var n: nat :| Up(m, x, n) == root;
    var k := FirstMeeting(m, x, root, n);
    UpFrame(m, m', x, root, k);
  }

  lemma {:induction false} ReparentPath(m: Table, m': Table, root: Xid, wid: Xid, parent: Xid, x: Xid)
    requires Tree(m, root) && IsWindow(m, wid) && IsWindow(m, x)
    requires IsWindow(m, parent) && !Below(m, parent, wid)
    requires forall q :: ParentOf(m', q) == if q == wid then parent else ParentOf(m, q)
    ensures Below(m', x, root)
    decreases Below(m, x, wid)
  {
    if Below(m, x, wid) {
      var n: nat :| Up(m, x, n) == wid;
      var k := FirstMeeting(m, x, wid, n);
      UpFrame(m, m', x, wid, k);
      assert Below(m', x, wid);
      BelowParent(m', wid);
      ReparentPath(m, m', root, wid, parent, parent);
      BelowTrans(m', wid, parent, root);
      BelowTrans(m', x, wid, root);
    } else {
      assert Below(m, x, root);
      var n: nat :| Up(m, x, n) == root;
      UpFrame(m, m', x, wid, n);
    }
  }

  lemma {:induction false} ReparentBreaks(m: Table, root: Xid, wid: Xid, parent: Xid, x: int, y: int)
    requires Tree(m, root) && !ReparentAllowed(m, root, wid, parent)
    ensures !Tree(Reparented(m, wid, parent, x, y), root)
  {
    var m' := Reparented(m, wid, parent, x, y);
    ReparentLinks(m, root, wid, parent, x, y);
    assert ParentOf(m', wid) == parent;
    if wid != root && IsWindow(m, parent) {
      CycleBreaks(m, m', root, wid, parent);
    }
  }

  lemma {:induction false} CycleBreaks(m: Table, m': Table, root: Xid, wid: Xid, parent: Xid)
    requires Below(m, parent, wid) && IsWindow(m', wid)
    requires forall q :: ParentOf(m', q) == if q == wid then parent else ParentOf(m, q)
    ensures !Tree(m', root)
  {
    var n: nat :| Up(m, parent, n) == wid;
    var k := FirstMeeting(m, parent, wid, n);
    UpFrame(m, m', parent, wid, k);
    assert Up(m', wid, k + 1) == Up(m', parent, k);
    if Tree(m', root) {
      NoCycle(m', root, wid, k + 1);
    }
  }
}
