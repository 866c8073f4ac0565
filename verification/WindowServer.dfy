// The server object that owns the resource table, and every request that
// changes the window tree in it.
module WindowServer {
  import opened Basics
  import opened WindowTree
  import opened Destruction

  // Each connection draws its ids from one block of 2^21 (mask 0x001FFFFF).
  const ID_BLOCK: nat := 0x0020_0000
  const ID_SPACE: nat := 0x1_0000_0000

  // (id & !mask) == (base & !mask)
  predicate Owned(base: nat, id: Xid) {
    id / ID_BLOCK == base / ID_BLOCK
  }

  // ---------------------------------------------------------------------
  // Disconnect

  // The leaving client's windows whose parent is the root.
  ghost function TopLevels(m: Table, root: Xid, base: nat): set<Xid> {
    set x | x in m && IsWindow(m, x) && Owned(base, x) && ParentOf(m, x) == root
  }

  // The table a disconnect leaves: no owned id, nothing reached from an owned
  // top-level window.
  ghost function Disconnected(m: Table, root: Xid, base: nat): Table {
    Unowned(Removed(m, Reach(m, TopLevels(m, root, base))), base)
  }

  function Unowned(m: Table, base: nat): Table {
    map x | x in m && !Owned(base, x) :: m[x]
  }

  // Every window of the leaving client sits under one of its top-level windows.
  ghost predicate SelfContained(m: Table, root: Xid, base: nat) {
    forall x :: IsWindow(m, x) && Owned(base, x) ==> x in Reach(m, TopLevels(m, root, base))
  }

  // What disappears and what stays: an id of another client goes only with a
  // top-level window of the leaving client above it.
  lemma {:induction false} DisconnectRemoves(m: Table, root: Xid, base: nat, x: Xid)
    requires Tree(m, root) && x in m
    ensures x !in Disconnected(m, root, base) <==>
            x / 0x20_0000 == base / 0x20_0000 ||
            exists t: Xid :: IsWindow(m, t) && t / 0x20_0000 == base / 0x20_0000 && m[t].win.parent == root &&
                             x in Subtree(m, t)
    ensures x in Disconnected(m, root, base) && x != root ==> Disconnected(m, root, base)[x] == m[x]
    ensures forall id :: id in Disconnected(m, root, base) ==> id / 0x20_0000 != base / 0x20_0000
  {
    var tops := TopLevels(m, root, base);
    var d := Reach(m, tops);
    forall t, y | IsWindow(m, y) && t in tops ensures Reaches(m, t, y) <==> Below(m, y, t) {
      ReachesIsBelow(m, root, t, y);
    }
    if x !in d && x != root {
      forall c ensures c !in LostBy(m, d, x) {
        if c in LostBy(m, d, x) {
          var t :| t in tops && Reaches(m, t, c);
          if c != t { ParentBelow(m, c, t); }
        }
      }
      assert LostBy(m, d, x) == {};
    }
    hide Tree, Below;
  }

  lemma {:induction false} NothingOwned(m: Table, root: Xid, base: nat)
    requires forall x :: x in m ==> !Owned(base, x)
    ensures Disconnected(m, root, base) == m
  {
    hide Owned;
    assert TopLevels(m, root, base) == {};
    assert Reach(m, {}) == {};
    RemovedNone(m);
  }

  // Disconnecting keeps the tree exactly when the leaving client had no
  // window below another client's window (and does not own the root).
  lemma {:induction false} DisconnectKeepsTree(m: Table, root: Xid, base: nat)
    requires Tree(m, root)
    ensures Tree(Disconnected(m, root, base), root) <==>
            SelfContained(m, root, base) && !Owned(base, root)
  {
    var s := TopLevels(m, root, base);
    var d := Reach(m, s);
    var m1 := Removed(m, d);
    assert root !in s;
    RootReached(m, root, s);
    ReachClosed(m, s);
    RemovedTree(m, root, d);
    forall x ensures IsWindow(m1, x) <==> IsWindow(m, x) && x !in d { EdgeKept(m, d, x, x); }
    hide Removed, Reach;
    if SelfContained(m, root, base) && !Owned(base, root) {
      OthersDropped(m1, Disconnected(m, root, base), root);
    } else if !Owned(base, root) {
      var x :| IsWindow(m, x) && Owned(base, x) && x !in d;
      DanglingChild(m1, root, base, x);
    }
  }

  // Removing entries that are not windows does not touch the tree.
  lemma {:induction false} OthersDropped(m: Table, m': Table, root: Xid)
    requires Tree(m, root)
    requires forall x :: x in m' ==> x in m && m'[x] == m[x]
    requires forall x :: IsWindow(m, x) ==> x in m'
    ensures Tree(m', root)
  {
    SameLinksSameTree(m, m', root);
  }

  lemma {:induction false} SameLinksSameTree(m: Table, m': Table, root: Xid)
    requires Tree(m, root)
    requires forall x :: IsWindow(m', x) <==> IsWindow(m, x)
    requires forall x {:trigger ParentOf(m', x)} :: ParentOf(m', x) == ParentOf(m, x)
    requires forall x {:trigger Kids(m', x)} :: Kids(m', x) == Kids(m, x)
    ensures Tree(m', root)
  {
    assert Agreeing(m') by {
      forall p, c | c in Kids(m', p) ensures IsWindow(m', c) && ParentOf(m', c) == p {
        assert c in Kids(m, p);
      }
    }
    forall x | IsWindow(m', x) ensures Below(m', x, root) {
      assert Below(m, x, root);
      SameParents(m, m', x, root);
    }
  }

  // An owned window left over sits, some steps up, under a kept window that
  // goes on listing it after it is removed.
  lemma {:induction false} DanglingChild(m: Table, root: Xid, base: nat, x: Xid)
    requires Tree(m, root) && !Owned(base, root)
    requires IsWindow(m, x) && Owned(base, x)
    ensures !Tree(Unowned(m, base), root)
  {
    var m' := Unowned(m, base);
    assert Below(m, x, root);
    var n: nat :| Up(m, x, n) == root;
    var c := LastOwned(m, root, base, x, n);
    assert c in Kids(m', ParentOf(m, c));
  }

  lemma {:induction false} LastOwned(m: Table, root: Xid, base: nat, x: Xid, n: nat) returns (c: Xid)
    requires Tree(m, root) && !Owned(base, root)
    requires IsWindow(m, x) && Owned(base, x) && Up(m, x, n) == root
    ensures IsWindow(m, c) && Owned(base, c) && c != root
    ensures IsWindow(m, ParentOf(m, c)) && !Owned(base, ParentOf(m, c))
    decreases n
  {
    var q := ParentOf(m, x);
    if Owned(base, q) {
      c := LastOwned(m, root, base, q, n - 1);
    } else {
      c := x;
    }
  }

  // Bases handed to two connections name disjoint blocks until 2^11
  // connections have come and gone; the block of the server's own ids comes
  // back at the same time.
  function BaseOf(k: nat): nat {
    ((k + 1) * ID_BLOCK) % ID_SPACE
  }

  lemma {:induction false} BasesDisjoint(j: nat, k: nat, root: Xid)
    requires 0 < root < ID_BLOCK
    ensures (exists id: Xid :: Owned(BaseOf(j), id) && Owned(BaseOf(k), id)) <==> (j - k) % 2048 == 0
    ensures Owned(BaseOf(k), root) <==> (k + 1) % 2048 == 0
  {
    BlockNumber(j);
    BlockNumber(k);
    hide BaseOf;
    if (j - k) % 2048 == 0 {
      assert (j + 1) % 2048 == (k + 1) % 2048;
      assert Owned(BaseOf(j), BaseOf(j)) && Owned(BaseOf(k), BaseOf(j));
    }
  }

  lemma BlockNumber(k: nat)
    ensures BaseOf(k) / ID_BLOCK == (k + 1) % 2048
  {
    var q, r := (k + 1) / 2048, (k + 1) % 2048;
    assert (k + 1) * ID_BLOCK == q * ID_SPACE + r * ID_BLOCK;
    assert r * ID_BLOCK < ID_SPACE;
    assert BaseOf(k) == r * ID_BLOCK;
  }

  // ---------------------------------------------------------------------
  // Event selections

  // A client's entry in a window's selections, rewritten or appended.
  function Chosen(selections: seq<(nat, nat)>, client: nat, mask: nat): (r: seq<(nat, nat)>)
    ensures |selections| <= |r| <= |selections| + 1
  {
    if selections == [] then [(client, mask)]
    else if selections[0].0 == client then [(client, mask)] + selections[1..]
    else [selections[0]] + Chosen(selections[1..], client, mask)
  }

  // Where the search for the client's entry ends.
  lemma {:induction false} ChosenAt(selections: seq<(nat, nat)>, client: nat, mask: nat, i: nat)
    requires i <= |selections| && forall k :: 0 <= k < i ==> selections[k].0 != client
    requires i < |selections| ==> selections[i].0 == client
    ensures Chosen(selections, client, mask) == selections[..i] + [(client, mask)] +
            if i < |selections| then selections[i + 1..] else []
  {
    if i != 0 {
      ChosenAt(selections[1..], client, mask, i - 1);
    }
  }

  function Selecting(m: Table, wid: Xid, client: nat, mask: nat): Table {
    if !IsWindow(m, wid) then m
    else m[wid := WindowRes(m[wid].win.(selections := Chosen(m[wid].win.selections, client, mask)))]
  }

  ghost predicate OnePerClient(selections: seq<(nat, nat)>) {
    forall i, j :: 0 <= i < j < |selections| ==> selections[i].0 != selections[j].0
  }

  // A client keeps a single mask per window, its last one; the masks of other
  // clients and their order stay.
  lemma {:induction false} ChosenFacts(selections: seq<(nat, nat)>, client: nat, mask: nat)
    requires OnePerClient(selections)
    ensures var r := Chosen(selections, client, mask);
      && OnePerClient(r)
      && (forall e :: e in r <==> e == (client, mask) || (e in selections && e.0 != client))
      && (forall i :: 0 <= i < |selections| && selections[i].0 != client ==> r[i] == selections[i])
  {
    var i := EntryOf(selections, client);
    ChosenAt(selections, client, mask, i);
    var r := Chosen(selections, client, mask);
    hide Chosen;
    if i < |selections| {
      assert r == selections[i := (client, mask)];
    } else {
      assert r == selections + [(client, mask)];
    }
    forall e | e in selections && e.0 != client ensures e in r {
      var k :| 0 <= k < |selections| && selections[k] == e;
      assert r[k] == e;
    }
    assert r[i] in r;
  }

  lemma {:induction false} EntryOf(selections: seq<(nat, nat)>, client: nat) returns (i: nat)
    ensures i <= |selections| && forall k :: 0 <= k < i ==> selections[k].0 != client
    ensures i < |selections| ==> selections[i].0 == client
  {
    i := 0;
    if selections != [] && selections[0].0 != client {
      i := EntryOf(selections[1..], client);
      i := i + 1;
    }
  }

  // ---------------------------------------------------------------------
  // Runs

  datatype Op =
    | Create(wid: Xid, parent: Xid, g: Geometry, sel: seq<(nat, nat)>)
    | Reparent(wid: Xid, parent: Xid, x: int, y: int)
    | Destroy(wid: Xid)
    | Select(wid: Xid, client: nat, mask: nat)   // ChangeWindowAttributes, event mask
    | PutOther(id: Xid)   // CreatePixmap, CreateGC, OpenFont, CreateCursor
    | Free(id: Xid)       // FreePixmap, FreeGC, CloseFont, FreeCursor
    | Disconnect(base: nat)

  ghost function Apply(m: Table, root: Xid, op: Op): Table {
    match op
    case Create(w, p, g, sel) => Created(m, w, p, g, sel)
    case Reparent(w, p, x, y) => Reparented(m, w, p, x, y)
    case Destroy(w) => Destroyed(m, w)
    case Select(w, client, mask) => Selecting(m, w, client, mask)
    case PutOther(id) => m[id := OtherRes]
    case Free(id) => m - {id}
    case Disconnect(base) => Disconnected(m, root, base)
  }

  // The request-side guard under which each request keeps the tree.
  ghost predicate Allowed(m: Table, root: Xid, op: Op) {
    match op
    case Create(w, p, _, _) => CreateAllowed(m, root, w, p)
    case Reparent(w, p, _, _) => ReparentAllowed(m, root, w, p)
    case Destroy(w) => w != root
    case Select(_, _, _) => true
    case PutOther(id) => !IsWindow(m, id)
    case Free(id) => !IsWindow(m, id)
    case Disconnect(base) => SelfContained(m, root, base) && !Owned(base, root)
  }

  lemma {:induction false} StepKeepsTree(m: Table, root: Xid, op: Op)
    requires Tree(m, root)
    ensures Tree(Apply(m, root, op), root) <==> Allowed(m, root, op)
  {
    match op
    case Create(w, p, g, sel) =>
      if CreateAllowed(m, root, w, p) { CreateKeeps(m, root, w, p, g, sel); }
      else { CreateBreaks(m, root, w, p, g, sel); }
    case Reparent(w, p, x, y) =>
      if ReparentAllowed(m, root, w, p) { ReparentKeeps(m, root, w, p, x, y); }
      else { ReparentBreaks(m, root, w, p, x, y); }
    case Destroy(w) => DestroyKeeps(m, root, w);
    case Select(w, client, mask) => SameLinksSameTree(m, Selecting(m, w, client, mask), root);
    case PutOther(id) => EntryReplaced(m, m[id := OtherRes], root, id);
    case Free(id) => EntryReplaced(m, m - {id}, root, id);
    case Disconnect(base) => DisconnectKeepsTree(m, root, base);
  }

  lemma {:induction false} EntryReplaced(m: Table, m': Table, root: Xid, id: Xid)
    requires Tree(m, root) && !IsWindow(m', id)
    requires forall x :: x != id ==> (x in m' <==> x in m) && (x in m ==> m'[x] == m[x])
    ensures Tree(m', root) <==> !IsWindow(m, id)
  {
    if !IsWindow(m, id) {
      SameLinksSameTree(m, m', root);
    } else if id != root {
      var p := ParentOf(m, id);
      assert id in Kids(m, p);
      if p == id {
        assert Up(m, id, 1) == Up(m, id, 0);
        NoCycle(m, root, id, 1);
      } else {
        assert id in Kids(m', p);
      }
    }
  }

  ghost predicate AllAllowed(m: Table, root: Xid, ops: seq<Op>)
    decreases |ops|
  {
    ops == [] || (Allowed(m, root, ops[0]) && AllAllowed(Apply(m, root, ops[0]), root, ops[1..]))
  }

  ghost predicate TreeThroughout(m: Table, root: Xid, ops: seq<Op>)
    decreases |ops|
  {
    && Tree(m, root)
    && (ops != [] ==> TreeThroughout(Apply(m, root, ops[0]), root, ops[1..]))
  }

  // Over every run, the table is a tree after every request exactly when
  // every request met its guard when it was made.
  lemma {:induction false} RunKeepsTree(m: Table, root: Xid, ops: seq<Op>)
    requires Tree(m, root)
    ensures TreeThroughout(m, root, ops) <==> AllAllowed(m, root, ops)
    decreases |ops|
  {
    if ops != [] {
      StepKeepsTree(m, root, ops[0]);
      var m' := Apply(m, root, ops[0]);
      if Tree(m', root) {
        RunKeepsTree(m', root, ops[1..]);
      }
    }
  }

  // The table a server starts with.
  lemma {:induction false} InitialTree(root: Xid, g: Geometry)
    requires root != 0
    ensures Tree(map[root := WindowRes(Window(0, [], g, true, None, []))], root)
  {
    var m := map[root := WindowRes(Window(0, [], g, true, None, []))];
    BelowSelf(m, root);
  }

  function Start(g: Geometry): Table {
    map[1 := WindowRes(Window(0, [], g, true, None, []))]
  }

  // A window under the root, and a second one under the first.
  ghost function Pair(g: Geometry, outer: Xid, inner: Xid): Table {
    Apply(Apply(Start(g), 1, Create(outer, 1, g, [])), 1, Create(inner, outer, g, []))
  }

  lemma {:induction false} PairTree(g: Geometry, outer: Xid, inner: Xid)
    requires 1 < outer < inner
    ensures Tree(Pair(g, outer, inner), 1)
    ensures forall x :: IsWindow(Pair(g, outer, inner), x) <==> x in {1, outer, inner}
    ensures ParentOf(Pair(g, outer, inner), 1) == 0
    ensures ParentOf(Pair(g, outer, inner), outer) == 1
    ensures ParentOf(Pair(g, outer, inner), inner) == outer
  {
    InitialTree(1, g);
    var m1 := Apply(Start(g), 1, Create(outer, 1, g, []));
    CreateKeeps(Start(g), 1, outer, 1, g, []);
    CreateKeeps(m1, 1, inner, outer, g, []);
  }

  // Three accepted requests that cut a pair of windows off the root: a window,
  // a child of it, and a ReparentWindow of the first under the second.
  lemma {:induction false} ReparentUnderChild(g: Geometry)
    ensures Tree(Pair(g, 2, 3), 1) && !Tree(Apply(Pair(g, 2, 3), 1, Reparent(2, 3, 0, 0)), 1)
  {
    var m := Pair(g, 2, 3);
    PairTree(g, 2, 3);
    assert ParentOf(m, 3) == 2;
    BelowParent(m, 3);
    ReparentBreaks(m, 1, 2, 3, 0, 0);
  }

  // A DestroyWindow of either of them then never ends, however deep the
  // recursion may nest.
  lemma {:induction false} DestroyNeverEnds(g: Geometry, fuel: nat)
    ensures Run(Apply(Pair(g, 2, 3), 1, Reparent(2, 3, 0, 0)), [2], fuel) == None
  {
    var m := Apply(Pair(g, 2, 3), 1, Reparent(2, 3, 0, 0));
    assert Kids(m, 2) == [3] && Kids(m, 3) == [2];
    hide Apply, Pair, Run, Acyclic;
    TwoCycle(m, 2, 3);
    DestroyEnds(m, [2]);
  }

  lemma {:induction false} TwoCycle(m: Table, x: Xid, y: Xid)
    requires IsWindow(m, x) && IsWindow(m, y) && Kids(m, x) == [y] && Kids(m, y) == [x]
    ensures !Acyclic(m, Ids([x]))
  {
    assert Edge(m, x, y) && Edge(m, y, x);
    ReachesFacts(m, x);
    ReachesFacts(m, y);
    assert Loops(m, x);
    assert x in Ids([x]);
  }

  // Two clients, one window each, the second inside the first: when the
  // second client leaves, its window is dropped from the table but not from
  // the other's list of children.
  lemma {:induction false} GuestLeaves(g: Geometry)
    ensures var m := Pair(g, BaseOf(0) + 1, BaseOf(1) + 1);
      Tree(m, 1) && !Tree(Apply(m, 1, Disconnect(BaseOf(1))), 1)
  {
    hide Pair, Tree, BaseOf, Owned, Disconnected, SelfContained;
    var base, host, guest := BaseOf(1), BaseOf(0) + 1, BaseOf(1) + 1;
    var m := Pair(g, host, guest);
    FirstBlocks();
    PairTree(g, host, guest);
    NoTopLevels(m, base, host, guest);
    DisconnectKeepsTree(m, 1, base);
  }

  lemma FirstBlocks()
    ensures 1 < BaseOf(0) + 1 < BaseOf(1) + 1
    ensures Owned(BaseOf(1), BaseOf(1) + 1) && !Owned(BaseOf(1), BaseOf(0) + 1) && !Owned(BaseOf(1), 1)
  {
  }

  lemma {:induction false} NoTopLevels(m: Table, base: nat, host: Xid, guest: Xid)
    requires forall x :: IsWindow(m, x) <==> x in {1, host, guest}
    requires ParentOf(m, 1) == 0 && ParentOf(m, host) == 1 && ParentOf(m, guest) == host != 1
    requires Owned(base, guest) && !Owned(base, host) && !Owned(base, 1)
    ensures !SelfContained(m, 1, base)
  {
    hide Owned;
    assert TopLevels(m, 1, base) == {};
    assert guest !in Reach(m, {});
  }

  // ---------------------------------------------------------------------
  // The server object

  class Server {
    const root: Xid
    var table: Table
    var selections: map<nat, Xid>
    var closed: seq<nat>

    constructor (root: Xid, g: Geometry)
      requires root != 0
      ensures this.root == root && Tree(table, root) && selections == map[] && closed == []
      ensures table.Keys == {root}
    {
      this.root := root;
      table := map[root := WindowRes(Window(0, [], g, true, None, []))];
      selections := map[];
      closed := [];
      new;
      InitialTree(root, g);
    }

    method CreateWindow(wid: Xid, parent: Xid, g: Geometry, sel: seq<(nat, nat)>)
      modifies this`table
      ensures table == Apply(old(table), root, Create(wid, parent, g, sel))
    {
      if parent in table && table[parent].WindowRes? {
        var w := table[parent].win;
        table := table[parent := WindowRes(w.(children := w.children + [wid]))];
      }
      table := table[wid := WindowRes(Window(parent, [], g, false, None, sel))];
    }

    method SelectEvents(wid: Xid, client: nat, mask: nat)
      modifies this`table
      ensures table == Apply(old(table), root, Select(wid, client, mask))
    {
      if wid in table && table[wid].WindowRes? {
        var w := table[wid].win;
        var i := 0;
        while i < |w.selections| && w.selections[i].0 != client
          invariant 0 <= i <= |w.selections|
          invariant forall k :: 0 <= k < i ==> w.selections[k].0 != client
        {
          i := i + 1;
        }
        var entries := if i < |w.selections| then w.selections[i := (client, mask)]
                       else w.selections + [(client, mask)];
        ChosenAt(w.selections, client, mask, i);
        assert entries == Chosen(w.selections, client, mask);
        table := table[wid := WindowRes(w.(selections := entries))];
      }
    }

    method ReparentWindow(wid: Xid, newParent: Xid, x: int, y: int)
      modifies this`table
      ensures table == Apply(old(table), root, Reparent(wid, newParent, x, y))
    {
      if wid in table && table[wid].WindowRes? {
        var w := table[wid].win;
        var oldParent := w.parent;
        table := table[wid := WindowRes(w.(parent := newParent, geometry := w.geometry.(x := x, y := y)))];
        Unlink(oldParent, wid);
        if newParent in table && table[newParent].WindowRes? {
          var p := table[newParent].win;
          table := table[newParent := WindowRes(p.(children := p.children + [wid]))];
        }
      }
    }

    // Destroys the children first, then unlinks and removes the window. The
    // recursion mutates the very table it walks. It ends on every table on
    // which no window reached from wid is on a cycle.
    method DestroyWindowRecursive(wid: Xid) returns (ghost order: seq<Xid>)
      requires Acyclic(table, {wid})
      modifies this`table, this`closed
      ensures Ran(old(table), [wid], table, order)
      ensures table == Destroyed(old(table), wid) && Visits(old(table), {wid}, order)
      ensures closed == old(closed) + Handles(old(table), order)
      decreases |Reach(table, {wid})|, 0
    {
      hide Acyclic, Reach, Ran, Visits, Handles, Removed, WithKids, Keep, Ids;
      ghost var m, out := table, closed;
      if wid !in table || !table[wid].WindowRes? {
        RanNone(m, wid);
        NoHandles(m);
        order := [];
        return;
      }
      ChildrenReachLess(m, wid);
      var parent, children, native := table[wid].win.parent, table[wid].win.children, table[wid].win.native;
      ghost var below := DestroyEach(children);
      order := below + [wid];
      ghost var t := table;
      RanOne(m, wid, t, below);
      if parent != 0 {
        Unlink(parent, wid);
      }
      if native.Some? {
        closed := closed + [native.value];
      }
      table := table - {wid};
      ConcatAssoc(out, Handles(m, below), if native.Some? then [native.value] else []);
      assert table == Dropped(t, parent, wid);
    }

    // The loop over the children of a window, or over the top-level windows of
    // a leaving client.
    method DestroyEach(ks: seq<Xid>) returns (ghost order: seq<Xid>)
      requires Acyclic(table, Ids(ks))
      modifies this`table, this`closed
      ensures Ran(old(table), ks, table, order)
      ensures closed == old(closed) + Handles(old(table), order)
      decreases |Reach(table, Ids(ks))|, 1
    {
      ghost var m, out := table, closed;
      order := [];
      RanStart(m, ks);
      NoHandles(m);
      hide Acyclic, Reach, Ran, Visits, Handles, Ids;
      var i := 0;
      while i < |ks|
        invariant 0 <= i <= |ks|
        invariant Ran(m, ks[..i], table, order)
        invariant closed == out + Handles(m, order)
      {
        RanNext(m, ks, i, table, order);
        ghost var t := table;
        ghost var one := DestroyWindowRecursive(ks[i]);
        RanMore(m, ks, i, t, order, table, one);
        ConcatAssoc(out, Handles(m, order), Handles(m, one));
        order := order + one;
        i := i + 1;
      }
      assert ks[..|ks|] == ks;
    }

    method Unlink(parent: Xid, wid: Xid)
      modifies this`table
      ensures table == WithKids(old(table), parent, Keep(Kids(old(table), parent), {wid}))
    {
      if parent in table && table[parent].WindowRes? {
        var p := table[parent].win;
        table := table[parent := WindowRes(p.(children := Keep(p.children, {wid})))];
      }
    }

    method SetSelectionOwner(selection: nat, owner: Xid)
      modifies this`selections
      ensures selections == Reowned(old(selections), Claimed(selection, owner))
    {
      if owner == 0 {
        selections := selections - {selection};
      } else {
        selections := selections[selection := owner];
      }
    }

    // Connection clean-up: selections, then top-level windows in whatever
    // order the table yields them, then every other owned entry.
    method DisconnectClient(base: nat) returns (ghost order: seq<Xid>)
      requires Acyclic(table, TopLevels(table, root, base))
      modifies this
      ensures table == Apply(old(table), root, Disconnect(base))
      ensures selections == Reowned(old(selections), Left(base))
      ensures forall s :: s in selections <==>
        s in old(selections) && old(selections)[s] / 0x20_0000 != base / 0x20_0000
      ensures forall s :: s in selections ==> selections[s] == old(selections)[s]
      ensures Visits(old(table), TopLevels(old(table), root, base), order)
      ensures closed == old(closed) + Handles(old(table), order)
    {
      ghost var m := table;
      selections := map s | s in selections && !Owned(base, selections[s]) :: selections[s];
      var owned := set x | x in table && table[x].WindowRes? && Owned(base, x) && table[x].win.parent == root;
      assert owned == TopLevels(table, root, base);
      var tops := InSomeOrder(owned);
      assert Ids(tops) == owned;
      order := DestroyEach(tops);
      RanExactly(m, tops, table, order);
      hide Reach, Removed, Acyclic, Visits, TopLevels, Ids;
      table := Unowned(table, base);
    }
  }

  method InSomeOrder(s: set<Xid>) returns (ks: seq<Xid>)
    ensures Ids(ks) == s && NoDup(ks)
  {
    ks := [];
    var todo := s;
    while todo != {}
      invariant todo !! Ids(ks) && todo + Ids(ks) == s && NoDup(ks)
      decreases todo
    {
      var x :| x in todo;
      ks, todo := ks + [x], todo - {x};
    }
  }

  // ---------------------------------------------------------------------
  // Selection owners

  datatype Claim =
    | Claimed(selection: nat, owner: Xid)   // SetSelectionOwner; 0 gives it up
    | Left(base: nat)

  // A client that leaves gives up what its windows own.
  function Reowned(selections: map<nat, Xid>, c: Claim): map<nat, Xid> {
    match c
    case Claimed(s, owner) => if owner == 0 then selections - {s} else selections[s := owner]
    case Left(base) => map s | s in selections && !Owned(base, selections[s]) :: selections[s]
  }

  function Owners(claims: seq<Claim>): map<nat, Xid> {
    if claims == [] then map[] else Reowned(Owners(claims[..|claims| - 1]), claims[|claims| - 1])
  }

  // The i-th claim gave s an owner, and nothing since took it away: no later
  // claim on s, and its client, by the block of its ids, has not left.
  ghost predicate Holds(claims: seq<Claim>, s: nat, i: nat) {
    && i < |claims| && claims[i].Claimed? && claims[i].selection == s && claims[i].owner != 0
    && forall j :: i < j < |claims| ==> Spares(claims[j], s, claims[i].owner)
  }

  predicate Spares(c: Claim, s: nat, owner: Xid) {
    match c
    case Claimed(t, _) => t != s
    case Left(base) => owner / 0x20_0000 != base / 0x20_0000
  }

  // Over every run of claims and departures a selection has an owner exactly
  // when some claim holds, and that claim names it.
  lemma {:induction false} OwnersExactly(claims: seq<Claim>, s: nat)
    ensures s in Owners(claims) <==> exists i: nat :: Holds(claims, s, i)
    ensures forall i: nat :: Holds(claims, s, i) ==> s in Owners(claims) && Owners(claims)[s] == claims[i].owner
  {
    if claims != [] {
      var few, last := claims[..|claims| - 1], claims[|claims| - 1];
      OwnersExactly(few, s);
      forall i: nat | i < |few|
        ensures Holds(claims, s, i) <==> Holds(few, s, i) && Spares(last, s, few[i].owner)
      {
        HoldsOn(few, last, s, i);
        assert few + [last] == claims;
      }
      assert forall i: nat :: Holds(few, s, i) ==> Owners(few)[s] == few[i].owner;
      if last.Claimed? && last.selection == s && last.owner != 0 {
        assert Holds(claims, s, |few|);
      }
      if i: nat :| Holds(few, s, i) {
        assert Holds(claims, s, i) || s !in Owners(claims) || (last.Claimed? && last.selection == s);
      }
    }
  }

  lemma HoldsOn(few: seq<Claim>, last: Claim, s: nat, i: nat)
    requires i < |few|
    ensures Holds(few + [last], s, i) <==> Holds(few, s, i) && Spares(last, s, few[i].owner)
  {
    var claims := few + [last];
    assert claims[|few|] == last && forall j :: 0 <= j < |few| ==> claims[j] == few[j];
  }
}
