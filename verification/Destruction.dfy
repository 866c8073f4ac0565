// Destroying windows: the recursion over a table that it mutates, on every
// table, whether or not its parent fields and children lists agree.
module Destruction {
  import opened Basics
  import opened WindowTree

  // ---------------------------------------------------------------------
  // What is reached through children lists

  ghost predicate Edge(m: Table, x: Xid, c: Xid) {
    IsWindow(m, x) && IsWindow(m, c) && c in Kids(m, x)
  }

  // y is n steps down from x.
  ghost predicate Path(m: Table, x: Xid, y: Xid, n: nat)
    decreases n
  {
    if n == 0 then x == y && IsWindow(m, x)
    else exists c :: Edge(m, x, c) && Path(m, c, y, n - 1)
  }

  ghost predicate Reaches(m: Table, x: Xid, y: Xid) {
    exists n: nat :: Path(m, x, y, n)
  }

  ghost function Reach(m: Table, s: set<Xid>): set<Xid> {
    set y | y in m && IsWindow(m, y) && exists x :: x in s && Reaches(m, x, y)
  }

  // y is reached from one of its own children.
  ghost predicate Loops(m: Table, y: Xid) {
    exists c :: Edge(m, y, c) && Reaches(m, c, y)
  }

  ghost predicate Acyclic(m: Table, s: set<Xid>) {
    forall y :: y in Reach(m, s) ==> !Loops(m, y)
  }

  ghost predicate Closed(m: Table, d: set<Xid>) {
    forall x, c :: x in d && Edge(m, x, c) ==> c in d
  }

  lemma {:induction false} PathAdd(m: Table, x: Xid, y: Xid, z: Xid, a: nat, b: nat)
    requires Path(m, x, y, a) && Path(m, y, z, b)
    ensures Path(m, x, z, a + b)
    decreases a
  {
    if a != 0 {
      var c :| Edge(m, x, c) && Path(m, c, y, a - 1);
      PathAdd(m, c, y, z, a - 1, b);
    }
  }

  lemma {:induction false} ReachesTrans(m: Table, x: Xid, y: Xid, z: Xid)
    requires Reaches(m, x, y) && Reaches(m, y, z)
    ensures Reaches(m, x, z)
  {
    var a: nat :| Path(m, x, y, a);
    var b: nat :| Path(m, y, z, b);
    PathAdd(m, x, y, z, a, b);
  }

  lemma {:induction false} ReachesFacts(m: Table, x: Xid)
    ensures IsWindow(m, x) ==> Reaches(m, x, x)
    ensures forall c :: Edge(m, x, c) ==> Reaches(m, x, c)
    ensures forall y :: Reaches(m, x, y) ==> IsWindow(m, x) && IsWindow(m, y)
    ensures forall y :: Reaches(m, x, y) ==> x == y || exists c :: Edge(m, x, c) && Reaches(m, c, y)
  {
    if IsWindow(m, x) { assert Path(m, x, x, 0); }
    forall c | Edge(m, x, c) ensures Reaches(m, x, c) {
      assert Path(m, c, c, 0);
      assert Path(m, x, c, 1);
    }
    forall y | Reaches(m, x, y)
      ensures IsWindow(m, x) && IsWindow(m, y)
      ensures x == y || exists c :: Edge(m, x, c) && Reaches(m, c, y)
    {
      var n: nat :| Path(m, x, y, n);
      PathEnds(m, x, y, n);
      if n != 0 {
        var c :| Edge(m, x, c) && Path(m, c, y, n - 1);
        assert Reaches(m, c, y);
      }
    }
  }

  lemma {:induction false} PathEnds(m: Table, x: Xid, y: Xid, n: nat)
    requires Path(m, x, y, n)
    ensures IsWindow(m, x) && IsWindow(m, y)
    decreases n
  {
    if n != 0 {
      var c :| Edge(m, x, c) && Path(m, c, y, n - 1);
      PathEnds(m, c, y, n - 1);
    }
  }

  lemma {:induction false} ReachClosed(m: Table, s: set<Xid>)
    ensures Closed(m, Reach(m, s))
  {
    forall x, c | x in Reach(m, s) && Edge(m, x, c) ensures c in Reach(m, s) {
      var t :| t in s && Reaches(m, t, x);
      ReachesFacts(m, x);
      ReachesTrans(m, t, x, c);
    }
  }

  lemma {:induction false} PathStays(m: Table, d: set<Xid>, x: Xid, y: Xid, n: nat)
    requires Closed(m, d) && x in d && Path(m, x, y, n)
    ensures y in d
    decreases n
  {
    if n != 0 {
      var c :| Edge(m, x, c) && Path(m, c, y, n - 1);
      PathStays(m, d, c, y, n - 1);
    }
  }

  // ---------------------------------------------------------------------
  // Removing a set of windows

  // Each removed window is dropped from the list of the window its parent
  // field names, unless that is 0.
  ghost function LostBy(m: Table, d: set<Xid>, x: Xid): set<Xid> {
    set c | c in d && x != 0 && ParentOf(m, c) == x
  }

  ghost function Removed(m: Table, d: set<Xid>): Table {
    map x | x in m && x !in d ::
      if IsWindow(m, x) then WindowRes(m[x].win.(children := Keep(Kids(m, x), LostBy(m, d, x)))) else m[x]
  }

  // What stays: every other entry, but for the removed windows in the children
  // lists of those their parent fields name.
  lemma {:induction false} RemovedExactly(m: Table, d: set<Xid>, x: Xid)
    ensures x in Removed(m, d) <==> x in m && x !in d
    ensures x in m && x !in d ==>
      var was, now := m[x], Removed(m, d)[x];
      if was.OtherRes? then now == was
      else
        && now == WindowRes(was.win.(children := now.win.children))
        && (forall c :: c in now.win.children <==>
              c in was.win.children && !(c in d && ParentOf(m, c) == x && x != 0))
        && ((forall c :: c in was.win.children && c in d ==> ParentOf(m, c) != x) ==> now == was)
  {
  }

  // Removing one window: out of its parent's list, then out of the table.
  ghost function Dropped(m: Table, p: Xid, w: Xid): Table {
    (if p != 0 then WithKids(m, p, Keep(Kids(m, p), {w})) else m) - {w}
  }

  lemma {:induction false} RemovedNone(m: Table)
    ensures Removed(m, {}) == m
  {
    forall x ensures LostBy(m, {}, x) == {} {}
  }

  lemma {:induction false} DroppedIsRemoved(m: Table, w: Xid)
    requires IsWindow(m, w)
    ensures Dropped(m, ParentOf(m, w), w) == Removed(m, {w})
  {
    var p := ParentOf(m, w);
    forall x ensures LostBy(m, {w}, x) == if x != 0 && x == p then {w} else {} {}
  }

  lemma {:induction false} RemovedTwice(m: Table, a: set<Xid>, b: set<Xid>)
    requires a !! b
    ensures Removed(Removed(m, a), b) == Removed(m, a + b)
  {
    var m1 := Removed(m, a);
    forall x | x in m && x !in a + b
      ensures Removed(m1, b)[x] == Removed(m, a + b)[x]
    {
      assert LostBy(m, a, x) + LostBy(m1, b, x) == LostBy(m, a + b, x) by {
        forall c | c in b && x != 0 ensures ParentOf(m1, c) == ParentOf(m, c) {}
      }
      KeepTwice(Kids(m, x), LostBy(m, a, x), LostBy(m1, b, x));
    }
  }

  lemma {:induction false} EdgeKept(m: Table, d: set<Xid>, x: Xid, c: Xid)
    ensures IsWindow(Removed(m, d), x) <==> IsWindow(m, x) && x !in d
    ensures Edge(Removed(m, d), x, c) <==> Edge(m, x, c) && x !in d && c !in d
  {
  }

  lemma {:induction false} PathKept(m: Table, d: set<Xid>, x: Xid, y: Xid, n: nat)
    requires Closed(m, d)
    ensures Path(Removed(m, d), x, y, n) <==> Path(m, x, y, n) && y !in d
    decreases n
  {
    hide Removed, Edge, Closed;
    var m' := Removed(m, d);
    if n == 0 {
      EdgeKept(m, d, x, x);
    } else if Path(m, x, y, n) && y !in d {
      var c :| Edge(m, x, c) && Path(m, c, y, n - 1);
      PathKept(m, d, c, y, n - 1);
      if x in d { PathStays(m, d, x, y, n); }
      if c in d { PathStays(m, d, c, y, n - 1); }
      EdgeKept(m, d, x, c);
      assert Edge(m', x, c) && Path(m', c, y, n - 1);
    } else if Path(m', x, y, n) {
      var c :| Edge(m', x, c) && Path(m', c, y, n - 1);
      PathKept(m, d, c, y, n - 1);
      EdgeKept(m, d, x, c);
    }
  }

  lemma {:induction false} ReachesKept(m: Table, d: set<Xid>, x: Xid, y: Xid)
    requires Closed(m, d)
    ensures Reaches(Removed(m, d), x, y) <==> Reaches(m, x, y) && y !in d
  {
    forall n: nat ensures Path(Removed(m, d), x, y, n) <==> Path(m, x, y, n) && y !in d {
      PathKept(m, d, x, y, n);
    }
  }

  lemma {:induction false} ReachKept(m: Table, d: set<Xid>, s: set<Xid>)
    requires Closed(m, d)
    ensures Reach(Removed(m, d), s) == Reach(m, s) - d
  {
    forall x, y ensures Reaches(Removed(m, d), x, y) <==> Reaches(m, x, y) && y !in d {
      ReachesKept(m, d, x, y);
    }
  }

  lemma {:induction false} LoopsKept(m: Table, d: set<Xid>, y: Xid)
    requires Closed(m, d) && y !in d
    ensures Loops(Removed(m, d), y) <==> Loops(m, y)
  {
    forall c ensures Reaches(Removed(m, d), c, y) <==> Reaches(m, c, y) {
      ReachesKept(m, d, c, y);
    }
    forall c | Reaches(m, c, y) ensures Edge(Removed(m, d), y, c) <==> Edge(m, y, c) {
      EdgeKept(m, d, y, c);
      if c in d {
        var n: nat :| Path(m, c, y, n);
        PathStays(m, d, c, y, n);
      }
    }
  }

  // ---------------------------------------------------------------------
  // The recursion

  datatype Outcome = Outcome(table: Table, order: seq<Xid>)

  ghost function Ids(ks: seq<Xid>): set<Xid> {
    set x | x in ks
  }

  // destroy_window_recursive on each of ks in turn, nesting at most `fuel`
  // deep: the table left, and the windows in the order they were removed.
  ghost function Run(m: Table, ks: seq<Xid>, fuel: nat): Option<Outcome>
    decreases fuel, |ks|
  {
    if ks == [] then Some(Outcome(m, []))
    else
      match Run(m, ks[..|ks| - 1], fuel)
      case None => None
      case Some(b) =>
        var w := ks[|ks| - 1];
        if !IsWindow(b.table, w) then Some(b)
        else if fuel == 0 then None
        else
          match Run(b.table, Kids(b.table, w), fuel - 1)
          case None => None
          case Some(i) => Some(Outcome(Dropped(i.table, ParentOf(b.table, w), w), b.order + i.order + [w]))
  }

  // Every listed child of a window comes before it.
  ghost predicate ChildrenFirst(m: Table, order: seq<Xid>) {
    forall i, c :: 0 <= i < |order| && Edge(m, order[i], c) ==> c in order[..i]
  }

  ghost predicate Visits(m: Table, s: set<Xid>, order: seq<Xid>) {
    NoDup(order) && (forall x :: x in order <==> x in Reach(m, s)) && ChildrenFirst(m, order)
  }

  // What is reached from w: w, and what its children reach.
  lemma {:induction false} ReachOne(m: Table, w: Xid)
    ensures IsWindow(m, w) ==> Reach(m, {w}) == Reach(m, Ids(Kids(m, w))) + {w}
    ensures !IsWindow(m, w) ==> Reach(m, {w}) == {}
  {
    ReachesFacts(m, w);
    if IsWindow(m, w) {
      assert w in Reach(m, {w});
      forall y | y in Reach(m, {w}) && y != w ensures y in Reach(m, Ids(Kids(m, w))) {
        var c :| Edge(m, w, c) && Reaches(m, c, y);
        assert c in Ids(Kids(m, w));
      }
      forall y | y in Reach(m, Ids(Kids(m, w))) ensures y in Reach(m, {w}) {
        var c :| c in Ids(Kids(m, w)) && Reaches(m, c, y);
        ReachesFacts(m, c);
        ReachesTrans(m, w, c, y);
      }
    }
  }

  lemma {:induction false} AcyclicOne(m: Table, w: Xid)
    requires IsWindow(m, w)
    ensures Acyclic(m, {w}) <==> Acyclic(m, Ids(Kids(m, w)))
    ensures Loops(m, w) <==> w in Reach(m, Ids(Kids(m, w)))
  {
    ReachOne(m, w);
    var kids := Ids(Kids(m, w));
    if w in Reach(m, kids) {
      var c :| c in kids && Reaches(m, c, w);
      ReachesFacts(m, c);
      assert Edge(m, w, c) && Loops(m, w);
    }
    if Loops(m, w) {
      var c :| Edge(m, w, c) && Reaches(m, c, w);
      assert c in kids;
    }
  }

  // What is reached from one more window, once the rest is removed.
  lemma {:induction false} ReachMore(m: Table, s: set<Xid>, w: Xid)
    ensures var d, m' := Reach(m, s), Removed(m, Reach(m, s));
      && Closed(m, d) && d !! Reach(m', {w})
      && Reach(m, s + {w}) == d + Reach(m', {w})
      && Reach(m', {w}) == Reach(m, {w}) - d
      && (Acyclic(m, s + {w}) <==> Acyclic(m, s) && Acyclic(m', {w}))
  {
    var d := Reach(m, s);
    ReachClosed(m, s);
    ReachKept(m, d, {w});
    assert w in {w};
    assert Reach(m, s + {w}) == d + Reach(m, {w});
    forall y | y !in d ensures Loops(Removed(m, d), y) <==> Loops(m, y) {
      LoopsKept(m, d, y);
    }
  }

  lemma {:induction false} IdsLast(ks: seq<Xid>)
    requires ks != []
    ensures Ids(ks) == Ids(ks[..|ks| - 1]) + {ks[|ks| - 1]}
  {
    assert ks == ks[..|ks| - 1] + [ks[|ks| - 1]];
  }

  // What a run over the windows s leaves: nothing on a cycle was reached;
  // exactly what was reached has been visited and is removed.
  ghost predicate Ended(m: Table, s: set<Xid>, o: Outcome) {
    Acyclic(m, s) && o.table == Removed(m, Reach(m, s)) && Visits(m, s, o.order)
  }

  lemma {:induction false} EndedOne(m: Table, w: Xid, i: Outcome)
    requires IsWindow(m, w) && Ended(m, Ids(Kids(m, w)), i)
    ensures Ended(m, {w}, Outcome(Dropped(i.table, ParentOf(m, w), w), i.order + [w]))
  {
    var kids := Ids(Kids(m, w));
    AcyclicOne(m, w);
    ReachOne(m, w);
    assert w !in Reach(m, kids);
    EdgeKept(m, Reach(m, kids), w, w);
    assert ParentOf(i.table, w) == ParentOf(m, w);
    DroppedIsRemoved(i.table, w);
    RemovedTwice(m, Reach(m, kids), {w});
    VisitsOne(m, w, i.order);
    hide Edge, Reach, Removed, Dropped, Ids, Loops, Acyclic, Visits;
  }

  lemma {:induction false} VisitsOne(m: Table, w: Xid, order: seq<Xid>)
    requires IsWindow(m, w) && w !in Reach(m, Ids(Kids(m, w))) && Visits(m, Ids(Kids(m, w)), order)
    ensures Visits(m, {w}, order + [w])
  {
    ReachOne(m, w);
    hide Edge, Reach;
    NoDupConcat(order, [w]);
    forall j, c | 0 <= j < |order + [w]| && Edge(m, (order + [w])[j], c) ensures c in (order + [w])[..j] {
      assert (order + [w])[..j] == order[..j];
      if j == |order| { LastVisit(m, w, c); }
    }
  }

  lemma {:induction false} LastVisit(m: Table, w: Xid, c: Xid)
    requires Edge(m, w, c)
    ensures c in Reach(m, Ids(Kids(m, w)))
  {
    ReachesFacts(m, c);
  }

  lemma {:induction false} EndedMore(m: Table, s: set<Xid>, w: Xid, b: Outcome, i: Outcome)
    requires Ended(m, s, b) && Ended(b.table, {w}, i)
    ensures Ended(m, s + {w}, Outcome(i.table, b.order + i.order))
  {
    var d := Reach(m, s);
    ReachMore(m, s, w);
    hide Reach, Edge, Removed, Acyclic;
    NoDupConcat(b.order, i.order);
    RemovedTwice(m, d, Reach(b.table, {w}));
    LaterChildrenFirst(m, d, b.order, i.order);
  }

  lemma {:induction false} LaterChildrenFirst(m: Table, d: set<Xid>, a: seq<Xid>, b: seq<Xid>)
    requires ChildrenFirst(m, a) && ChildrenFirst(Removed(m, d), b)
    requires (forall x :: x in a <==> x in d) && forall x :: x in b ==> x !in d
    ensures ChildrenFirst(m, a + b)
  {
    hide Edge, Removed;
    forall i, c | 0 <= i < |a + b| && Edge(m, (a + b)[i], c) ensures c in (a + b)[..i] {
      if i < |a| {
        assert (a + b)[..i] == a[..i];
      } else {
        assert (a + b)[..i] == a + b[..i - |a|];
        assert b[i - |a|] in b;
        EdgeKept(m, d, b[i - |a|], c);
      }
    }
  }

  lemma {:induction false} EndedNone(m: Table, w: Xid)
    requires !IsWindow(m, w)
    ensures Ended(m, {w}, Outcome(m, []))
  {
    ReachOne(m, w);
    RemovedNone(m);
    hide Reach, Removed;
  }

  // If the recursion ends, nothing it reached was on a cycle; it visited
  // exactly what was reached, once each and children first, and removed that.
  lemma {:induction false} RunExactly(m: Table, ks: seq<Xid>, fuel: nat)
    requires Run(m, ks, fuel).Some?
    ensures Ended(m, Ids(ks), Run(m, ks, fuel).value)
    decreases fuel, |ks|
  {
    hide Ended, Dropped, Ids;
    if ks == [] {
      EndedStart(m);
    } else {
      var few, w := ks[..|ks| - 1], ks[|ks| - 1];
      var b := Run(m, few, fuel).value;
      RunExactly(m, few, fuel);
      IdsLast(ks);
      if IsWindow(b.table, w) {
        var kids := Kids(b.table, w);
        RunExactly(b.table, kids, fuel - 1);
        var i := Run(b.table, kids, fuel - 1).value;
        EndedOne(b.table, w, i);
        EndedMore(m, Ids(few), w, b, Outcome(Dropped(i.table, ParentOf(b.table, w), w), i.order + [w]));
        ConcatAssoc(b.order, i.order, [w]);
      } else {
        EndedNone(b.table, w);
        EndedMore(m, Ids(few), w, b, Outcome(b.table, []));
        assert b.order + [] == b.order;
      }
    }
  }

  lemma {:induction false} EndedStart(m: Table)
    ensures Ended(m, Ids([]), Outcome(m, []))
  {
    assert Reach(m, Ids([])) == {};
    RemovedNone(m);
  }

  // With a nesting bound of the number of windows reached, it ends on every
  // table on which none of these is on a cycle.
  lemma {:induction false} RunEnds(m: Table, ks: seq<Xid>, fuel: nat)
    requires Acyclic(m, Ids(ks)) && |Reach(m, Ids(ks))| <= fuel
    ensures Run(m, ks, fuel).Some?
    decreases fuel, |ks|
  {
    hide Reach, Ended, Ids, Acyclic, Dropped;
    if ks != [] {
      var few, w := ks[..|ks| - 1], ks[|ks| - 1];
      IdsLast(ks);
      Fewer(m, Ids(few), w);
      RunEnds(m, few, fuel);
      RunExactly(m, few, fuel);
      var b := Run(m, few, fuel).value;
      if IsWindow(b.table, w) {
        NextReachesLess(m, Ids(few), w, b);
        ChildrenReachLess(b.table, w);
        RunEnds(b.table, Kids(b.table, w), fuel - 1);
      }
    }
  }

  lemma {:induction false} Fewer(m: Table, s: set<Xid>, w: Xid)
    ensures Acyclic(m, s + {w}) ==> Acyclic(m, s)
    ensures |Reach(m, s)| <= |Reach(m, s + {w})|
  {
    ReachMore(m, s, w);
    hide Reach, Acyclic;
    Smaller(Reach(m, s), Reach(m, s + {w}));
  }

  lemma {:induction false} ChildrenReachLess(m: Table, w: Xid)
    requires IsWindow(m, w) && Acyclic(m, {w})
    ensures Acyclic(m, Ids(Kids(m, w)))
    ensures |Reach(m, Ids(Kids(m, w)))| < |Reach(m, {w})|
  {
    hide Reach, Acyclic, Loops, Ids;
    AcyclicOne(m, w);
    LoopsAtOnce(m, w);
    ReachOne(m, w);
  }

  // After the windows s, the next one reaches what is left.
  lemma {:induction false} NextReachesLess(m: Table, s: set<Xid>, w: Xid, b: Outcome)
    requires Acyclic(m, s + {w}) && Ended(m, s, b)
    ensures Acyclic(b.table, {w}) && |Reach(b.table, {w})| <= |Reach(m, s + {w})|
  {
    hide Reach, Removed, Acyclic, Loops, Ids, Visits;
    ReachMore(m, s, w);
    assert b.table == Removed(m, Reach(m, s));
    Smaller(Reach(b.table, {w}), Reach(m, s + {w}));
  }

  lemma {:induction false} LoopsAtOnce(m: Table, w: Xid)
    requires IsWindow(m, w) && Acyclic(m, {w})
    ensures w !in Reach(m, Ids(Kids(m, w)))
  {
    ReachOne(m, w);
    AcyclicOne(m, w);
    hide Reach, Ids, Loops;
  }

  lemma {:induction false} Smaller(a: set<Xid>, b: set<Xid>)
    requires a <= b
    ensures |a| <= |b|
  {
    if a != {} {
      var x :| x in a;
      Smaller(a - {x}, b - {x});
    }
  }

  lemma {:induction false} RunSame(m: Table, ks: seq<Xid>, f: nat, g: nat)
    requires Run(m, ks, f).Some? && f <= g
    ensures Run(m, ks, g) == Run(m, ks, f)
    decreases f, |ks|
  {
    if ks != [] {
      var few, w := ks[..|ks| - 1], ks[|ks| - 1];
      RunSame(m, few, f, g);
      var b := Run(m, few, f).value;
      if IsWindow(b.table, w) {
        RunSame(b.table, Kids(b.table, w), f - 1, g - 1);
      }
    }
  }

  // Destroying the windows ks ends if and only if no window reached from them
  // through children lists reaches itself.
  lemma {:induction false} DestroyEnds(m: Table, ks: seq<Xid>)
    ensures (exists fuel: nat :: Run(m, ks, fuel).Some?) <==> Acyclic(m, Ids(ks))
  {
    if Acyclic(m, Ids(ks)) {
      RunEnds(m, ks, |Reach(m, Ids(ks))|);
    }
    if fuel: nat :| Run(m, ks, fuel).Some? {
      RunExactly(m, ks, fuel);
    }
  }

  // The native handles met along a visit order.
  ghost function Handles(m: Table, order: seq<Xid>): seq<nat> {
    if order == [] then []
    else
      var w := order[|order| - 1];
      Handles(m, order[..|order| - 1]) +
        (if IsWindow(m, w) && m[w].win.native.Some? then [m[w].win.native.value] else [])
  }

  lemma NoHandles(m: Table)
    ensures Handles(m, []) == []
  {
  }

  lemma {:induction false} HandlesConcat(m: Table, a: seq<Xid>, b: seq<Xid>)
    ensures Handles(m, a + b) == Handles(m, a) + Handles(m, b)
  {
    if b == [] {
      assert a + b == a;
    } else {
      assert (a + b)[..|a + b| - 1] == a + b[..|b| - 1];
      HandlesConcat(m, a, b[..|b| - 1]);
    }
  }

  // The native handles of the windows of an order without repetition, in that
  // order: there is one for each window that has one, and the windows it
  // comes from are met in turn.
  lemma {:induction false} HandlesExactly(m: Table, order: seq<Xid>) returns (from: seq<nat>)
    ensures |from| == |Handles(m, order)| && forall k :: 0 <= k < |from| ==>
      from[k] < |order| && NativeOf(m, order[from[k]]) == Some(Handles(m, order)[k])
    ensures forall k, l :: 0 <= k < l < |from| ==> from[k] < from[l]
    ensures forall i :: 0 <= i < |order| ==> (i in from <==> NativeOf(m, order[i]).Some?)
  {
    from := [];
    if order != [] {
      var few, w := order[..|order| - 1], order[|order| - 1];
      from := HandlesExactly(m, few);
      HandlesLast(m, few, w);
      assert few + [w] == order;
      hide Handles, NativeOf;
      assert forall k :: 0 <= k < |from| ==> order[from[k]] == few[from[k]];
      if NativeOf(m, w).Some? {
        from := from + [|few|];
      }
    }
  }

  function NativeOf(m: Table, w: Xid): Option<nat> {
    if w in m && m[w].WindowRes? then m[w].win.native else None
  }

  lemma HandlesLast(m: Table, few: seq<Xid>, w: Xid)
    ensures Handles(m, few + [w]) ==
      Handles(m, few) + if NativeOf(m, w).Some? then [NativeOf(m, w).value] else []
  {
    assert (few + [w])[..|few|] == few;
  }

  // Records keep their native handles until they are removed.
  lemma {:induction false} HandlesKept(m: Table, d: set<Xid>, order: seq<Xid>)
    requires forall x :: x in order ==> IsWindow(m, x) && x !in d
    ensures Handles(Removed(m, d), order) == Handles(m, order)
  {
    if order != [] {
      HandlesKept(m, d, order[..|order| - 1]);
    }
  }

  // ---------------------------------------------------------------------
  // A run without its bound, one step at a time

  ghost predicate Ran(m: Table, ks: seq<Xid>, t: Table, order: seq<Xid>) {
    exists fuel: nat :: Run(m, ks, fuel) == Some(Outcome(t, order))
  }

  lemma {:induction false} RanExactly(m: Table, ks: seq<Xid>, t: Table, order: seq<Xid>)
    requires Ran(m, ks, t, order)
    ensures Ended(m, Ids(ks), Outcome(t, order))
  {
    var fuel: nat :| Run(m, ks, fuel) == Some(Outcome(t, order));
    RunExactly(m, ks, fuel);
  }

  lemma {:induction false} RanStart(m: Table, ks: seq<Xid>)
    ensures Ran(m, ks[..0], m, [])
  {
    assert Run(m, ks[..0], 0) == Some(Outcome(m, []));
  }

  lemma {:induction false} RunOne(m: Table, w: Xid, fuel: nat)
    ensures Run(m, [w], fuel) ==
      if !IsWindow(m, w) then Some(Outcome(m, []))
      else if fuel == 0 then None
      else
        match Run(m, Kids(m, w), fuel - 1)
        case None => None
        case Some(i) => Some(Outcome(Dropped(i.table, ParentOf(m, w), w), i.order + [w]))
  {
    assert [w][..0] == [] && Run(m, [], fuel) == Some(Outcome(m, []));
    if IsWindow(m, w) && fuel != 0 && Run(m, Kids(m, w), fuel - 1).Some? {
      var i := Run(m, Kids(m, w), fuel - 1).value;
      assert [] + i.order + [w] == i.order + [w];
    }
    hide Dropped;
  }

  lemma {:induction false} RanNone(m: Table, w: Xid)
    requires !IsWindow(m, w)
    ensures Ran(m, [w], m, []) && Ended(m, {w}, Outcome(m, []))
  {
    RunOne(m, w, 0);
    EndedNone(m, w);
  }

  lemma {:induction false} RanOne(m: Table, w: Xid, t: Table, order: seq<Xid>)
    requires IsWindow(m, w) && Ran(m, Kids(m, w), t, order)
    ensures var t' := Dropped(t, ParentOf(m, w), w);
      Ran(m, [w], t', order + [w]) && Ended(m, {w}, Outcome(t', order + [w]))
    ensures Handles(m, order + [w]) == Handles(m, order) +
            if m[w].win.native.Some? then [m[w].win.native.value] else []
  {
    var fuel: nat :| Run(m, Kids(m, w), fuel) == Some(Outcome(t, order));
    RunOne(m, w, fuel + 1);
    RanExactly(m, Kids(m, w), t, order);
    hide Ended, Dropped, Run;
    EndedOne(m, w, Outcome(t, order));
    assert (order + [w])[..|order|] == order;
  }

  // What the loop needs before it destroys the next of ks.
  lemma {:induction false} RanNext(m: Table, ks: seq<Xid>, i: nat, t: Table, order: seq<Xid>)
    requires i < |ks| && Acyclic(m, Ids(ks)) && Ran(m, ks[..i], t, order)
    ensures Acyclic(t, {ks[i]}) && |Reach(t, {ks[i]})| <= |Reach(m, Ids(ks))|
  {
    RanExactly(m, ks[..i], t, order);
    var s := Ids(ks[..i]);
    assert s + {ks[i]} <= Ids(ks);
    assert Reach(m, s + {ks[i]}) <= Reach(m, Ids(ks));
    Smaller(Reach(m, s + {ks[i]}), Reach(m, Ids(ks)));
    hide Reach, Ended, Ids;
    NextReachesLess(m, s, ks[i], Outcome(t, order));
  }

  lemma {:induction false} RanMore(m: Table, ks: seq<Xid>, i: nat, t: Table, order: seq<Xid>,
                                   t': Table, more: seq<Xid>)
    requires i < |ks| && Ran(m, ks[..i], t, order) && Ran(t, [ks[i]], t', more)
    ensures Ran(m, ks[..i + 1], t', order + more)
    ensures Handles(m, order + more) == Handles(m, order) + Handles(t, more)
  {
    var f: nat :| Run(m, ks[..i], f) == Some(Outcome(t, order));
    var g: nat :| Run(t, [ks[i]], g) == Some(Outcome(t', more));
    RunSame(m, ks[..i], f, Max(f, g));
    RunSame(t, [ks[i]], g, Max(f, g));
    RunSnoc(m, ks[..i], ks[i], Max(f, g));
    assert ks[..i] + [ks[i]] == ks[..i + 1];
    HandlesConcat(m, order, more);
    RanExactly(m, ks[..i], t, order);
    RanExactly(t, [ks[i]], t', more);
    MoreHandles(m, Ids(ks[..i]), Outcome(t, order), Ids([ks[i]]), Outcome(t', more));
    hide Run, Ended;
  }

  lemma {:induction false} MoreHandles(m: Table, s: set<Xid>, b: Outcome, s': set<Xid>, i: Outcome)
    requires Ended(m, s, b) && Ended(b.table, s', i)
    ensures Handles(b.table, i.order) == Handles(m, i.order)
  {
    var d := Reach(m, s);
    forall x | x in i.order ensures IsWindow(m, x) && x !in d {
      assert x in Reach(b.table, s');
      EdgeKept(m, d, x, x);
    }
    HandlesKept(m, d, i.order);
  }

  lemma {:induction false} RunSnoc(m: Table, ks: seq<Xid>, w: Xid, fuel: nat)
    requires Run(m, ks, fuel).Some? && Run(Run(m, ks, fuel).value.table, [w], fuel).Some?
    ensures var b := Run(m, ks, fuel).value;
      var i := Run(b.table, [w], fuel).value;
      Run(m, ks + [w], fuel) == Some(Outcome(i.table, b.order + i.order))
  {
    assert (ks + [w])[..|ks|] == ks;
    var b := Run(m, ks, fuel).value;
    RunOne(b.table, w, fuel);
    hide Dropped;
    if IsWindow(b.table, w) {
      ConcatAssoc(b.order, Run(b.table, Kids(b.table, w), fuel - 1).value.order, [w]);
    } else {
      assert b.order + [] == b.order;
    }
  }

  // ---------------------------------------------------------------------
  // On a tree

  // The table after DestroyWindow on wid.
  ghost function Destroyed(m: Table, wid: Xid): Table {
    Removed(m, Reach(m, {wid}))
  }

  lemma {:induction false} PathIsUp(m: Table, root: Xid, x: Xid, y: Xid, n: nat)
    requires Tree(m, root) && IsWindow(m, y)
    ensures Path(m, x, y, n) <==> IsWindow(m, x) && Up(m, y, n) == x
    decreases n
  {
    if n != 0 {
      var c := Up(m, y, n - 1);
      UpOne(m, y, n - 1);
      PathIsUp(m, root, c, y, n - 1);
      if Path(m, x, y, n) {
        var c' :| Edge(m, x, c') && Path(m, c', y, n - 1);
        PathIsUp(m, root, c', y, n - 1);
      } else if IsWindow(m, x) && Up(m, y, n) == x {
        assert Edge(m, x, c);
      }
    }
  }

  lemma {:induction false} ReachesIsBelow(m: Table, root: Xid, x: Xid, y: Xid)
    requires Tree(m, root) && IsWindow(m, y)
    ensures Reaches(m, x, y) <==> IsWindow(m, x) && Below(m, y, x)
  {
    forall n: nat ensures Path(m, x, y, n) <==> IsWindow(m, x) && Up(m, y, n) == x {
      PathIsUp(m, root, x, y, n);
    }
  }

  lemma {:induction false} ReachIsSubtree(m: Table, root: Xid, w: Xid)
    requires Tree(m, root) && IsWindow(m, w)
    ensures Reach(m, {w}) == Subtree(m, w)
  {
    forall y | IsWindow(m, y) ensures Reaches(m, w, y) <==> Below(m, y, w) {
      ReachesIsBelow(m, root, w, y);
    }
    assert w in {w};
  }

  lemma {:induction false} TreeAcyclic(m: Table, root: Xid, s: set<Xid>)
    requires Tree(m, root)
    ensures Acyclic(m, s)
  {
    forall y | y in Reach(m, s) ensures !Loops(m, y) {
      if Loops(m, y) {
        var c :| Edge(m, y, c) && Reaches(m, c, y);
        ReachesIsBelow(m, root, c, y);
        var n: nat :| Up(m, y, n) == c;
        UpOne(m, y, n);
        NoCycle(m, root, y, n + 1);
      }
    }
  }

  // On a tree the parent's list is the only one that changes.
  lemma {:induction false} RemovedKids(m: Table, root: Xid, d: set<Xid>, x: Xid)
    requires Tree(m, root) && x !in d
    ensures Kids(Removed(m, d), x) == Keep(Kids(m, x), d)
  {
    if IsWindow(m, x) {
      forall c | c in Kids(m, x) ensures c in d <==> c in LostBy(m, d, x) {}
      KeepSame(Kids(m, x), d, LostBy(m, d, x));
    }
  }

  lemma {:induction false} RemovedTree(m: Table, root: Xid, d: set<Xid>)
    requires Tree(m, root) && Closed(m, d) && root !in d
    ensures Tree(Removed(m, d), root)
  {
    var m' := Removed(m, d);
    forall x | x !in d ensures Kids(m', x) == Keep(Kids(m, x), d) && NoDup(Kids(m', x)) {
      RemovedKids(m, root, d, x);
      KeepNoDup(Kids(m, x), d);
    }
    forall x ensures IsWindow(m', x) <==> IsWindow(m, x) && x !in d { EdgeKept(m, d, x, x); }
    forall x | x !in d ensures ParentOf(m', x) == ParentOf(m, x) {}
    hide Removed, Keep, NoDup;
    assert Listed(m', root) by {
      forall x | IsWindow(m', x) && x != root
        ensures IsWindow(m', ParentOf(m', x)) && x in Kids(m', ParentOf(m', x))
      {
        assert Edge(m, ParentOf(m, x), x);
      }
    }
    assert Agreeing(m') by {
      forall p, c | c in Kids(m', p) ensures IsWindow(m', c) && ParentOf(m', c) == p {
        assert IsWindow(m', p);
        assert c in Kids(m, p);
      }
    }
    forall x | IsWindow(m', x) ensures Below(m', x, root) {
      assert Below(m, x, root);
      var n: nat :| Up(m, x, n) == root;
      UpKept(m, m', root, d, x, n);
    }
  }

  lemma {:induction false} UpKept(m: Table, m': Table, root: Xid, d: set<Xid>, x: Xid, n: nat)
    requires Tree(m, root) && Closed(m, d) && root !in d && x !in d && IsWindow(m, x)
    requires forall q :: q !in d ==> ParentOf(m', q) == ParentOf(m, q)
    requires Up(m, x, n) == root
    ensures Up(m', x, n) == root
    decreases n
  {
    if n != 0 {
      if x == root {
        UpFromNone(m, n - 1);
      } else {
        assert Edge(m, ParentOf(m, x), x);
        UpKept(m, m', root, d, ParentOf(m, x), n - 1);
      }
    }
  }

  lemma {:induction false} RootReached(m: Table, root: Xid, s: set<Xid>)
    requires Tree(m, root)
    ensures root in Reach(m, s) <==> root in s
  {
    if root in s {
      ReachesFacts(m, root);
    }
    if root in Reach(m, s) {
      var x :| x in s && Reaches(m, x, root);
      ReachesIsBelow(m, root, x, root);
      var n: nat :| Up(m, root, n) == x;
      if n != 0 { UpFromNone(m, n - 1); }
    }
  }

  lemma {:induction false} DestroyKeeps(m: Table, root: Xid, wid: Xid)
    requires Tree(m, root)
    ensures Tree(Destroyed(m, wid), root) <==> wid != root
  {
    RootReached(m, root, {wid});
    ReachClosed(m, {wid});
    hide Reach;
    if wid != root {
      RemovedTree(m, root, Reach(m, {wid}));
    }
  }

  // A destroy removes the subtree and nothing else, and touches no other
  // entry than the parent, which keeps its other children in order.
  lemma {:induction false} DestroyExactly(m: Table, root: Xid, wid: Xid)
    requires Tree(m, root) && IsWindow(m, wid)
    ensures var m' := Destroyed(m, wid);
      && (forall x :: x in m' <==> x in m && x !in Subtree(m, wid))
      && (forall x :: x in m' && x != ParentOf(m, wid) ==> m'[x] == m[x])
      && (wid != root ==> Kids(m', ParentOf(m, wid)) == Keep(Kids(m, ParentOf(m, wid)), {wid}))
      && (forall x :: IsWindow(m', x) ==> ParentOf(m', x) == ParentOf(m, x))
  {
    ReachIsSubtree(m, root, wid);
    var d := Subtree(m, wid);
    forall x, c | x !in d && c in d && ParentOf(m, c) == x && x != 0 ensures c == wid {
      if c != wid { ParentBelow(m, c, wid); }
    }
    forall x | x in m && x !in d
      ensures LostBy(m, d, x) <= {wid} && (x != ParentOf(m, wid) ==> LostBy(m, d, x) == {})
    {
    }
    if wid != root {
      ParentNotBelow(m, root, wid);
      BelowSelf(m, wid);
      assert LostBy(m, d, ParentOf(m, wid)) == {wid};
    }
    hide Tree, Below, Reach;
  }

  lemma {:induction false} ParentBelow(m: Table, x: Xid, w: Xid)
    requires Below(m, x, w) && x != w
    ensures Below(m, ParentOf(m, x), w)
  {
    var n: nat :| Up(m, x, n) == w;
    assert Up(m, ParentOf(m, x), n - 1) == w;
  }

  lemma {:induction false} ParentNotBelow(m: Table, root: Xid, w: Xid)
    requires Tree(m, root) && IsWindow(m, w)
    ensures ParentOf(m, w) !in Subtree(m, w)
  {
    var p := ParentOf(m, w);
    if p in Subtree(m, w) {
      var n: nat :| Up(m, p, n) == w;
      assert Up(m, w, n + 1) == Up(m, p, n);
      NoCycle(m, root, w, n + 1);
    }
  }

  // Destroying a window just created gives back the table, less whatever
  // other resource had held its id.
  lemma {:induction false} CreateThenDestroy(m: Table, root: Xid, wid: Xid, parent: Xid, g: Geometry,
                                             sel: seq<(nat, nat)>)
    requires Tree(m, root) && wid != 0 && !IsWindow(m, wid) && IsWindow(m, parent)
    ensures Destroyed(Created(m, wid, parent, g, sel), wid) == m - {wid}
  {
    var m' := Created(m, wid, parent, g, sel);
    assert Kids(m', wid) == [] && ParentOf(m', wid) == parent;
    ReachOne(m', wid);
    assert Reach(m', Ids([])) == {};
    assert wid !in Kids(m, parent) && parent != 0;
    KeepLast(Kids(m, parent), wid);
    hide Reach, Removed, Tree, Keep, Created, Dropped;
    DroppedIsRemoved(m', wid);
    DropCreated(m, wid, parent, g, sel);
    assert Reach(m', {wid}) == {wid};
  }

  lemma DropCreated(m: Table, wid: Xid, parent: Xid, g: Geometry, sel: seq<(nat, nat)>)
    requires IsWindow(m, parent) && !IsWindow(m, wid) && parent != 0
    requires Keep(Kids(m, parent) + [wid], {wid}) == Kids(m, parent)
    ensures Dropped(Created(m, wid, parent, g, sel), parent, wid) == m - {wid}
  {
    hide Keep;
  }
}
