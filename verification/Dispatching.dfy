// From a drawable's render commands to the surface that shows it: a native
// window's clears go around its children, any other window's commands are
// moved into the surface of its nearest native ancestor.
module Dispatching {
  import opened Basics
  import opened Pixels
  import opened Line
  import opened Drawing
  import opened Clip
  import opened Moving
  import opened WindowTree
  import Coordinates

  // ---------------------------------------------------------------------
  // Clears around children

  function Clears(rs: seq<Rect>, color: Pixel): (cs: seq<Command>)
    ensures |cs| == |rs|
  {
    seq(|rs|, i requires 0 <= i < |rs| => ClearArea(rs[i].x, rs[i].y, rs[i].w, rs[i].h, color))
  }

  function Area(c: Command): Rect
    requires c.ClearArea?
  {
    Rect(c.x, c.y, c.w, c.h)
  }

  function ClipOne(children: seq<Rect>, c: Command): seq<Command> {
    if c.ClearArea? then Clears(Clipped(Area(c), children), c.color) else [c]
  }

  function ClipAll(children: seq<Rect>, cs: seq<Command>): seq<Command> {
    if cs == [] then [] else ClipAll(children, cs[..|cs| - 1]) + ClipOne(children, cs[|cs| - 1])
  }

  // The rectangles of the mapped windows among kids.
  function MappedRects(m: Table, kids: seq<Xid>): seq<Rect> {
    if kids == [] then []
    else
      var few, k := MappedRects(m, kids[..|kids| - 1]), kids[|kids| - 1];
      if IsWindow(m, k) && m[k].win.mapped then
        var g := m[k].win.geometry;
        few + [Rect(g.x, g.y, g.width, g.height)]
      else few
  }

  // They cover the points of the mapped children and no others.
  lemma {:induction false} MappedCover(m: Table, kids: seq<Xid>, px: int, py: int)
    ensures Covered(MappedRects(m, kids), px, py) <==>
      exists i :: 0 <= i < |kids| && Shelters(m, kids[i], px, py)
  {
    if kids != [] {
      var few, k := kids[..|kids| - 1], kids[|kids| - 1];
      MappedCover(m, few, px, py);
      var rects := MappedRects(m, kids);
      if IsWindow(m, k) && m[k].win.mapped {
        SplitLast(rects, px, py);
        assert rects[..|rects| - 1] == MappedRects(m, few);
      }
      if i :| 0 <= i < |few| && Shelters(m, few[i], px, py) { assert kids[i] == few[i]; }
      hide Covered;
    } else {
      assert !Covered([], px, py);
    }
  }

  predicate Shelters(m: Table, k: Xid, px: int, py: int) {
    k in m && m[k].WindowRes? && m[k].win.mapped &&
    var g := m[k].win.geometry;
    g.x <= px < g.x + g.width && g.y <= py < g.y + g.height
  }

  // Clearing as the X protocol means it: never inside a child.
  ghost function PixelAround(f: Size, children: seq<Rect>, c: Command, pic: Picture, px: int, py: int): Pixel
    requires f.Valid() && Fits(f, pic) && f.Visible(px, py)
  {
    if c.ClearArea? && Covered(children, px, py) then pic[py][px] else PixelAfter(f, c, pic, px, py)
  }

  ghost function RenderAround(f: Size, children: seq<Rect>, cs: seq<Command>, pic: Picture): (r: Picture)
    requires f.Valid() && Fits(f, pic)
    ensures Fits(f, r)
  {
    if cs == [] then pic
    else
      var before := RenderAround(f, children, cs[..|cs| - 1], pic);
      seq(f.height, y requires 0 <= y < f.height =>
        seq(f.stride, x requires 0 <= x < f.stride =>
          if x < f.width then PixelAround(f, children, cs[|cs| - 1], before, x, y) else before[y][x]))
  }

  // Fields are INT16 and CARD16, and what a clear shows on the surface wraps
  // nowhere into sight or out of it.
  ghost predicate Clippable(f: Size, cs: seq<Command>) {
    forall i :: 0 <= i < |cs| && cs[i].ClearArea? ==>
      InRange(Area(cs[i])) && EdgesFitOn(f.width, f.height, Area(cs[i]))
  }

  lemma {:induction false} ClearsAt(f: Size, rs: seq<Rect>, color: Pixel, pic: Picture, px: int, py: int)
    requires f.Valid() && Fits(f, pic) && f.Visible(px, py)
    ensures RenderAll(f, Clears(rs, color), pic)[py][px] ==
      if Covered(rs, px, py) then FillPixel(GX_COPY, color, pic[py][px]) else pic[py][px]
  {
    hide Render, PixelAfter, Covered, Has, FillPixel;
    if rs == [] {
      assert !Covered(rs, px, py) by { CoveredCons(rs, px, py); }
    } else {
      var cs := Clears(rs, color);
      assert cs[1..] == Clears(rs[1..], color);
      var next := Render(f, cs[0], pic);
      assert cs[0] == ClearArea(rs[0].x, rs[0].y, rs[0].w, rs[0].h, color);
      ClearAt(f, rs[0], color, pic, px, py);
      ClearsAt(f, rs[1..], color, next, px, py);
      CoveredCons(rs, px, py);
      FillForgets(color, pic[py][px], next[py][px]);
    }
  }

  lemma ClearAt(f: Size, r: Rect, color: Pixel, pic: Picture, px: int, py: int)
    requires f.Valid() && Fits(f, pic) && f.Visible(px, py)
    ensures Render(f, ClearArea(r.x, r.y, r.w, r.h, color), pic)[py][px] ==
      if Has(r, px, py) then FillPixel(GX_COPY, color, pic[py][px]) else pic[py][px]
  {
    hide FillPixel;
  }

  lemma FillForgets(color: Pixel, a: Pixel, b: Pixel)
    ensures FillPixel(GX_COPY, color, a) == FillPixel(GX_COPY, color, b)
  {
  }

  lemma CoveredCons(rs: seq<Rect>, px: int, py: int)
    ensures Covered(rs, px, py) <==> rs != [] && (Has(rs[0], px, py) || Covered(rs[1..], px, py))
  {
    hide Has;
    if rs != [] {
      CoveredConcat([rs[0]], rs[1..], px, py);
      assert [rs[0]] + rs[1..] == rs;
      assert Covered([rs[0]], px, py) <==> Has([rs[0]][0], px, py);
    }
  }

  // What reaches the surface clears exactly the points of each cleared
  // rectangle outside every mapped child, for any mix of commands.
  lemma {:induction false} ClearsGoAround(f: Size, children: seq<Rect>, cs: seq<Command>, pic: Picture)
    requires f.Valid() && Fits(f, pic) && AllInRange(children) && Clippable(f, cs)
    ensures RenderAll(f, ClipAll(children, cs), pic) == RenderAround(f, children, cs, pic)
  {
    if cs != [] {
      var few, c := cs[..|cs| - 1], cs[|cs| - 1];
      ClearsGoAround(f, children, few, pic);
      RenderAllConcat(f, ClipAll(children, few), ClipOne(children, c), pic);
      var before := RenderAround(f, children, few, pic);
      OneGoesAround(f, children, c, before);
      var after, around := RenderAll(f, ClipOne(children, c), before), RenderAround(f, children, cs, pic);
      PaddingKept(f, ClipOne(children, c), before);
      forall x, y | f.Stored(x, y) ensures after[y][x] == around[y][x] {
        if f.Visible(x, y) { assert after[y][x] == PixelAround(f, children, c, before, x, y); }
      }
      SamePicture(f, after, around);
    }
  }

  lemma {:induction false} OneGoesAround(f: Size, children: seq<Rect>, c: Command, pic: Picture)
    requires f.Valid() && Fits(f, pic) && AllInRange(children) && Clippable(f, [c])
    ensures forall x, y :: f.Visible(x, y) ==>
      RenderAll(f, ClipOne(children, c), pic)[y][x] == PixelAround(f, children, c, pic, x, y)
  {
    if c.ClearArea? {
      assert [c][0] == c;
      hide RenderAll, ClipOne, PixelAround;
      forall x, y | f.Visible(x, y)
        ensures RenderAll(f, ClipOne(children, c), pic)[y][x] == PixelAround(f, children, c, pic, x, y)
      {
        ClearGoesAround(f, children, c, pic, x, y);
      }
    } else {
      assert [c][1..] == [];
      assert RenderAll(f, [c], pic) == RenderAll(f, [], Render(f, c, pic));
    }
  }

  lemma {:induction false} ClearGoesAround(f: Size, children: seq<Rect>, c: Command, pic: Picture, px: int, py: int)
    requires f.Valid() && Fits(f, pic) && f.Visible(px, py) && AllInRange(children)
    requires c.ClearArea? && InRange(Area(c)) && EdgesFitOn(f.width, f.height, Area(c))
    ensures RenderAll(f, ClipOne(children, c), pic)[py][px] == PixelAround(f, children, c, pic, px, py)
  {
    hide RenderAll, Clipped, Covered, EdgesFitOn, FillPixel, Has;
    ClippedOn(f.width, f.height, Area(c), children);
    assert InView(f.width, f.height, px, py);
    ClearsAt(f, Clipped(Area(c), children), c.color, pic, px, py);
    FillsArea(f, Area(c), px, py);
  }

  lemma FillsArea(f: Size, r: Rect, px: int, py: int)
    requires f.Visible(px, py)
    ensures InFill(f, r.x, r.y, r.w, r.h, px, py) <==> Has(r, px, py)
  {
  }

  // The clear goes around all children, whatever they are and whatever was
  // shown before.
  ghost predicate GoesAround(f: Size, c: Command)
    requires f.Valid()
  {
    forall children, pic :: AllInRange(children) && Fits(f, pic) ==> AroundOn(f, children, c, pic)
  }

  ghost predicate AroundOn(f: Size, children: seq<Rect>, c: Command, pic: Picture)
    requires f.Valid() && Fits(f, pic)
  {
    forall x, y :: f.Visible(x, y) ==>
      RenderAll(f, ClipOne(children, c), pic)[y][x] == PixelAround(f, children, c, pic, x, y)
  }

  lemma {:induction false} ClearExactly(f: Size, c: Command)
    requires f.Valid() && c.ClearArea? && InRange(Area(c))
    ensures GoesAround(f, c) <==> EdgesFitOn(f.width, f.height, Area(c))
  {
    hide EdgesFitOn, RenderAll, ClipOne, PixelAround, Painted;
    if EdgesFitOn(f.width, f.height, Area(c)) {
      forall children, pic | AllInRange(children) && Fits(f, pic) ensures AroundOn(f, children, c, pic) {
        forall x, y | f.Visible(x, y)
          ensures RenderAll(f, ClipOne(children, c), pic)[y][x] == PixelAround(f, children, c, pic, x, y)
        {
          ClearGoesAround(f, children, c, pic, x, y);
        }
      }
    } else {
      ClipExactOn(f.width, f.height, Area(c));
      var children :| AllInRange(children) &&
        !ExactOn(f.width, f.height, Area(c), children, Clipped(Area(c), children));
      ClearExposed(f, children, c);
      assert Fits(f, Painted(f, Point(0, 0), BLANK));
    }
  }

  lemma {:induction false} ClearExposed(f: Size, children: seq<Rect>, c: Command)
    requires f.Valid() && c.ClearArea?
    requires !ExactOn(f.width, f.height, Area(c), children, Clipped(Area(c), children))
    ensures !AroundOn(f, children, c, Painted(f, Point(0, 0), BLANK))
  {
    hide RenderAll, Clipped, Covered, FillPixel, Has, Painted, Fits;
    var pic := Painted(f, Point(0, 0), BLANK);
    var rs := Clipped(Area(c), children);
    var px, py :| InView(f.width, f.height, px, py) &&
      !(Covered(rs, px, py) <==> Has(Area(c), px, py) && !Covered(children, px, py));
    assert f.Visible(px, py);
    PaintedAt(f, Point(0, 0), BLANK, px, py);
    ClearsAt(f, rs, c.color, pic, px, py);
    FillsArea(f, Area(c), px, py);
    ClearNotClear(c.color);
  }

  // ---------------------------------------------------------------------
  // dispatch_render_commands, for windows

  datatype Batch = Batch(handle: nat, commands: seq<Command>)

  function Dispatched(m: Table, drawable: Xid, cs: seq<Command>): Option<Batch> {
    match Coordinates.Dispatch(m, drawable)
    case None => None
    case Some(found) =>
      if m[drawable].win.native.Some? then Some(Batch(found.handle, ClipAll(MappedRects(m, Kids(m, drawable)), cs)))
      else Some(Batch(found.handle, MovedAll(cs, found.at)))
  }

  // A native window's commands show on its surface with every clear kept out of
  // the mapped children.
  lemma {:induction false} DispatchedNative(m: Table, w: Xid, cs: seq<Command>, f: Size, pic: Picture)
    requires IsWindow(m, w) && m[w].win.native.Some? && Coordinates.FieldsFit(m)
    requires f.Valid() && Fits(f, pic) && Clippable(f, cs)
    ensures var kids := MappedRects(m, m[w].win.children);
      var batch := Dispatched(m, w, cs);
      && batch.Some? && batch.value.handle == m[w].win.native.value
      && RenderAll(f, batch.value.commands, pic) == RenderAround(f, kids, cs, pic)
  {
    MappedInRange(m, m[w].win.children);
    ClearsGoAround(f, MappedRects(m, m[w].win.children), cs, pic);
    hide RenderAll, RenderAround, ClipAll, MappedRects;
  }

  lemma {:induction false} MappedInRange(m: Table, kids: seq<Xid>)
    requires Coordinates.FieldsFit(m)
    ensures AllInRange(MappedRects(m, kids))
  {
    if kids != [] {
      MappedInRange(m, kids[..|kids| - 1]);
      assert IsWindow(m, kids[|kids| - 1]) || !IsWindow(m, kids[|kids| - 1]);
    }
  }

  // Any other window's commands show on its native ancestor's surface, at its
  // distance on the screen from that ancestor, what they would show on a
  // surface of its own.
  lemma {:induction false} DispatchedMoved(m: Table, root: Xid, w: Xid, cs: seq<Command>, f: Size, g: Size,
                                           outer: Picture, inner: Picture) returns (v: Xid)
    requires Tree(m, root) && IsWindow(m, w) && m[w].win.native.None? && Dispatched(m, w, cs).Some?
    requires Fits(f, outer) && Fits(g, inner)
    ensures IsWindow(m, v) && Below(m, w, v) && m[v].win.native == Some(Dispatched(m, w, cs).value.handle)
    ensures var d := Coordinates.Less(Coordinates.FromRoot(m, root, w), Coordinates.FromRoot(m, root, v));
      Inside(f, g, d) && Shows(f, g, d, outer, inner) &&
      (forall i :: 0 <= i < |cs| ==> NoWrap(cs[i], d) && Placed(f, g, d, cs[i])) ==>
        Shows(f, g, d, RenderAll(f, Dispatched(m, w, cs).value.commands, outer), RenderAll(g, cs, inner))
  {
    v := Coordinates.DispatchIsRootDistance(m, root, w);
    var at := Coordinates.Dispatch(m, w).value.at;
    var d := Coordinates.Less(Coordinates.FromRoot(m, root, w), Coordinates.FromRoot(m, root, v));
    hide Tree, Below, RenderAll, Placed, Shows, Fits;
    MovedModulo(cs, at, d);
    if Inside(f, g, d) && Shows(f, g, d, outer, inner) &&
       (forall i :: 0 <= i < |cs| ==> NoWrap(cs[i], d) && Placed(f, g, d, cs[i])) {
      MovedShows(f, g, d, cs, outer, inner);
    }
  }

  lemma {:induction false} ClipNothing(children: seq<Rect>, cs: seq<Command>)
    requires children == [] || forall i :: 0 <= i < |cs| ==> !cs[i].ClearArea?
    ensures ClipAll(children, cs) == cs
  {
    if cs != [] {
      var few, c := cs[..|cs| - 1], cs[|cs| - 1];
      ClipNothing(children, few);
      assert cs == few + [c];
      if c.ClearArea? { assert Clears([Area(c)], c.color) == [c]; }
    }
  }

  // The mapped children's rectangles, and the commands clipped by them.
  method ClipByChildren(m: Table, kids: seq<Xid>, cs: seq<Command>) returns (r: seq<Command>)
    ensures r == ClipAll(MappedRects(m, kids), cs)
  {
    var hasClear := false;
    for i := 0 to |cs|
      invariant hasClear <==> exists k :: 0 <= k < i && cs[k].ClearArea?
    {
      hasClear := hasClear || cs[i].ClearArea?;
    }
    if kids == [] || !hasClear {
      ClipNothing(MappedRects(m, kids), cs);
      return cs;
    }
    var rects := [];
    for i := 0 to |kids|
      invariant rects == MappedRects(m, kids[..i])
    {
      assert kids[..i + 1][..i] == kids[..i];
      if kids[i] in m && m[kids[i]].WindowRes? && m[kids[i]].win.mapped {
        var g := m[kids[i]].win.geometry;
        rects := rects + [Rect(g.x, g.y, g.width, g.height)];
      }
    }
    assert kids[..|kids|] == kids;
    if rects == [] {
      ClipNothing(rects, cs);
      return cs;
    }
    r := ClipEach(rects, cs);
  }

  method ClipEach(rects: seq<Rect>, cs: seq<Command>) returns (r: seq<Command>)
    ensures r == ClipAll(rects, cs)
  {
    r := [];
    for i := 0 to |cs|
      invariant r == ClipAll(rects, cs[..i])
    {
      assert cs[..i + 1][..i] == cs[..i];
      if cs[i].ClearArea? {
        var areas := ClipClearByChildren(Area(cs[i]), rects);
        r := r + Clears(areas, cs[i].color);
      } else {
        r := r + [cs[i]];
      }
    }
    assert cs[..|cs|] == cs;
  }

  method DispatchRenderCommands(m: Table, drawable: Xid, cs: seq<Command>) returns (r: Option<Batch>)
    ensures r == Dispatched(m, drawable, cs)
  {
    var found := Coordinates.DispatchTarget(m, drawable);
    if found.None? {
      return None;
    }
    if m[drawable].win.native.Some? {
      var clipped := ClipByChildren(m, m[drawable].win.children, cs);
      return Some(Batch(found.value.handle, clipped));
    }
    r := Some(Batch(found.value.handle, MovedAll(cs, found.value.at)));
  }
}
