// Drawing a window's commands into the surface of an ancestor: where that
// shows what drawing them into a surface of its own would, and where not.
module Moving {
  import opened Basics
  import opened Pixels
  import opened Line
  import opened Drawing
  import Coordinates

  function Shift(p: Point, d: Point): Point { Coordinates.Wrap(Coordinates.Plus(p, d)) }

  // offset_render_commands, with wrapping coordinates.
  function Moved(c: Command, d: Point): Command {
    match c
    case FillRectangle(x, y, w, h, color, gc) => FillRectangle(I16(x + d.x), I16(y + d.y), w, h, color, gc)
    case ClearArea(x, y, w, h, color) => ClearArea(I16(x + d.x), I16(y + d.y), w, h, color)
    case DrawLine(p, q, color, gc) => DrawLine(Shift(p, d), Shift(q, d), color, gc)
    case DrawRectangle(x, y, w, h, color, gc) => DrawRectangle(I16(x + d.x), I16(y + d.y), w, h, color, gc)
    case PutImage(x, y, w, h, depth, format, data, gc) =>
      PutImage(I16(x + d.x), I16(y + d.y), w, h, depth, format, data, gc)
    case CopyArea(sx, sy, dx, dy, w, h, gc) =>
      CopyArea(I16(sx + d.x), I16(sy + d.y), I16(dx + d.x), I16(dy + d.y), w, h, gc)
  }

  function MovedAll(cs: seq<Command>, d: Point): (r: seq<Command>)
    ensures |r| == |cs|
  {
    seq(|cs|, i requires 0 <= i < |cs| => Moved(cs[i], d))
  }

  // Moving wraps, so only the 16-bit offset counts.
  lemma {:induction false} MovedModulo(cs: seq<Command>, a: Point, b: Point)
    requires Coordinates.Wrap(a) == Coordinates.Wrap(b)
    ensures MovedAll(cs, a) == MovedAll(cs, b)
  {
    forall i | 0 <= i < |cs| ensures Moved(cs[i], a) == Moved(cs[i], b) {
      SameMove(cs[i], a, b);
    }
  }

  lemma {:induction false} SameMove(c: Command, a: Point, b: Point)
    requires Coordinates.Wrap(a) == Coordinates.Wrap(b)
    ensures Moved(c, a) == Moved(c, b)
  {
    match c
    case DrawLine(p, q, _, _) =>
      SameShift(p.x, p.y, a, b);
      SameShift(q.x, q.y, a, b);
    case CopyArea(sx, sy, dx, dy, _, _, _) =>
      SameShift(sx, sy, a, b);
      SameShift(dx, dy, a, b);
    case _ => SameShift(c.x, c.y, a, b);
  }

  lemma {:induction false} SameShift(x: int, y: int, a: Point, b: Point)
    requires Coordinates.Wrap(a) == Coordinates.Wrap(b)
    ensures I16(x + a.x) == I16(x + b.x) && I16(y + a.y) == I16(y + b.y)
  {
    Coordinates.I16Sum(a.x, x);
    Coordinates.I16Sum(b.x, x);
    Coordinates.I16Sum(a.y, y);
    Coordinates.I16Sum(b.y, y);
    hide I16;
  }

  predicate Small(v: int) { -0x8000 <= v < 0x8000 }

  // None of the moved coordinates wraps.
  predicate NoWrap(c: Command, d: Point) {
    match c
    case DrawLine(p, q, _, _) => Small(p.x + d.x) && Small(p.y + d.y) && Small(q.x + d.x) && Small(q.y + d.y)
    case CopyArea(sx, sy, dx, dy, _, _, _) =>
      Small(sx + d.x) && Small(sy + d.y) && Small(dx + d.x) && Small(dy + d.y)
    case _ => Small(c.x + d.x) && Small(c.y + d.y)
  }

  // Surface f shows window g at d.
  predicate Inside(f: Size, g: Size, d: Point) {
    f.Valid() && g.Valid() && 0 <= d.x && 0 <= d.y && d.x + g.width <= f.width && d.y + g.height <= f.height
  }

  ghost predicate Shows(f: Size, g: Size, d: Point, outer: Picture, inner: Picture)
    requires Inside(f, g, d) && Fits(f, outer) && Fits(g, inner)
  {
    forall x, y :: g.Visible(x, y) ==> outer[y + d.y][x + d.x] == inner[y][x]
  }

  // Both surfaces still agree on the window after the command.
  ghost predicate Same(f: Size, g: Size, d: Point, c: Command, outer: Picture, inner: Picture)
    requires Inside(f, g, d) && Fits(f, outer) && Fits(g, inner)
  {
    Shows(f, g, d, Render(f, Moved(c, d), outer), Render(g, c, inner))
  }

  // They do, whatever was shown before.
  ghost predicate Agrees(f: Size, g: Size, d: Point, c: Command)
    requires Inside(f, g, d)
  {
    forall outer, inner :: Fits(f, outer) && Fits(g, inner) && Shows(f, g, d, outer, inner) ==>
      Same(f, g, d, c, outer, inner)
  }

  // A picture of f whose pixel at (x, y) from d on is v(x, y).
  ghost function Painted(f: Size, d: Point, v: (int, int) -> Pixel): (r: Picture)
    ensures Fits(f, r)
  {
    seq(f.height, y => seq(f.stride, x => v(x - d.x, y - d.y)))
  }

  const BLANK: (int, int) -> Pixel := (x, y) => 0

  lemma PaintedAt(f: Size, d: Point, v: (int, int) -> Pixel, x: int, y: int)
    requires f.Stored(x + d.x, y + d.y)
    ensures Painted(f, d, v)[y + d.y][x + d.x] == v(x, y)
  {
  }

  // A pixel of the window at which the surfaces differ after the command.
  lemma {:induction false} Disagrees(f: Size, g: Size, d: Point, c: Command, v: (int, int) -> Pixel, px: int, py: int)
    requires Inside(f, g, d) && g.Visible(px, py)
    requires PixelAfter(f, Moved(c, d), Painted(f, d, v), px + d.x, py + d.y) !=
             PixelAfter(g, c, Painted(g, Point(0, 0), v), px, py)
    ensures !Agrees(f, g, d, c)
  {
    hide Painted, PixelAfter, Moved;
    var outer, inner := Painted(f, d, v), Painted(g, Point(0, 0), v);
    forall x, y | g.Visible(x, y) ensures outer[y + d.y][x + d.x] == inner[y][x] {
      PaintedAt(f, d, v, x, y);
      PaintedAt(g, Point(0, 0), v, x, y);
    }
    assert Shows(f, g, d, outer, inner);
    assert !Same(f, g, d, c, outer, inner);
  }

  // ---------------------------------------------------------------------
  // Filled, outlined and line shapes: always the same

  lemma {:induction false} LineMoved(p: Point, q: Point, d: Point, z: Point)
    ensures OnLine(Coordinates.Plus(p, d), Coordinates.Plus(q, d), Coordinates.Plus(z, d)) <==> OnLine(p, q, z)
  {
    var p', q', z' := Coordinates.Plus(p, d), Coordinates.Plus(q, d), Coordinates.Plus(z, d);
    forall k: nat ensures LinePoint(p', q', k) == z' <==> LinePoint(p, q, k) == z {
      hide Rounded;
    }
  }

  lemma {:induction false} ShapeMoved(f: Size, g: Size, d: Point, c: Command, outer: Picture, inner: Picture,
                                      px: int, py: int)
    requires Inside(f, g, d) && Fits(f, outer) && Fits(g, inner) && Shows(f, g, d, outer, inner)
    requires NoWrap(c, d) && g.Visible(px, py) && !c.PutImage? && !c.CopyArea?
    ensures PixelAfter(f, Moved(c, d), outer, px + d.x, py + d.y) == PixelAfter(g, c, inner, px, py)
  {
    assert outer[py + d.y][px + d.x] == inner[py][px];
    hide FillPixel, RopPixel, RopTimes, OnLine, Shows, InFill, EdgeVisits, Fits;
    match c
    case FillRectangle(x, y, w, h, _, _) => FillMoved(f, g, d, x, y, w, h, px, py);
    case ClearArea(x, y, w, h, _) => FillMoved(f, g, d, x, y, w, h, px, py);
    case DrawRectangle(x, y, w, h, _, _) => EdgesMoved(d, x, y, w, h, px, py);
    case DrawLine(p, q, _, _) => LineMoved(p, q, d, Point(px, py));
  }

  lemma FillMoved(f: Size, g: Size, d: Point, x: int, y: int, w: nat, h: nat, px: int, py: int)
    requires Inside(f, g, d) && g.Visible(px, py)
    ensures InFill(f, x + d.x, y + d.y, w, h, px + d.x, py + d.y) <==> InFill(g, x, y, w, h, px, py)
  {
  }

  lemma EdgesMoved(d: Point, x: int, y: int, w: nat, h: nat, px: int, py: int)
    ensures EdgeVisits(x + d.x, y + d.y, w, h, px + d.x, py + d.y) == EdgeVisits(x, y, w, h, px, py)
  {
  }

  // ---------------------------------------------------------------------
  // Images

  // The operations whose result ignores the source.
  predicate SourceFree(gc: nat) { gc in {0, 5, 10, 15} }

  predicate Complete(c: Command)
    requires c.PutImage?
  {
    c.w * c.h <= |c.data|
  }

  // Part of the image, if complete, is seen on the window's own surface.
  predicate Seen(g: Size, c: Command)
    requires c.PutImage?
  {
    && c.format == 2 && c.depth in {24, 32} && c.gc != GX_NOOP && 0 < c.w && 0 < c.h
    && Max(c.x, 0) < g.width && Max(c.y, 0) < g.height
  }

  // The renderer does not skip the columns and rows of an image that are cut
  // off at 0, so the image must not be cut off, or be cut off on both surfaces.
  predicate Aligned(d: Point, c: Command)
    requires c.PutImage?
  {
    (0 <= c.x || d.x == 0) && (0 <= c.y || d.y == 0)
  }

  // What is cut off does not show where only the extent of the image counts.
  predicate Reaches(at: int, d: int, len: nat, limit: nat) {
    0 <= at || d == 0 || limit <= Max(at, -d) + len
  }

  predicate ImagePlaced(g: Size, d: Point, c: Command)
    requires c.PutImage?
  {
    || !Seen(g, c) || Aligned(d, c)
    || (SourceFree(c.gc) && Reaches(c.x, d.x, c.w, g.width) && Reaches(c.y, d.y, c.h, g.height))
  }

  // The image's word at a pixel of a surface whose origin lies at -lo.
  function WordFrom(c: Command, lo: Point, px: int, py: int): Option<nat>
    requires c.PutImage?
  {
    var x0, y0 := Max(c.x, lo.x), Max(c.y, lo.y);
    if x0 <= px < x0 + c.w && y0 <= py < y0 + c.h then Some((py - y0) * c.w + (px - x0)) else None
  }

  lemma {:induction false} WordIndex(w: nat, h: nat, row: nat, col: nat)
    requires row < h && col < w
    ensures row * w + col < w * h && row * w + w <= w * h
  {
    NextMultiple(row, h, w);
    assert h * w == w * h;
  }

  function At(c: Command, x: int, y: int): Command
    requires c.PutImage?
  {
    PutImage(x, y, c.w, c.h, c.depth, c.format, c.data, c.gc)
  }

  lemma {:induction false} WordAt(f: Size, d: Point, c: Command, px: int, py: int)
    requires c.PutImage? && Complete(c) && f.Visible(px + d.x, py + d.y)
    ensures var i := WordFrom(c, Point(-d.x, -d.y), px, py);
      ImageWord(f, At(c, c.x + d.x, c.y + d.y), px + d.x, py + d.y) ==
        if c.format == 2 && c.depth in {24, 32} && c.gc != GX_NOOP && i.Some? then
          (WordBound(c, Point(-d.x, -d.y), px, py); Some(c.data[i.value]))
        else None
  {
    WordBound(c, Point(-d.x, -d.y), px, py);
  }

  lemma WordBound(c: Command, lo: Point, px: int, py: int)
    requires c.PutImage? && Complete(c)
    ensures var i := WordFrom(c, lo, px, py);
      i.Some? ==> i.value < |c.data| && i.value + c.w <= |c.data| + (px - Max(c.x, lo.x))
  {
    var x0, y0 := Max(c.x, lo.x), Max(c.y, lo.y);
    if x0 <= px < x0 + c.w && y0 <= py < y0 + c.h {
      WordIndex(c.w, c.h, py - y0, px - x0);
    }
  }

  // Same word, or for some operations merely some word.
  lemma {:induction false} WordsMoved(f: Size, g: Size, d: Point, c: Command, px: int, py: int)
    requires Inside(f, g, d) && c.PutImage? && NoWrap(c, d) && g.Visible(px, py)
    requires ImagePlaced(g, d, c) && Complete(c)
    ensures var u, v := ImageWord(f, Moved(c, d), px + d.x, py + d.y), ImageWord(g, c, px, py);
      u == v || (SourceFree(c.gc) && u.Some? && v.Some?)
  {
    WordAt(f, d, c, px, py);
    WordAt(g, Point(0, 0), c, px, py);
    assert Moved(c, d) == At(c, c.x + d.x, c.y + d.y) && At(c, c.x + 0, c.y + 0) == c;
    hide ImageWord, SourceFree, Moved, Complete;
  }

  lemma FreeOfSource(gc: nat, a: Pixel, b: Pixel, was: Pixel)
    requires SourceFree(gc)
    ensures ImagePixel(gc, a, was) == ImagePixel(gc, b, was)
    ensures CopiedPixel(gc, a, was) == CopiedPixel(gc, b, was)
  {
    hide Combine;
    CombineFree(gc, a | ALPHA, b | ALPHA, was);
    CombineFree(gc, a, b, was);
  }

  lemma CombineFree(gc: nat, a: Pixel, b: Pixel, was: Pixel)
    requires SourceFree(gc)
    ensures Combine(gc, a, was) == Combine(gc, b, was)
  {
  }

  // A complete image that is well placed, or an incomplete one that is not seen
  // or has the same rows on both surfaces.
  predicate ImageSame(f: Size, g: Size, d: Point, c: Command)
    requires c.PutImage?
  {
    && ImagePlaced(g, d, c)
    && (|| Complete(c) || !Seen(g, c)
        || (Aligned(d, c) && (c.gc != GX_COPY || Span(f.width, c.x + d.x, c.w) == Span(g.width, c.x, c.w))))
  }

  lemma {:induction false} ImageMoved(f: Size, g: Size, d: Point, c: Command, px: int, py: int, was: Pixel)
    requires Inside(f, g, d) && c.PutImage? && NoWrap(c, d) && g.Visible(px, py) && ImageSame(f, g, d, c)
    ensures var u, v := ImageWord(f, Moved(c, d), px + d.x, py + d.y), ImageWord(g, c, px, py);
      || u == v
      || (u.Some? && v.Some? && ImagePixel(c.gc, u.value, was) == ImagePixel(c.gc, v.value, was))
  {
    var u, v := ImageWord(f, Moved(c, d), px + d.x, py + d.y), ImageWord(g, c, px, py);
    if Complete(c) {
      WordsMoved(f, g, d, c, px, py);
      if SourceFree(c.gc) && u.Some? && v.Some? { FreeOfSource(c.gc, u.value, v.value, was); }
    } else if Seen(g, c) {
      ShortWordsMoved(f, g, d, c, px, py);
    } else {
      UnseenWords(f, g, d, c, px, py);
    }
    hide *;
  }

  lemma {:induction false} ShortWordsMoved(f: Size, g: Size, d: Point, c: Command, px: int, py: int)
    requires Inside(f, g, d) && c.PutImage? && NoWrap(c, d) && g.Visible(px, py) && Aligned(d, c)
    requires c.gc != GX_COPY || Span(f.width, c.x + d.x, c.w) == Span(g.width, c.x, c.w)
    ensures ImageWord(f, Moved(c, d), px + d.x, py + d.y) == ImageWord(g, c, px, py)
  {
  }

  lemma {:induction false} UnseenWords(f: Size, g: Size, d: Point, c: Command, px: int, py: int)
    requires Inside(f, g, d) && c.PutImage? && NoWrap(c, d) && g.Visible(px, py) && !Seen(g, c)
    ensures ImageWord(f, Moved(c, d), px + d.x, py + d.y) == None && ImageWord(g, c, px, py) == None
  {
  }

  // Probing an operation: the old pixel on which two sources tell apart.
  function Probe(gc: nat): Pixel {
    if gc in {1, 4, 11, 14} then ALL_PLANES else ALPHA
  }

  lemma {:induction false} ProbeTells(gc: nat)
    requires !SourceFree(gc)
    ensures ImagePixel(gc, ALPHA, Probe(gc)) != ImagePixel(gc, ALL_PLANES, Probe(gc))
    ensures CopiedPixel(gc, ALPHA, Probe(gc)) != CopiedPixel(gc, ALL_PLANES, Probe(gc))
  {
  }

  // Every operation but GXnoop leaves a trace on a clear pixel.
  lemma {:induction false} ShowsOnClear(gc: nat, src: Pixel)
    requires gc != GX_NOOP
    ensures ImagePixel(gc, src, 0) != 0
    ensures gc != GX_COPY ==> CopiedPixel(gc, src, 0) != 0
  {
    AlphaShows((0 & !COLORS) | (Combine(gc, src | ALPHA, 0) & COLORS));
    AlphaShows((0 & !COLORS) | (Combine(gc, src, 0) & COLORS));
    AlphaShows(src);
    hide Combine;
  }

  lemma AlphaShows(p: Pixel)
    ensures p | ALPHA != 0
  {
  }

  function With(c: Command, data: seq<Pixel>): Command
    requires c.PutImage?
  {
    PutImage(c.x, c.y, c.w, c.h, c.depth, c.format, data, c.gc)
  }

  // For any complete data and whatever was shown before.
  ghost predicate ImageAgrees(f: Size, g: Size, d: Point, c: Command)
    requires Inside(f, g, d) && c.PutImage?
  {
    forall data :: c.w * c.h <= |data| ==> Agrees(f, g, d, With(c, data))
  }

  // A complete image shows the same on both surfaces, for all data, exactly
  // when it is not seen, or is not cut off differently, or the operation
  // ignores its words and they reach across the window.
  lemma {:induction false} ImageMovesExactly(f: Size, g: Size, d: Point, c: Command)
    requires Inside(f, g, d) && c.PutImage? && NoWrap(c, d)
    ensures ImageAgrees(f, g, d, c) <==> ImagePlaced(g, d, c)
  {
    if ImagePlaced(g, d, c) {
      forall data | c.w * c.h <= |data| ensures Agrees(f, g, d, With(c, data)) {
        var i := With(c, data);
        assert ImageSame(f, g, d, i);
        SameAgrees(f, g, d, i);
      }
    } else {
      var data := MisplacedImage(f, g, d, c);
      assert c.w * c.h <= |data|;
    }
  }

  lemma {:induction false} SameAgrees(f: Size, g: Size, d: Point, c: Command)
    requires Inside(f, g, d) && NoWrap(c, d) && Placed(f, g, d, c)
    ensures Agrees(f, g, d, c)
  {
    hide Same, Shows, Fits, Moved, Placed, NoWrap;
    forall outer, inner | Fits(f, outer) && Fits(g, inner) && Shows(f, g, d, outer, inner)
      ensures Same(f, g, d, c, outer, inner)
    {
      StaysSame(f, g, d, c, outer, inner);
    }
  }

  lemma {:induction false} StaysSame(f: Size, g: Size, d: Point, c: Command, outer: Picture, inner: Picture)
    requires Inside(f, g, d) && Fits(f, outer) && Fits(g, inner) && Shows(f, g, d, outer, inner)
    requires NoWrap(c, d) && Placed(f, g, d, c)
    ensures Same(f, g, d, c, outer, inner)
  {
    hide Moved, Placed, NoWrap, PixelAfter, Render;
    var outer', inner' := Render(f, Moved(c, d), outer), Render(g, c, inner);
    forall x, y | g.Visible(x, y) ensures outer'[y + d.y][x + d.x] == inner'[y][x] {
      PixelMoved(f, g, d, c, outer, inner, x, y);
      RenderedAt(f, Moved(c, d), outer, x + d.x, y + d.y);
      RenderedAt(g, c, inner, x, y);
    }
  }

  lemma RenderedAt(f: Size, c: Command, pic: Picture, x: int, y: int)
    requires f.Valid() && Fits(f, pic) && f.Visible(x, y)
    ensures Render(f, c, pic)[y][x] == PixelAfter(f, c, pic, x, y)
  {
    hide PixelAfter;
  }

  // The data and the pixel that tell the surfaces apart.
  lemma {:induction false} MisplacedImage(f: Size, g: Size, d: Point, c: Command) returns (data: seq<Pixel>)
    requires Inside(f, g, d) && c.PutImage? && NoWrap(c, d) && !ImagePlaced(g, d, c)
    ensures |data| == c.w * c.h && !Agrees(f, g, d, With(c, data))
  {
    data := seq(c.w * c.h, i => if i == 0 then ALPHA else ALL_PLANES);
    var i := With(c, data);
    var x0, y0 := Max(c.x, 0), Max(c.y, 0);
    var px, py := MisplacedPixel(g, d, c);
    MovedImage(i, d);
    var u, v := ImageWord(f, Moved(i, d), px + d.x, py + d.y), ImageWord(g, i, px, py);
    MisplacedWords(f, g, d, i, px, py);
    var was := if u.None? then 0 else Probe(c.gc);
    if u.None? { ShowsOnClear(c.gc, v.value); } else { ProbeTells(c.gc); }
    var paint := (x, y) => was;
    hide Painted, PixelAfter, ImageWord, ImagePixel, Probe, Moved, NoWrap;
    PaintedImage(f, d, Moved(i, d), paint, px, py);
    PaintedImage(g, Point(0, 0), i, paint, px, py);
    Disagrees(f, g, d, i, paint, px, py);
  }

  lemma MovedImage(c: Command, d: Point)
    requires c.PutImage?
    ensures Moved(c, d).PutImage? && Moved(c, d).gc == c.gc
  {
  }

  lemma {:induction false} PaintedImage(f: Size, d: Point, c: Command, v: (int, int) -> Pixel, px: int, py: int)
    requires f.Valid() && c.PutImage? && f.Visible(px + d.x, py + d.y)
    ensures var word := ImageWord(f, c, px + d.x, py + d.y);
      PixelAfter(f, c, Painted(f, d, v), px + d.x, py + d.y) ==
        if word.Some? then ImagePixel(c.gc, word.value, v(px, py)) else v(px, py)
  {
    PaintedAt(f, d, v, px, py);
    hide Painted, ImageWord, ImagePixel;
  }

  lemma {:induction false} MisplacedPixel(g: Size, d: Point, c: Command) returns (px: int, py: int)
    requires c.PutImage? && !ImagePlaced(g, d, c) && 0 <= d.x && 0 <= d.y
    ensures g.Visible(px, py)
    ensures var here, there := WordFrom(c, Point(0, 0), px, py), WordFrom(c, Point(-d.x, -d.y), px, py);
      here.Some? && if SourceFree(c.gc) then there.None? else here == Some(0) && there != here
  {
    px, py := Max(c.x, 0), Max(c.y, 0);
    if SourceFree(c.gc) {
      if !Reaches(c.x, d.x, c.w, g.width) {
        px := Max(Max(c.x, -d.x) + c.w, 0);
      } else {
        py := Max(Max(c.y, -d.y) + c.h, 0);
      }
    } else {
      var x1, y1 := Max(c.x, -d.x), Max(c.y, -d.y);
      assert x1 < px || y1 < py;
      if y1 < py { NextMultiple(0, py - y1, c.w); }
    }
  }

  lemma {:induction false} MisplacedWords(f: Size, g: Size, d: Point, i: Command, px: int, py: int)
    requires Inside(f, g, d) && i.PutImage? && NoWrap(i, d) && Seen(g, i) && g.Visible(px, py)
    requires i.data == seq(i.w * i.h, k => if k == 0 then ALPHA else ALL_PLANES)
    requires var here, there := WordFrom(i, Point(0, 0), px, py), WordFrom(i, Point(-d.x, -d.y), px, py);
      here.Some? && if SourceFree(i.gc) then there.None? else here == Some(0) && there != here
    ensures var u, v := ImageWord(f, Moved(i, d), px + d.x, py + d.y), ImageWord(g, i, px, py);
      v.Some? && (u.None? || (!SourceFree(i.gc) && v == Some(ALPHA) && u == Some(ALL_PLANES)))
  {
    WordAt(f, d, i, px, py);
    WordAt(g, Point(0, 0), i, px, py);
    WordBound(i, Point(0, 0), px, py);
    WordBound(i, Point(-d.x, -d.y), px, py);
    assert Moved(i, d) == At(i, i.x + d.x, i.y + d.y) && At(i, i.x + 0, i.y + 0) == i;
    hide ImageWord, WordFrom, SourceFree, Moved;
  }

  // ---------------------------------------------------------------------
  // Copies

  // One axis of a copy, seen from a surface that begins at lo and ends at hi:
  // the first pixel written, how many, and how far on the source lies.
  datatype Axis = Axis(start: int, len: nat, shift: int)

  function AxisOf(lo: int, hi: int, src: int, dst: int, len: nat): Axis {
    var s, t := Max(src, lo), Max(dst, lo);
    Axis(t, Min(len, Min(Max(hi - s, 0), Max(hi - t, 0))), s - t)
  }

  // Where the writing ends within a window of the given extent, and whether it
  // reaches it.
  function End(a: Axis, limit: nat): int { Min(a.start + a.len, limit) }

  predicate Meets(a: Axis, limit: nat) { Max(a.start, 0) < End(a, limit) }

  function AxisX(f: Size, d: Point, c: Command): Axis
    requires c.CopyArea?
  {
    AxisOf(-d.x, f.width - d.x, c.srcX, c.dstX, c.w)
  }

  function AxisY(f: Size, d: Point, c: Command): Axis
    requires c.CopyArea?
  {
    AxisOf(-d.y, f.height - d.y, c.srcY, c.dstY, c.h)
  }

  // The copy on surface f, which shows window g at d, changes some picture of
  // the window.
  predicate Acts(f: Size, g: Size, d: Point, c: Command)
    requires c.CopyArea?
  {
    && c.gc != GX_NOOP
    && Meets(AxisX(f, d, c), g.width) && Meets(AxisY(f, d, c), g.height)
    && (c.gc == GX_COPY ==> AxisX(f, d, c).shift != 0 || AxisY(f, d, c).shift != 0)
  }

  // Clipped at either surface's edges the copy acts on neither, or ends at
  // the same places and reads equally far away.
  predicate CopyPlaced(f: Size, g: Size, d: Point, c: Command)
    requires c.CopyArea?
  {
    var o := Point(0, 0);
    if Acts(f, g, d, c) && Acts(g, g, o, c) then
      && End(AxisX(f, d, c), g.width) == End(AxisX(g, o, c), g.width)
      && End(AxisY(f, d, c), g.height) == End(AxisY(g, o, c), g.height)
      && (SourceFree(c.gc) || (AxisX(f, d, c).shift == AxisX(g, o, c).shift
                               && AxisY(f, d, c).shift == AxisY(g, o, c).shift))
    else !Acts(f, g, d, c) && !Acts(g, g, o, c)
  }

  // Images and copies are placed so that both surfaces show the same; other
  // commands may lie anywhere.
  predicate Placed(f: Size, g: Size, d: Point, c: Command) {
    match c
    case PutImage(_, _, _, _, _, _, _, _) => ImageSame(f, g, d, c)
    case CopyArea(_, _, _, _, _, _, _) => CopyPlaced(f, g, d, c)
    case _ => true
  }

  predicate Writes(ax: Axis, ay: Axis, px: int, py: int) {
    ax.start <= px < ax.start + ax.len && ay.start <= py < ay.start + ay.len
  }

  function Shifted(c: Command, d: Point): Command
    requires c.CopyArea?
  {
    CopyArea(c.srcX + d.x, c.srcY + d.y, c.dstX + d.x, c.dstY + d.y, c.w, c.h, c.gc)
  }

  // A copy in terms of its two axes, in the window's coordinates.
  lemma {:induction false} CopyByAxes(f: Size, d: Point, c: Command, px: int, py: int)
    requires c.CopyArea? && f.Visible(px + d.x, py + d.y)
    ensures var ax, ay := AxisX(f, d, c), AxisY(f, d, c);
      && (InCopy(f, Shifted(c, d), px + d.x, py + d.y) <==> Writes(ax, ay, px, py))
      && CopySource(Shifted(c, d), px + d.x, py + d.y) == Point(px + ax.shift + d.x, py + ay.shift + d.y)
      && (Writes(ax, ay, px, py) ==> f.Visible(px + ax.shift + d.x, py + ay.shift + d.y))
  {
  }

  lemma ShiftedMoves(c: Command, d: Point)
    requires c.CopyArea? && NoWrap(c, d)
    ensures Moved(c, d) == Shifted(c, d) && Shifted(c, Point(0, 0)) == c
  {
  }

  // What a copy leaves at a pixel of the window, given the source it reads.
  function AfterCopy(gc: nat, writes: bool, src: Pixel, was: Pixel): Pixel {
    if writes then CopiedPixel(gc, src, was) else was
  }

  lemma {:induction false} CopyAsAxes(f: Size, d: Point, c: Command, pic: Picture, px: int, py: int)
    returns (src: Pixel)
    requires f.Valid() && Fits(f, pic) && c.CopyArea? && f.Visible(px + d.x, py + d.y)
    ensures var ax, ay := AxisX(f, d, c), AxisY(f, d, c);
      var qx, qy := px + ax.shift + d.x, py + ay.shift + d.y;
      && (Writes(ax, ay, px, py) ==> f.Visible(qx, qy) && src == pic[qy][qx])
      && PixelAfter(f, Shifted(c, d), pic, px + d.x, py + d.y) ==
         AfterCopy(c.gc, Writes(ax, ay, px, py), src, pic[py + d.y][px + d.x])
  {
    CopyByAxes(f, d, c, px, py);
    hide AxisX, AxisY, InCopy, CopySource, CopiedPixel, Writes;
    var ax, ay := AxisX(f, d, c), AxisY(f, d, c);
    src := if Writes(ax, ay, px, py) then pic[py + ay.shift + d.y][px + ax.shift + d.x] else 0;
  }

  // On the window both surfaces begin to write at the same pixel.
  lemma WritesAlike(f: Size, g: Size, d: Point, c: Command, px: int, py: int)
    requires Inside(f, g, d) && c.CopyArea? && g.Visible(px, py)
    ensures var o := Point(0, 0);
      var fx, fy, gx, gy := AxisX(f, d, c), AxisY(f, d, c), AxisX(g, o, c), AxisY(g, o, c);
      && Max(fx.start, 0) == gx.start && Max(fy.start, 0) == gy.start
      && (Writes(fx, fy, px, py) <==> gx.start <= px < End(fx, g.width) && gy.start <= py < End(fy, g.height))
      && (Writes(gx, gy, px, py) <==> gx.start <= px < End(gx, g.width) && gy.start <= py < End(gy, g.height))
      && (Writes(fx, fy, px, py) ==> Meets(fx, g.width) && Meets(fy, g.height))
      && (Writes(gx, gy, px, py) ==> Meets(gx, g.width) && Meets(gy, g.height))
  {
  }

  lemma {:induction false} CopyMoved(f: Size, g: Size, d: Point, c: Command, outer: Picture, inner: Picture,
                                     px: int, py: int)
    requires Inside(f, g, d) && Fits(f, outer) && Fits(g, inner) && Shows(f, g, d, outer, inner)
    requires c.CopyArea? && NoWrap(c, d) && CopyPlaced(f, g, d, c) && g.Visible(px, py)
    ensures PixelAfter(f, Moved(c, d), outer, px + d.x, py + d.y) == PixelAfter(g, c, inner, px, py)
  {
    hide AxisX, AxisY, Meets, End, PixelAfter, CopiedPixel, AfterCopy, Moved, Shifted, NoWrap;
    var o := Point(0, 0);
    var fx, fy, gx, gy := AxisX(f, d, c), AxisY(f, d, c), AxisX(g, o, c), AxisY(g, o, c);
    var there, here := Writes(fx, fy, px, py), Writes(gx, gy, px, py);
    ShiftedMoves(c, d);
    var s := CopyAsAxes(f, d, c, outer, px, py);
    var t := CopyAsAxes(g, o, c, inner, px, py);
    WritesAlike(f, g, d, c, px, py);
    CopyResults(c.gc, there, here, s, t, inner[py][px]);
  }

  // Two copies leave the same if they write alike, or neither changes anything.
  lemma {:induction false} CopyResults(gc: nat, there: bool, here: bool, s: Pixel, t: Pixel, was: Pixel)
    ensures gc == GX_NOOP || (there == here && (there ==> s == t || SourceFree(gc))) ||
            ((there || here ==> gc == GX_COPY) && (there ==> s == was) && (here ==> t == was)) ==>
      AfterCopy(gc, there, s, was) == AfterCopy(gc, here, t, was)
  {
    NoopKeeps(s, was);
    NoopKeeps(t, was);
    CopyKeeps(was);
    if SourceFree(gc) { FreeOfSource(gc, s, t, was); }
    hide CopiedPixel, SourceFree;
  }

  lemma NoopKeeps(src: Pixel, was: Pixel)
    ensures CopiedPixel(GX_NOOP, src, was) == was
  {
  }

  lemma CopyKeeps(src: Pixel)
    ensures CopiedPixel(GX_COPY, src, src) == src
  {
  }

  lemma {:induction false} ImagePixelMoved(f: Size, g: Size, d: Point, c: Command, outer: Picture, inner: Picture,
                                           px: int, py: int)
    requires Inside(f, g, d) && Fits(f, outer) && Fits(g, inner) && Shows(f, g, d, outer, inner)
    requires c.PutImage? && NoWrap(c, d) && ImageSame(f, g, d, c) && g.Visible(px, py)
    ensures PixelAfter(f, Moved(c, d), outer, px + d.x, py + d.y) == PixelAfter(g, c, inner, px, py)
  {
    assert outer[py + d.y][px + d.x] == inner[py][px];
    ImageMoved(f, g, d, c, px, py, inner[py][px]);
    hide ImageWord, ImagePixel, ImageSame, NoWrap;
  }

  lemma {:induction false} PixelMoved(f: Size, g: Size, d: Point, c: Command, outer: Picture, inner: Picture,
                                      px: int, py: int)
    requires Inside(f, g, d) && Fits(f, outer) && Fits(g, inner) && Shows(f, g, d, outer, inner)
    requires NoWrap(c, d) && Placed(f, g, d, c) && g.Visible(px, py)
    ensures PixelAfter(f, Moved(c, d), outer, px + d.x, py + d.y) == PixelAfter(g, c, inner, px, py)
  {
    hide PixelAfter, Moved, NoWrap, CopyPlaced, ImageSame;
    if c.PutImage? {
      ImagePixelMoved(f, g, d, c, outer, inner, px, py);
    } else if c.CopyArea? {
      CopyMoved(f, g, d, c, outer, inner, px, py);
    } else {
      ShapeMoved(f, g, d, c, outer, inner, px, py);
    }
  }

  // A copy shows the same on both surfaces, whatever was shown before, exactly
  // when it is placed alike.
  lemma {:induction false} CopyMovesExactly(f: Size, g: Size, d: Point, c: Command)
    requires Inside(f, g, d) && c.CopyArea? && NoWrap(c, d)
    ensures Agrees(f, g, d, c) <==> CopyPlaced(f, g, d, c)
  {
    if CopyPlaced(f, g, d, c) {
      SameAgrees(f, g, d, c);
    } else {
      MisplacedCopy(f, g, d, c);
    }
  }

  // A pixel written on one surface only, or from different sources.
  ghost predicate Differs(f: Size, g: Size, d: Point, c: Command, px: int, py: int)
    requires c.CopyArea?
  {
    var o := Point(0, 0);
    var fx, fy, gx, gy := AxisX(f, d, c), AxisY(f, d, c), AxisX(g, o, c), AxisY(g, o, c);
    var there, here := Writes(fx, fy, px, py), Writes(gx, gy, px, py);
    || (here && !there && Acts(g, g, o, c))
    || (there && !here && Acts(f, g, d, c))
    || (here && there && !SourceFree(c.gc) && (fx.shift != gx.shift || fy.shift != gy.shift))
  }

  lemma {:induction false} MisplacedCopyPixel(f: Size, g: Size, d: Point, c: Command) returns (px: int, py: int)
    requires Inside(f, g, d) && c.CopyArea? && !CopyPlaced(f, g, d, c)
    ensures g.Visible(px, py) && Differs(f, g, d, c, px, py)
  {
    var o := Point(0, 0);
    var fx, fy, gx, gy := AxisX(f, d, c), AxisY(f, d, c), AxisX(g, o, c), AxisY(g, o, c);
    px, py := gx.start, gy.start;
    if Acts(f, g, d, c) && Acts(g, g, o, c) {
      if End(fx, g.width) != End(gx, g.width) {
        px := Max(End(fx, g.width), End(gx, g.width)) - 1;
      } else if End(fy, g.height) != End(gy, g.height) {
        py := Max(End(fy, g.height), End(gy, g.height)) - 1;
      }
    }
    assert g.Visible(px, py);
    WritesAlike(f, g, d, c, px, py);
    hide AxisX, AxisY, Writes;
  }

  function Other(p: Pixel): Pixel { if p == ALPHA then ALL_PLANES else ALPHA }

  // One pixel differs from the others: a source of p, but not p if possible.
  function Flipped(gc: nat, p: Point, q: Point, r: Point): (int, int) -> Pixel {
    var at := if q != p then q else r;
    (x, y) => if Point(x, y) == at then Other(Probe(gc)) else Probe(gc)
  }

  function Spot(src: Point, p: Point): (int, int) -> Pixel {
    (x, y) => if Point(x, y) == src != p then 1 else 0
  }

  lemma {:induction false} FlippedTells(gc: nat, p: Point, q: Point, r: Point)
    requires q != r && !SourceFree(gc)
    ensures var v := Flipped(gc, p, q, r);
      CopiedPixel(gc, v(q.x, q.y), v(p.x, p.y)) != CopiedPixel(gc, v(r.x, r.y), v(p.x, p.y))
  {
    ProbeTells(gc);
    hide CopiedPixel, SourceFree;
  }

  lemma {:induction false} SpotTells(gc: nat, p: Point, src: Point)
    requires gc != GX_NOOP && (gc == GX_COPY ==> src != p)
    ensures var v := Spot(src, p);
      CopiedPixel(gc, v(src.x, src.y), v(p.x, p.y)) != v(p.x, p.y)
  {
    ShowsOnClear(gc, Spot(src, p)(src.x, src.y));
    if gc != GX_COPY { hide CopiedPixel; }
  }

  lemma {:induction false} PaintedCopy(f: Size, d: Point, c: Command, v: (int, int) -> Pixel, px: int, py: int)
    requires f.Valid() && c.CopyArea? && f.Visible(px + d.x, py + d.y)
    ensures var ax, ay := AxisX(f, d, c), AxisY(f, d, c);
      PixelAfter(f, Shifted(c, d), Painted(f, d, v), px + d.x, py + d.y) ==
        AfterCopy(c.gc, Writes(ax, ay, px, py), v(px + ax.shift, py + ay.shift), v(px, py))
  {
    var ax, ay := AxisX(f, d, c), AxisY(f, d, c);
    var src := CopyAsAxes(f, d, c, Painted(f, d, v), px, py);
    PaintedAt(f, d, v, px, py);
    hide AxisX, AxisY, PixelAfter, CopiedPixel, Painted, Writes;
    if Writes(ax, ay, px, py) { PaintedAt(f, d, v, px + ax.shift, py + ay.shift); }
  }

  // A picture of the window on which that shows.
  lemma {:induction false} MisplacedCopy(f: Size, g: Size, d: Point, c: Command)
    requires Inside(f, g, d) && c.CopyArea? && NoWrap(c, d) && !CopyPlaced(f, g, d, c)
    ensures !Agrees(f, g, d, c)
  {
    hide AxisX, AxisY, Writes, PixelAfter, CopiedPixel, Painted, Flipped, Spot, CopyPlaced;
    var px, py := MisplacedCopyPixel(f, g, d, c);
    var o := Point(0, 0);
    var fx, fy, gx, gy := AxisX(f, d, c), AxisY(f, d, c), AxisX(g, o, c), AxisY(g, o, c);
    var there, here := Writes(fx, fy, px, py), Writes(gx, gy, px, py);
    var p, q, r := Point(px, py), Point(px + fx.shift, py + fy.shift), Point(px + gx.shift, py + gy.shift);
    var v := if here && there then Flipped(c.gc, p, q, r) else Spot(if here then r else q, p);
    if here && there { FlippedTells(c.gc, p, q, r); } else { SpotTells(c.gc, p, if here then r else q); }
    PaintedCopy(f, d, c, v, px, py);
    PaintedCopy(g, o, c, v, px, py);
    ShiftedMoves(c, d);
    hide Moved, Shifted, NoWrap;
    Disagrees(f, g, d, c, v, px, py);
  }

  // Drawing a window's moved commands into its ancestor's surface shows, in
  // the window's place, what drawing them into a surface of its own would.
  lemma {:induction false} MovedShows(f: Size, g: Size, d: Point, cs: seq<Command>, outer: Picture, inner: Picture)
    requires Inside(f, g, d) && Fits(f, outer) && Fits(g, inner) && Shows(f, g, d, outer, inner)
    requires forall i :: 0 <= i < |cs| ==> NoWrap(cs[i], d) && Placed(f, g, d, cs[i])
    ensures Shows(f, g, d, RenderAll(f, MovedAll(cs, d), outer), RenderAll(g, cs, inner))
    decreases |cs|
  {
    hide Render, Moved, Placed, NoWrap;
    if cs != [] {
      var outer', inner' := Render(f, Moved(cs[0], d), outer), Render(g, cs[0], inner);
      StaysSame(f, g, d, cs[0], outer, inner);
      assert Shows(f, g, d, outer', inner');
      assert MovedAll(cs, d)[1..] == MovedAll(cs[1..], d);
      hide Shows, Fits;
      MovedShows(f, g, d, cs[1..], outer', inner');
    }
  }

  // An image cut off on the window's left, but not on its ancestor's: the
  // window's own surface begins with the first column, its ancestor's with the
  // one that belongs there.
  lemma {:induction false} ImageDisplaced(left: Pixel, right: Pixel)
    ensures var c := PutImage(-1, 0, 2, 1, 24, 2, [left, right], GX_COPY);
      var f, g, d := Size(4, 1, 4), Size(2, 1, 2), Point(1, 0);
      && Inside(f, g, d) && NoWrap(c, d) && !ImagePlaced(g, d, c)
      && ImageWord(g, c, 0, 0) == Some(left) && ImageWord(f, Moved(c, d), 0 + d.x, 0 + d.y) == Some(right)
  {
  }

  // ---------------------------------------------------------------------
  // Around the window: nothing clips a window's commands to it.

  predicate Within(g: Size, d: Point, px: int, py: int) {
    d.x <= px < d.x + g.width && d.y <= py < d.y + g.height
  }

  predicate Holds(g: Size, x: int, y: int, w: nat, h: nat) {
    w == 0 || h == 0 || (0 <= x && x + w <= g.width && 0 <= y && y + h <= g.height)
  }

  // The command draws inside the window, as far as it draws.
  predicate Contained(g: Size, c: Command) {
    (c.ClearArea? || c.gc != GX_NOOP) ==>
      match c
      case FillRectangle(x, y, w, h, _, _) => Holds(g, x, y, w, h)
      case ClearArea(x, y, w, h, _) => Holds(g, x, y, w, h)
      case DrawLine(p, q, _, _) => g.Visible(p.x, p.y) && g.Visible(q.x, q.y)
      case DrawRectangle(x, y, w, h, _, _) => Holds(g, x, y, w + 1, h + 1)
      case PutImage(x, y, w, h, _, _, _, _) => Holds(g, x, y, w, h)
      case CopyArea(_, _, x, y, w, h, _) => Holds(g, x, y, w, h)
  }

  // A batch that draws inside the window leaves the rest of the ancestor's
  // surface alone.
  lemma {:induction false} OutsideKept(f: Size, g: Size, d: Point, cs: seq<Command>, pic: Picture, px: int, py: int)
    requires Inside(f, g, d) && Fits(f, pic) && f.Visible(px, py) && !Within(g, d, px, py)
    requires forall i :: 0 <= i < |cs| ==> NoWrap(cs[i], d) && Contained(g, cs[i])
    ensures RenderAll(f, MovedAll(cs, d), pic)[py][px] == pic[py][px]
    decreases |cs|
  {
    hide Render, Moved, NoWrap, Contained;
    if cs != [] {
      var next := Render(f, Moved(cs[0], d), pic);
      RenderedAt(f, Moved(cs[0], d), pic, px, py);
      PixelKept(f, g, d, cs[0], pic, px, py);
      assert MovedAll(cs, d)[1..] == MovedAll(cs[1..], d);
      OutsideKept(f, g, d, cs[1..], next, px, py);
    }
  }

  lemma {:induction false} PixelKept(f: Size, g: Size, d: Point, c: Command, pic: Picture, px: int, py: int)
    requires Inside(f, g, d) && Fits(f, pic) && f.Visible(px, py) && !Within(g, d, px, py)
    requires NoWrap(c, d) && Contained(g, c)
    ensures PixelAfter(f, Moved(c, d), pic, px, py) == pic[py][px]
  {
    var was := pic[py][px];
    hide OnLine, RopPixel, ApplyRop, ImagePixel, Highlight, CopiedPixel;
    match c
    case DrawLine(p, q, color, gc) =>
      if gc == GX_NOOP { NoopLine(color, was); } else { LineInside(g, d, p, q, Point(px, py)); }
    case DrawRectangle(x, y, w, h, color, gc) => NoVisits(gc, color, was);
    case _ =>
  }

  lemma NoopLine(color: Pixel, was: Pixel)
    ensures RopPixel(GX_NOOP, color, was, ALL_PLANES) == was
  {
  }

  lemma NoVisits(gc: nat, color: Pixel, was: Pixel)
    ensures RopTimes(gc, color, was, 0) == was
  {
  }

  lemma {:induction false} LineInside(g: Size, d: Point, p: Point, q: Point, z: Point)
    requires g.Visible(p.x, p.y) && g.Visible(q.x, q.y) && !Within(g, d, z.x, z.y)
    ensures !OnLine(Coordinates.Plus(p, d), Coordinates.Plus(q, d), z)
  {
    var p', q' := Coordinates.Plus(p, d), Coordinates.Plus(q, d);
    forall k: nat | k <= Steps(p', q') ensures LinePoint(p', q', k) != z {
      LineInBox(p', q', k);
    }
  }

  ghost predicate KeepsOutside(f: Size, g: Size, d: Point, c: Command)
    requires Inside(f, g, d)
  {
    forall pic, px, py :: Fits(f, pic) && f.Visible(px, py) && !Within(g, d, px, py) ==>
      PixelAfter(f, c, pic, px, py) == pic[py][px]
  }

  // What the surface's edges leave of a rectangle lies in the window's place.
  predicate LeftWithin(f: Size, g: Size, d: Point, x: int, y: int, w: nat, h: nat) {
    var x0, x1, y0, y1 := Max(x, 0), Min(x + w, f.width), Max(y, 0), Min(y + h, f.height);
    x0 >= x1 || y0 >= y1 || (d.x <= x0 && x1 <= d.x + g.width && d.y <= y0 && y1 <= d.y + g.height)
  }

  // A clear changes nothing outside the window, whatever was shown there,
  // exactly when what is left of it lies inside.
  lemma {:induction false} ClearStays(f: Size, g: Size, d: Point, c: Command)
    requires Inside(f, g, d) && c.ClearArea?
    ensures KeepsOutside(f, g, d, c) <==> LeftWithin(f, g, d, c.x, c.y, c.w, c.h)
  {
    if LeftWithin(f, g, d, c.x, c.y, c.w, c.h) {
      forall pic, px, py | Fits(f, pic) && f.Visible(px, py) && !Within(g, d, px, py)
        ensures PixelAfter(f, c, pic, px, py) == pic[py][px]
      {
        assert !InFill(f, c.x, c.y, c.w, c.h, px, py);
      }
    } else {
      ClearSpills(f, g, d, c);
    }
  }

  lemma {:induction false} ClearSpills(f: Size, g: Size, d: Point, c: Command)
    requires Inside(f, g, d) && c.ClearArea? && !LeftWithin(f, g, d, c.x, c.y, c.w, c.h)
    ensures !KeepsOutside(f, g, d, c)
  {
    var x0, x1 := Max(c.x, 0), Min(c.x + c.w, f.width);
    var y0, y1 := Max(c.y, 0), Min(c.y + c.h, f.height);
    var px, py := if x0 < d.x then x0 else x1 - 1, if y0 < d.y then y0 else y1 - 1;
    assert InFill(f, c.x, c.y, c.w, c.h, px, py) && f.Visible(px, py) && !Within(g, d, px, py);
    hide InFill, Within;
    var pic := ClearedShows(f, c, px, py);
    hide PixelAfter;
  }

  lemma {:induction false} ClearedShows(f: Size, c: Command, px: int, py: int) returns (pic: Picture)
    requires f.Valid() && c.ClearArea? && f.Visible(px, py) && InFill(f, c.x, c.y, c.w, c.h, px, py)
    ensures Fits(f, pic) && PixelAfter(f, c, pic, px, py) != pic[py][px]
  {
    hide Painted, InFill;
    pic := Painted(f, Point(0, 0), BLANK);
    PaintedAt(f, Point(0, 0), BLANK, px, py);
    ClearNotClear(c.color);
    hide FillPixel, Fits;
  }

  lemma ClearNotClear(color: Pixel)
    ensures FillPixel(GX_COPY, color, 0) != 0
  {
    AlphaShows(color & COLORS);
  }
}
