// What each render command does to the picture of a window, pixel by pixel.
module Drawing {
  import opened Basics
  import opened Pixels
  import opened Line

  // Coordinates and sizes are the X request fields (INT16 and CARD16); the
  // image data is the list of whole 4-byte words in it.
  datatype Command =
    | FillRectangle(x: int, y: int, w: nat, h: nat, color: Pixel, gc: nat)
    | ClearArea(x: int, y: int, w: nat, h: nat, color: Pixel)
    | DrawLine(p: Point, q: Point, color: Pixel, gc: nat)
    | DrawRectangle(x: int, y: int, w: nat, h: nat, color: Pixel, gc: nat)
    | PutImage(x: int, y: int, w: nat, h: nat, depth: nat, format: nat, data: seq<Pixel>, gc: nat)
    | CopyArea(srcX: int, srcY: int, dstX: int, dstY: int, w: nat, h: nat, gc: nat)

  // A window surface: rows of `stride` words, of which the first `width` are
  // visible.
  datatype Size = Size(width: nat, height: nat, stride: nat) {
    predicate Valid() { width <= stride }
    predicate Visible(x: int, y: int) { 0 <= x < width && 0 <= y < height }
    predicate Stored(x: int, y: int) { 0 <= x < stride && 0 <= y < height }
  }

  type Picture = seq<seq<Pixel>>

  ghost predicate Fits(f: Size, pic: Picture) {
    |pic| == f.height && forall y :: 0 <= y < f.height ==> |pic[y]| == f.stride
  }

  // The rectangle's corner cut off at zero and its extent at the surface.
  predicate InFill(f: Size, x: int, y: int, w: nat, h: nat, px: int, py: int) {
    && Max(x, 0) <= px < Min(Max(x + w, 0), f.width)
    && Max(y, 0) <= py < Min(Max(y + h, 0), f.height)
  }

  // How many words one row of a w-wide copy to (or from) column `at` has.
  function Span(limit: nat, at: int, w: nat): nat {
    Min(w, Max(limit - Max(at, 0), 0))
  }

  // How often DrawRectangle touches a pixel: once per edge through it.
  function EdgeVisits(x: int, y: int, w: nat, h: nat, px: int, py: int): nat {
    (if x <= px <= x + w && py == y then 1 else 0) +
    (if x <= px <= x + w && py == y + h then 1 else 0) +
    (if y <= py <= y + h && px == x then 1 else 0) +
    (if y <= py <= y + h && px == x + w then 1 else 0)
  }

  function RopTimes(gc: nat, color: Pixel, d: Pixel, n: nat): Pixel {
    if n == 0 then d else RopPixel(gc, color, RopTimes(gc, color, d, n - 1), ALL_PLANES)
  }

  // The word of a PutImage that lands on (px, py), if it has one: rows are
  // copied whole by GXcopy, word by word otherwise.
  function ImageWord(f: Size, c: Command, px: int, py: int): Option<Pixel>
    requires c.PutImage?
  {
    var x0, y0 := Max(c.x, 0), Max(c.y, 0);
    var span := Span(f.width, c.x, c.w);
    if !(c.format == 2 && c.depth in {24, 32}) || c.gc == GX_NOOP then None
    else if !(x0 <= px < x0 + span && y0 <= py < y0 + c.h) then None
    else
      var row: nat := (py - y0) * c.w;
      if c.gc == GX_COPY && |c.data| < row + span then None
      else if |c.data| <= row + (px - x0) then None
      else Some(c.data[row + (px - x0)])
  }

  // The rectangle a CopyArea writes, after clipping both ends of the copy.
  function CopyWidth(f: Size, c: Command): nat
    requires c.CopyArea?
  {
    Min(Span(f.width, c.srcX, c.w), Span(f.width, c.dstX, c.w))
  }

  function CopyHeight(f: Size, c: Command): nat
    requires c.CopyArea?
  {
    Min(Span(f.height, c.srcY, c.h), Span(f.height, c.dstY, c.h))
  }

  predicate InCopy(f: Size, c: Command, px: int, py: int)
    requires c.CopyArea?
  {
    && Max(c.dstX, 0) <= px < Max(c.dstX, 0) + CopyWidth(f, c)
    && Max(c.dstY, 0) <= py < Max(c.dstY, 0) + CopyHeight(f, c)
  }

  // The source pixel of a copied pixel.
  function CopySource(c: Command, px: int, py: int): Point
    requires c.CopyArea?
  {
    Point(Max(c.srcX, 0) + (px - Max(c.dstX, 0)), Max(c.srcY, 0) + (py - Max(c.dstY, 0)))
  }

  function CopiedPixel(gc: nat, src: Pixel, dst: Pixel): Pixel {
    if gc == GX_NOOP then dst
    else if gc == GX_COPY then src
    else ApplyRop(gc, src, dst, COLORS)
  }

  // Copies follow the function's table on the source word as it is; GXcopy
  // takes the whole word.
  lemma {:induction false} CopyFollowsTable(gc: nat, src: Pixel, dst: Pixel)
    ensures CopiedPixel(gc, src, dst) == if gc == 3 then src else Drawn(gc, src, dst)
  {
    if gc == 5 { NoopDraws(src, dst); } else { RopDraws(gc, src, dst); }
    hide ApplyRop, Drawn;
  }

  // The pixel a copy leaves: every pixel of the written rectangle combines
  // with its source as it was before the copy began.
  ghost function CopyAt(f: Size, c: Command, pic: Picture, px: int, py: int): Pixel
    requires f.Valid() && Fits(f, pic) && f.Visible(px, py) && c.CopyArea?
  {
    if InCopy(f, c, px, py) then
      var s := CopySource(c, px, py);
      CopiedPixel(c.gc, pic[s.y][s.x], pic[py][px])
    else pic[py][px]
  }

  // The pixel a command leaves at a visible position.
  ghost function PixelAfter(f: Size, c: Command, pic: Picture, px: int, py: int): Pixel
    requires f.Valid() && Fits(f, pic) && f.Visible(px, py)
  {
    var d := pic[py][px];
    match c
    case FillRectangle(x, y, w, h, color, gc) =>
      if InFill(f, x, y, w, h, px, py) then FillPixel(gc, color, d) else d
    case ClearArea(x, y, w, h, color) =>
      if InFill(f, x, y, w, h, px, py) then FillPixel(GX_COPY, color, d) else d
    case DrawLine(p, q, color, gc) =>
      if OnLine(p, q, Point(px, py)) then RopPixel(gc, color, d, ALL_PLANES) else d
    case DrawRectangle(x, y, w, h, color, gc) =>
      if gc == GX_NOOP then d else RopTimes(gc, color, d, EdgeVisits(x, y, w, h, px, py))
    case PutImage(_, _, _, _, _, _, _, gc) =>
      (match ImageWord(f, c, px, py)
       case None => d
       case Some(s) => ImagePixel(gc, s, d))
    case CopyArea(_, _, _, _, _, _, _) => CopyAt(f, c, pic, px, py)
  }

  // The whole picture after a command: the words past the visible width of
  // a row are never touched.
  ghost function Render(f: Size, c: Command, pic: Picture): (r: Picture)
    requires f.Valid() && Fits(f, pic)
    ensures Fits(f, r)
  {
    seq(f.height, y requires 0 <= y < f.height =>
      seq(f.stride, x requires 0 <= x < f.stride =>
        if x < f.width then PixelAfter(f, c, pic, x, y) else pic[y][x]))
  }

  ghost function RenderAll(f: Size, cs: seq<Command>, pic: Picture): (r: Picture)
    requires f.Valid() && Fits(f, pic)
    ensures Fits(f, r)
  {
    if cs == [] then pic else RenderAll(f, cs[1..], Render(f, cs[0], pic))
  }

  lemma {:induction false} RenderAllConcat(f: Size, a: seq<Command>, b: seq<Command>, pic: Picture)
    requires f.Valid() && Fits(f, pic)
    ensures RenderAll(f, a + b, pic) == RenderAll(f, b, RenderAll(f, a, pic))
  {
    if a == [] {
      assert a + b == b;
    } else {
      assert (a + b)[1..] == a[1..] + b && (a + b)[0] == a[0];
      RenderAllConcat(f, a[1..], b, Render(f, a[0], pic));
    }
  }

  lemma SamePicture(f: Size, a: Picture, b: Picture)
    requires Fits(f, a) && Fits(f, b)
    requires forall x, y :: f.Stored(x, y) ==> a[y][x] == b[y][x]
    ensures a == b
  {
    forall y | 0 <= y < f.height ensures a[y] == b[y] {
      forall x | 0 <= x < f.stride ensures a[y][x] == b[y][x] {
        assert f.Stored(x, y);
      }
    }
  }

  // Pictures that differ at most in their visible part.
  ghost predicate SamePadding(f: Size, a: Picture, b: Picture)
    requires Fits(f, a) && Fits(f, b)
  {
    forall x, y :: f.Stored(x, y) && !f.Visible(x, y) ==> a[y][x] == b[y][x]
  }

  lemma {:induction false} PaddingKept(f: Size, cs: seq<Command>, pic: Picture)
    requires f.Valid() && Fits(f, pic)
    ensures SamePadding(f, pic, RenderAll(f, cs, pic))
  {
    if cs != [] {
      var next := Render(f, cs[0], pic);
      PaddingKept(f, cs[1..], next);
      forall x, y | f.Stored(x, y) && !f.Visible(x, y)
        ensures pic[y][x] == RenderAll(f, cs, pic)[y][x]
      {
        assert next[y][x] == pic[y][x];
      }
    }
  }

  // ---------------------------------------------------------------------
  // Drawing with GXxor twice

  // A line drawn twice with GXxor gives back exactly the pictures whose
  // visible line pixels are all opaque.
  lemma {:induction false} XorLineTwice(f: Size, p: Point, q: Point, color: Pixel, pic: Picture)
    requires f.Valid() && Fits(f, pic)
    ensures var c := DrawLine(p, q, color, GX_XOR);
      RenderAll(f, [c, c], pic) == pic <==>
      forall x, y :: f.Visible(x, y) && OnLine(p, q, Point(x, y)) ==> Opaque(pic[y][x])
  {
    var c := DrawLine(p, q, color, GX_XOR);
    var once := Render(f, c, pic);
    var twice := Render(f, c, once);
    assert RenderAll(f, [c, c], pic) == twice by {
      assert [c, c][1..] == [c] && [c][1..] == [];
      assert RenderAll(f, [c], once) == RenderAll(f, [], twice) == twice;
    }
    forall x, y | f.Stored(x, y)
      ensures twice[y][x] ==
        if f.Visible(x, y) && OnLine(p, q, Point(x, y)) then pic[y][x] | ALPHA else pic[y][x]
    {
      XorTwice(color, pic[y][x]);
    }
    if forall x, y :: f.Visible(x, y) && OnLine(p, q, Point(x, y)) ==> Opaque(pic[y][x]) {
      forall x, y | f.Stored(x, y) ensures twice[y][x] == pic[y][x] {
        XorTwice(color, pic[y][x]);
      }
      SamePicture(f, twice, pic);
    } else {
      var x, y :| f.Visible(x, y) && OnLine(p, q, Point(x, y)) && !Opaque(pic[y][x]);
      XorTwice(color, pic[y][x]);
      assert f.Stored(x, y);
    }
  }

  // A GXxor outline flips its edges but not its corners, which both pairs of
  // edges pass through.
  lemma {:induction false} XorOutlineSkipsCorners(f: Size, c: Command, pic: Picture, px: int, py: int)
    requires f.Valid() && Fits(f, pic) && f.Visible(px, py)
    requires c.DrawRectangle? && c.gc == GX_XOR && 0 < c.w && 0 < c.h
    ensures var onColumn, onRow := px in {c.x, c.x + c.w}, py in {c.y, c.y + c.h};
      var d := pic[py][px];
      PixelAfter(f, c, pic, px, py) ==
        if onColumn && onRow then d | ALPHA
        else if (onColumn && c.y <= py <= c.y + c.h) || (onRow && c.x <= px <= c.x + c.w) then
          RopPixel(GX_XOR, c.color, d, ALL_PLANES)
        else d
  {
    OutlineTouches(c.color, pic[py][px]);
    hide RopPixel, RopTimes;
  }

  lemma {:induction false} OutlineTouches(color: Pixel, d: Pixel)
    ensures RopTimes(GX_XOR, color, d, 0) == d
    ensures RopTimes(GX_XOR, color, d, 1) == RopPixel(GX_XOR, color, d, ALL_PLANES)
    ensures RopTimes(GX_XOR, color, d, 2) == d | ALPHA
  {
    XorTwice(color, d);
    hide RopPixel;
    var once := RopTimes(GX_XOR, color, d, 1);
    assert once == RopPixel(GX_XOR, color, RopTimes(GX_XOR, color, d, 0), ALL_PLANES);
    assert RopTimes(GX_XOR, color, d, 2) == RopPixel(GX_XOR, color, once, ALL_PLANES);
  }

  // ---------------------------------------------------------------------
  // Where images and copies land when nothing is cut off

  // Row j of the data, column i, lands i to the right and j below the corner.
  lemma {:induction false} ImageLands(f: Size, c: Command, pic: Picture, i: nat, j: nat)
    requires f.Valid() && Fits(f, pic) && c.PutImage? && c.format == 2 && c.depth in {24, 32}
    requires 0 <= c.x && 0 <= c.y && i < c.w && j < c.h && c.w * c.h <= |c.data|
    requires f.Visible(c.x + i, c.y + j)
    ensures 0 <= j * c.w + i < |c.data|
    ensures PixelAfter(f, c, pic, c.x + i, c.y + j) == ImagePixel(c.gc, c.data[j * c.w + i], pic[c.y + j][c.x + i])
  {
    NextMultiple(j, c.h, c.w);
    assert c.h * c.w == c.w * c.h;
    hide ApplyRop;
  }

  lemma {:induction false} ImageSpares(f: Size, c: Command, pic: Picture, px: int, py: int)
    requires f.Valid() && Fits(f, pic) && c.PutImage? && 0 <= c.x && 0 <= c.y && f.Visible(px, py)
    requires !(c.x <= px < c.x + c.w && c.y <= py < c.y + c.h) || c.format != 2 || c.depth !in {24, 32}
    ensures PixelAfter(f, c, pic, px, py) == pic[py][px]
  {
    hide ImagePixel;
  }

  // A copy takes each pixel from as far right of and below its source corner.
  lemma {:induction false} CopyLands(f: Size, c: Command, pic: Picture, px: int, py: int)
    requires f.Valid() && Fits(f, pic) && c.CopyArea? && f.Visible(px, py)
    requires 0 <= c.srcX && c.srcX + c.w <= f.width && 0 <= c.srcY && c.srcY + c.h <= f.height
    requires 0 <= c.dstX && c.dstX + c.w <= f.width && 0 <= c.dstY && c.dstY + c.h <= f.height
    ensures PixelAfter(f, c, pic, px, py) ==
      if c.dstX <= px < c.dstX + c.w && c.dstY <= py < c.dstY + c.h then
        CopiedPixel(c.gc, pic[c.srcY + (py - c.dstY)][c.srcX + (px - c.dstX)], pic[py][px])
      else pic[py][px]
  {
    hide CopiedPixel;
  }

  // A fill covers the points of its rectangle that are on the surface.
  lemma {:induction false} FillLands(f: Size, c: Command, pic: Picture, px: int, py: int)
    requires f.Valid() && Fits(f, pic) && f.Visible(px, py) && (c.FillRectangle? || c.ClearArea?)
    ensures PixelAfter(f, c, pic, px, py) ==
      if c.x <= px < c.x + c.w && c.y <= py < c.y + c.h then
        FillPixel(if c.ClearArea? then 3 else c.gc, c.color, pic[py][px])
      else pic[py][px]
  {
    hide FillPixel;
  }
}
