// The software renderer: every command writes the flat pixel buffer in place.
module FrameBuffer {
  import opened Basics
  import opened Pixels
  import opened Line
  import opened Drawing
  import opened Coalesce

  lemma {:induction false} OffsetBound(f: Size, x: int, y: int)
    requires f.Stored(x, y)
    ensures 0 <= y * f.stride + x < f.stride * f.height
  {
    RowStart(y, f.height, f.stride);
    assert (f.height - 1) * f.stride + f.stride == f.stride * f.height;
    assert 0 <= y * f.stride;
  }

  // Words of different pixels are different words.
  lemma {:induction false} OffsetsDistinct(f: Size, x: int, y: int, a: int, b: int)
    requires f.Stored(x, y) && f.Stored(a, b)
    requires y * f.stride + x == b * f.stride + a
    ensures x == a && y == b
  {
    if y < b { NextMultiple(y, b, f.stride); }
    if b < y { NextMultiple(b, y, f.stride); }
  }

  class Surface {
    const f: Size
    const data: array<Pixel>

    constructor (f: Size)
      requires f.Valid()
      ensures Valid() && fresh(data) && this.f == f
    {
      this.f := f;
      data := new Pixel[f.stride * f.height];
    }

    ghost predicate Valid() {
      f.Valid() && data.Length == f.stride * f.height
    }

    ghost function Pix(x: int, y: int): Pixel
      requires Valid() && f.Stored(x, y)
      reads data
    {
      OffsetBound(f, x, y);
      data[y * f.stride + x]
    }

    ghost function Pic(): (pic: Picture)
      requires Valid()
      reads data
      ensures Fits(f, pic)
      ensures forall x, y :: f.Stored(x, y) ==> pic[y][x] == Pix(x, y)
    {
      seq(f.height, y requires 0 <= y < f.height reads data =>
        seq(f.stride, x requires 0 <= x < f.stride reads data => Pix(x, y)))
    }

    method Get(x: int, y: int) returns (v: Pixel)
      requires Valid() && f.Stored(x, y)
      ensures v == Pix(x, y)
    {
      OffsetBound(f, x, y);
      v := data[y * f.stride + x];
    }

    method Set(x: int, y: int, v: Pixel)
      requires Valid() && f.Stored(x, y)
      modifies data
      ensures forall a, b :: f.Stored(a, b) ==> Pix(a, b) == if a == x && b == y then v else old(Pix(a, b))
    {
      OffsetBound(f, x, y);
      data[y * f.stride + x] := v;
      forall a, b | f.Stored(a, b)
        ensures Pix(a, b) == if a == x && b == y then v else old(Pix(a, b))
      {
        OffsetBound(f, a, b);
        if y * f.stride + x == b * f.stride + a { OffsetsDistinct(f, x, y, a, b); }
      }
    }

    // copy_from_slice into one row.
    method WriteRow(x: int, y: int, row: seq<Pixel>)
      requires Valid() && 0 <= x <= x + |row| <= f.stride && 0 <= y < f.height
      modifies data
      ensures forall a, b :: f.Stored(a, b) ==>
        Pix(a, b) == if b == y && x <= a < x + |row| then row[a - x] else old(Pix(a, b))
    {
      for i := 0 to |row|
        invariant forall a, b :: f.Stored(a, b) ==>
          Pix(a, b) == if b == y && x <= a < x + i then row[a - x] else old(Pix(a, b))
      {
        Set(x + i, y, row[i]);
      }
    }

    method ReadRow(x: int, y: int, n: nat) returns (row: seq<Pixel>)
      requires Valid() && 0 <= x <= x + n <= f.stride && 0 <= y < f.height
      ensures |row| == n && forall i :: 0 <= i < n ==> row[i] == Pix(x + i, y)
    {
      row := [];
      for i := 0 to n
        invariant |row| == i && forall k :: 0 <= k < i ==> row[k] == Pix(x + k, y)
      {
        var v := Get(x + i, y);
        row := row + [v];
      }
    }

    // copy_within one row's worth of words, overlap allowed.
    method CopyRow(sx: int, sy: int, dx: int, dy: int, n: nat)
      requires Valid() && 0 <= sx <= sx + n <= f.stride && 0 <= dx <= dx + n <= f.stride
      requires 0 <= sy < f.height && 0 <= dy < f.height
      modifies data
      ensures forall a, b :: f.Stored(a, b) ==>
        Pix(a, b) == if b == dy && dx <= a < dx + n then old(Pix(sx + (a - dx), sy)) else old(Pix(a, b))
    {
      var row := ReadRow(sx, sy, n);
      WriteRow(dx, dy, row);
    }

    method RopAt(x: int, y: int, color: Pixel, gc: nat)
      requires Valid()
      modifies data
      ensures forall a, b :: f.Stored(a, b) ==>
        Pix(a, b) == if a == x && b == y && f.Visible(x, y)
                     then RopPixel(gc, color, old(Pix(a, b)), ALL_PLANES) else old(Pix(a, b))
    {
      if f.Visible(x, y) {
        var d := Get(x, y);
        Set(x, y, RopPixel(gc, color, d, ALL_PLANES));
      }
    }

    // One row of a FillRectangle.
    method FillSpan(x0: int, x1: int, y: int, color: Pixel, gc: nat)
      requires Valid() && 0 <= x0 <= x1 <= f.width && 0 <= y < f.height
      modifies data
      ensures forall a, b :: f.Stored(a, b) ==>
        Pix(a, b) == if b == y && x0 <= a < x1 then FillPixel(gc, color, old(Pix(a, b))) else old(Pix(a, b))
    {
      hide FillPixel;
      for x := x0 to x1
        invariant forall a, b :: f.Stored(a, b) ==>
          Pix(a, b) == if b == y && x0 <= a < x then FillPixel(gc, color, old(Pix(a, b))) else old(Pix(a, b))
      {
        var d := Get(x, y);
        Set(x, y, FillPixel(gc, color, d));
      }
    }

    // GXcopy fills the first row and copies it down; every other function
    // reads and rewrites each pixel.
    method FillRect(x: int, y: int, w: nat, h: nat, color: Pixel, gc: nat)
      requires Valid()
      modifies data
      ensures Pic() == Render(f, FillRectangle(x, y, w, h, color, gc), old(Pic()))
    {
      hide FillPixel, PixelAfter, Render;
      ghost var c, pic := FillRectangle(x, y, w, h, color, gc), Pic();
      FillAfter(f, c, pic, gc);
      var x0, y0 := Max(x, 0), Max(y, 0);
      var x1, y1 := Min(Max(x + w, 0), f.width), Min(Max(y + h, 0), f.height);
      if x0 >= x1 || y0 >= y1 {
        Finished(f, c, pic, Pic());
        return;
      }
      if gc == GX_NOOP {
        NoopFill(color);
        Finished(f, c, pic, Pic());
        return;
      }
      if gc == GX_COPY {
        FillSpan(x0, x1, y0, color, gc);
        SolidFill(color);
        for py := y0 + 1 to y1
          invariant forall a, b :: f.Stored(a, b) ==>
            Pix(a, b) == if x0 <= a < x1 && y0 <= b < py then FillPixel(gc, color, pic[b][a]) else pic[b][a]
        {
          CopyRow(x0, y0, x0, py, x1 - x0);
        }
      } else {
        for py := y0 to y1
          invariant forall a, b :: f.Stored(a, b) ==>
            Pix(a, b) == if x0 <= a < x1 && y0 <= b < py then FillPixel(gc, color, pic[b][a]) else pic[b][a]
        {
          FillSpan(x0, x1, py, color, gc);
        }
      }
      Finished(f, c, pic, Pic());
    }

    method Clear(x: int, y: int, w: nat, h: nat, color: Pixel)
      requires Valid()
      modifies data
      ensures Pic() == Render(f, ClearArea(x, y, w, h, color), old(Pic()))
    {
      ghost var pic := Pic();
      FillAfter(f, FillRectangle(x, y, w, h, color, GX_COPY), pic, GX_COPY);
      FillAfter(f, ClearArea(x, y, w, h, color), pic, GX_COPY);
      hide FillPixel, PixelAfter;
      FillRect(x, y, w, h, color, GX_COPY);
      Finished(f, ClearArea(x, y, w, h, color), pic, Pic());
    }

    // Bresenham's loop. It runs once per point of the line and stops at the
    // far end.
    method Line(p: Point, q: Point, color: Pixel, gc: nat)
      requires Valid()
      modifies data
      ensures Pic() == Render(f, DrawLine(p, q, color, gc), old(Pic()))
    {
      hide RopPixel, LoopState, LinePoint, Among, Steps;
      ghost var c, pic := DrawLine(p, q, color, gc), Pic();
      if gc == GX_NOOP {
        NoopRop(color);
        Finished(f, c, pic, Pic());
        return;
      }
      var x, y := p.x, p.y;
      var dx, dy := Abs(q.x - p.x), 0 - Abs(q.y - p.y);
      var sx, sy := Dir(p.x, q.x), Dir(p.y, q.y);
      var err := dx + dy;
      ghost var k: nat := 0;
      LoopStart(p, q);
      NoneAmong(p, q);
      while true
        invariant k <= Steps(p, q) && LoopState(p, q, k, x, y, err) && LinePoint(p, q, k) == Point(x, y)
        invariant forall a, b :: f.Stored(a, b) ==>
          Pix(a, b) == if f.Visible(a, b) && Among(p, q, k, Point(a, b))
                       then RopPixel(gc, color, pic[b][a], ALL_PLANES) else pic[b][a]
        decreases Steps(p, q) - k
      {
        RopAt(x, y, color, gc);
        AmongNext(p, q, k);
        LoopExit(p, q, k);
        if x == q.x && y == q.y {
          break;
        }
        LoopStep(p, q, k, x, y, err);
        var e2 := 2 * err;
        if e2 >= dy { err := err + dy; x := x + sx; }
        if e2 <= dx { err := err + dx; y := y + sy; }
        k := k + 1;
      }
      Finished(f, c, pic, Pic());
    }

    // Top and bottom edges, then left and right ones: corners are touched by
    // both loops.
    method Rect(x: int, y: int, w: nat, h: nat, color: Pixel, gc: nat)
      requires Valid()
      modifies data
      ensures Pic() == Render(f, DrawRectangle(x, y, w, h, color, gc), old(Pic()))
    {
      hide RopPixel, RopTimes, Render, PixelAfter, RowVisits, Hits;
      ghost var c, pic := DrawRectangle(x, y, w, h, color, gc), Pic();
      if gc == GX_NOOP {
        RectNoop(f, c, pic);
        Finished(f, c, pic, Pic());
        return;
      }
      RopTimesNone(gc, color);
      VisitsStart(x, y, y + h);
      var x1, y1 := x + w, y + h;
      for px := x to x1 + 1
        invariant forall a, b :: f.Stored(a, b) ==>
          Pix(a, b) == if f.Visible(a, b)
            then RopTimes(gc, color, pic[b][a], RowVisits(x, y, y1, px, a, b)) else pic[b][a]
      {
        Touch(px, y, px, y1, color, gc);
        forall a, b | f.Visible(a, b)
          ensures Pix(a, b) == RopTimes(gc, color, pic[b][a], RowVisits(x, y, y1, px + 1, a, b))
        {
          RopTimesAdd(gc, color, pic[b][a], RowVisits(x, y, y1, px, a, b), Hits(a, b, px, y) + Hits(a, b, px, y1));
          VisitsNext(x, y, y1, px, a, b);
        }
      }
      VerticalEdges(x, y, w, h, color, gc, pic);
      RectAfter(f, c, pic);
      Finished(f, c, pic, Pic());
    }

    method VerticalEdges(x: int, y: int, w: nat, h: nat, color: Pixel, gc: nat, ghost pic: Picture)
      requires Valid() && Fits(f, pic)
      requires forall a, b :: f.Stored(a, b) ==>
        Pix(a, b) == if f.Visible(a, b)
          then RopTimes(gc, color, pic[b][a], RowVisits(x, y, y + h, x + w + 1, a, b)) else pic[b][a]
      modifies data
      ensures forall a, b :: f.Stored(a, b) ==>
        Pix(a, b) == if f.Visible(a, b) then RopTimes(gc, color, pic[b][a], EdgeVisits(x, y, w, h, a, b)) else pic[b][a]
    {
      hide RopPixel, RopTimes, RowVisits, EdgeVisits, Hits;
      VisitsStart(y, x, x + w);
      VisitsEnd(x, y, w, h);
      for py := y to y + h + 1
        invariant forall a, b :: f.Stored(a, b) ==>
          Pix(a, b) == if f.Visible(a, b)
            then RopTimes(gc, color, pic[b][a],
                          RowVisits(x, y, y + h, x + w + 1, a, b) + RowVisits(y, x, x + w, py, b, a))
            else pic[b][a]
      {
        Touch(x, py, x + w, py, color, gc);
        forall a, b | f.Visible(a, b)
          ensures Pix(a, b) == RopTimes(gc, color, pic[b][a],
                    RowVisits(x, y, y + h, x + w + 1, a, b) + RowVisits(y, x, x + w, py + 1, b, a))
        {
          RopTimesAdd(gc, color, pic[b][a],
                      RowVisits(x, y, y + h, x + w + 1, a, b) + RowVisits(y, x, x + w, py, b, a),
                      Hits(a, b, x, py) + Hits(a, b, x + w, py));
          VisitsNext(y, x, x + w, py, b, a);
        }
      }
    }

    // Two rop_pixel calls in a row.
    method Touch(x1: int, y1: int, x2: int, y2: int, color: Pixel, gc: nat)
      requires Valid()
      modifies data
      ensures forall a, b :: f.Stored(a, b) ==>
        Pix(a, b) == if f.Visible(a, b)
          then RopTimes(gc, color, old(Pix(a, b)), Hits(a, b, x1, y1) + Hits(a, b, x2, y2))
          else old(Pix(a, b))
    {
      hide RopPixel, RopTimes;
      FewTouches(gc, color);
      RopAt(x1, y1, color, gc);
      RopAt(x2, y2, color, gc);
    }

    method Image(x: int, y: int, w: nat, h: nat, depth: nat, format: nat, image: seq<Pixel>, gc: nat)
      requires Valid()
      modifies data
      ensures Pic() == Render(f, PutImage(x, y, w, h, depth, format, image, gc), old(Pic()))
    {
      hide ImagePixel;
      var c := PutImage(x, y, w, h, depth, format, image, gc);
      ghost var pic := Pic();
      if gc == GX_NOOP || !(format == 2 && depth in {24, 32}) {
        Finished(f, c, pic, Pic());
        return;
      }
      var x0, y0 := Max(x, 0), Max(y, 0);
      var span: nat := Min(w, Max(f.width - x0, 0));
      var row := 0;
      while row < h && y0 + row < f.height
        invariant 0 <= row <= h
        invariant forall a, b :: f.Stored(a, b) ==>
          Pix(a, b) == if f.Visible(a, b) && b < y0 + row then PixelAfter(f, c, pic, a, b) else pic[b][a]
        decreases h - row
      {
        ImageRow(c, x0, y0 + row, span, row, pic);
        row := row + 1;
      }
      Finished(f, c, pic, Pic());
    }

    // Row `row` of an image: copied whole by GXcopy, combined word by word by
    // the other functions.
    method ImageRow(c: Command, x0: int, dy: int, span: nat, row: nat, ghost pic: Picture)
      requires Valid() && c.PutImage? && c.gc != GX_NOOP && c.format == 2 && c.depth in {24, 32}
      requires x0 == Max(c.x, 0) && dy == Max(c.y, 0) + row && row < c.h && dy < f.height
      requires span == Span(f.width, c.x, c.w)
      requires Fits(f, pic) && forall a :: 0 <= a < f.stride ==> Pix(a, dy) == pic[dy][a]
      modifies data
      ensures forall a, b :: f.Stored(a, b) ==>
        Pix(a, b) == if f.Visible(a, b) && b == dy then PixelAfter(f, c, pic, a, b) else old(Pix(a, b))
    {
      hide ImagePixel, PixelAfter, ImageAt;
      forall a | 0 <= a < f.width ensures PixelAfter(f, c, pic, a, dy) == ImageAt(c, x0, span, row, a, pic[dy][a]) {
        ImageAfter(f, c, pic, a, dy, x0, span, row);
      }
      WriteImageRow(c, x0, dy, span, row);
    }

    method WriteImageRow(c: Command, x0: int, dy: int, span: nat, row: nat)
      requires Valid() && c.PutImage? && 0 <= x0 && 0 <= dy < f.height && (span == 0 || x0 + span <= f.width)
      modifies data
      ensures forall a, b :: f.Stored(a, b) ==>
        Pix(a, b) == if a < f.width && b == dy then ImageAt(c, x0, span, row, a, old(Pix(a, b))) else old(Pix(a, b))
    {
      hide ImagePixel;
      var src := row * c.w;
      if c.gc == GX_COPY {
        if src + span <= |c.data| {
          var words := Opaqued(c.data[src..src + span]);
          if span != 0 {
            WriteRow(x0, dy, words);
          }
        }
      } else {
        CombineRow(c.gc, x0, dy, c.data[Min(src, |c.data|)..Min(src + span, |c.data|)]);
      }
    }

    // Combines the words an image row has with the pixels under them.
    method CombineRow(gc: nat, x0: int, dy: int, words: seq<Pixel>)
      requires Valid() && 0 <= x0 && (words == [] || x0 + |words| <= f.stride) && 0 <= dy < f.height
      modifies data
      ensures forall a, b :: f.Stored(a, b) ==>
        Pix(a, b) == if b == dy && x0 <= a < x0 + |words| then ImagePixel(gc, words[a - x0], old(Pix(a, b)))
                     else old(Pix(a, b))
    {
      hide ImagePixel;
      for col := 0 to |words|
        invariant forall a, b :: f.Stored(a, b) ==>
          Pix(a, b) == if b == dy && x0 <= a < x0 + col then ImagePixel(gc, words[a - x0], old(Pix(a, b)))
                       else old(Pix(a, b))
      {
        var d := Get(x0 + col, dy);
        Set(x0 + col, dy, ImagePixel(gc, words[col], d));
      }
    }

    // An overlapping copy: same-column GXcopy goes row by row in the safe
    // direction, every other copy through a temporary buffer.
    method Copy(srcX: int, srcY: int, dstX: int, dstY: int, w: nat, h: nat, gc: nat)
      requires Valid()
      modifies data
      ensures Pic() == Render(f, CopyArea(srcX, srcY, dstX, dstY, w, h, gc), old(Pic()))
    {
      hide CopiedPixel, PixelAfter, Render;
      var c := CopyArea(srcX, srcY, dstX, dstY, w, h, gc);
      ghost var pic := Pic();
      CopyAfter(f, c, pic);
      if gc == GX_NOOP {
        NoopCopy();
        Finished(f, c, pic, Pic());
        return;
      }
      var sx, sy, dx, dy := Max(srcX, 0), Max(srcY, 0), Max(dstX, 0), Max(dstY, 0);
      var cw: nat := Min(Min(w, Max(f.width - sx, 0)), Max(f.width - dx, 0));
      var ch: nat := Min(Min(h, Max(f.height - sy, 0)), Max(f.height - dy, 0));
      assert cw == CopyWidth(f, c) && ch == CopyHeight(f, c);
      if cw == 0 || ch == 0 {
        Finished(f, c, pic, Pic());
        return;
      }
      if gc == GX_COPY && sx == dx {
        Scroll(c, sx, sy, dy, cw, ch, pic);
      } else {
        var tmp := ReadRows(sx, sy, cw, ch);
        WriteCopy(c, dx, dy, cw, ch, tmp, pic);
      }
      hide CopyAt;
      Finished(f, c, pic, Pic());
    }

    // Same-column copies read each source row before any write reaches it:
    // top-down when moving up, bottom-up when moving down.
    method Scroll(c: Command, sx: int, sy: int, dy: int, cw: nat, ch: nat, ghost pic: Picture)
      requires Valid() && c.CopyArea? && c.gc == GX_COPY && pic == Pic()
      requires sx == Max(c.srcX, 0) == Max(c.dstX, 0) && sy == Max(c.srcY, 0) && dy == Max(c.dstY, 0)
      requires cw == CopyWidth(f, c) && ch == CopyHeight(f, c) && cw != 0 && ch != 0
      modifies data
      ensures forall a, b :: f.Stored(a, b) ==>
        Pix(a, b) == if f.Visible(a, b) then CopyAt(f, c, pic, a, b) else pic[b][a]
    {
      hide CopiedPixel;
      if dy <= sy {
        ScrollUp(sx, sy, dy, cw, ch, pic);
      } else {
        ScrollDown(sx, sy, dy, cw, ch, pic);
      }
      PlainCopy();
    }

    method ScrollUp(x: int, sy: int, dy: int, cw: nat, ch: nat, ghost pic: Picture)
      requires Valid() && pic == Pic() && 0 <= x && x + cw <= f.width
      requires 0 <= dy <= sy && sy + ch <= f.height
      modifies data
      ensures forall a, b :: f.Stored(a, b) ==>
        Pix(a, b) == if x <= a < x + cw && dy <= b < dy + ch then pic[sy + (b - dy)][a] else pic[b][a]
    {
      for row := 0 to ch
        invariant forall a, b :: f.Stored(a, b) ==>
          Pix(a, b) == if x <= a < x + cw && dy <= b < dy + row then pic[sy + (b - dy)][a] else pic[b][a]
      {
        CopyRow(x, sy + row, x, dy + row, cw);
      }
    }

    method ScrollDown(x: int, sy: int, dy: int, cw: nat, ch: nat, ghost pic: Picture)
      requires Valid() && pic == Pic() && 0 <= x && x + cw <= f.width
      requires 0 <= sy < dy && dy + ch <= f.height
      modifies data
      ensures forall a, b :: f.Stored(a, b) ==>
        Pix(a, b) == if x <= a < x + cw && dy <= b < dy + ch then pic[sy + (b - dy)][a] else pic[b][a]
    {
      for row := ch downto 0
        invariant forall a, b :: f.Stored(a, b) ==>
          Pix(a, b) == if x <= a < x + cw && dy + row <= b < dy + ch then pic[sy + (b - dy)][a] else pic[b][a]
      {
        CopyRow(x, sy + row, x, dy + row, cw);
      }
    }

    method ReadRows(x: int, y: int, w: nat, h: nat) returns (tmp: seq<seq<Pixel>>)
      requires Valid() && 0 <= x <= x + w <= f.stride && 0 <= y <= y + h <= f.height
      ensures |tmp| == h && forall r :: 0 <= r < h ==> |tmp[r]| == w
      ensures forall r, i :: 0 <= r < h && 0 <= i < w ==> tmp[r][i] == Pix(x + i, y + r)
    {
      tmp := [];
      for r := 0 to h
        invariant |tmp| == r && forall k :: 0 <= k < r ==> |tmp[k]| == w
        invariant forall k, i :: 0 <= k < r && 0 <= i < w ==> tmp[k][i] == Pix(x + i, y + k)
      {
        var row := ReadRow(x, y + r, w);
        tmp := tmp + [row];
      }
    }

    method WriteCopy(c: Command, dx: int, dy: int, cw: nat, ch: nat, tmp: seq<seq<Pixel>>, ghost pic: Picture)
      requires Valid() && c.CopyArea? && pic == Pic()
      requires dx == Max(c.dstX, 0) && dy == Max(c.dstY, 0) && cw == CopyWidth(f, c) && ch == CopyHeight(f, c)
      requires cw != 0 && ch != 0
      requires |tmp| == ch && forall r :: 0 <= r < ch ==> |tmp[r]| == cw
      requires forall r, i :: 0 <= r < ch && 0 <= i < cw ==> tmp[r][i] == pic[Max(c.srcY, 0) + r][Max(c.srcX, 0) + i]
      modifies data
      ensures forall a, b :: f.Stored(a, b) ==>
        Pix(a, b) == if f.Visible(a, b) then CopyAt(f, c, pic, a, b) else pic[b][a]
    {
      hide CopiedPixel, CopyAt, CopyWidth, CopyHeight;
      CopyInside(f, c);
      WriteRows(c.gc, dx, dy, cw, tmp, pic);
      forall a, b | f.Visible(a, b) ensures Pix(a, b) == CopyAt(f, c, pic, a, b) {
        CopyFromRows(f, c, pic, tmp, a, b);
      }
    }

    method WriteRows(gc: nat, dx: int, dy: int, cw: nat, tmp: seq<seq<Pixel>>, ghost pic: Picture)
      requires Valid() && pic == Pic() && 0 <= dx && dx + cw <= f.width && 0 <= dy && dy + |tmp| <= f.height
      requires forall r :: 0 <= r < |tmp| ==> |tmp[r]| == cw
      modifies data
      ensures forall a, b :: f.Stored(a, b) ==>
        Pix(a, b) == if dx <= a < dx + cw && dy <= b < dy + |tmp|
                     then CopiedPixel(gc, tmp[b - dy][a - dx], pic[b][a]) else pic[b][a]
    {
      hide CopiedPixel;
      for row := 0 to |tmp|
        invariant forall a, b :: f.Stored(a, b) ==>
          Pix(a, b) == if dx <= a < dx + cw && dy <= b < dy + row
                       then CopiedPixel(gc, tmp[b - dy][a - dx], pic[b][a]) else pic[b][a]
      {
        WriteCopyRow(gc, dx, dy + row, tmp[row]);
      }
    }

    method WriteCopyRow(gc: nat, dx: int, dy: int, row: seq<Pixel>)
      requires Valid() && 0 <= dx <= dx + |row| <= f.stride && 0 <= dy < f.height
      modifies data
      ensures forall a, b :: f.Stored(a, b) ==>
        Pix(a, b) == if b == dy && dx <= a < dx + |row|
          then CopiedPixel(gc, row[a - dx], old(Pix(a, b))) else old(Pix(a, b))
    {
      hide CopiedPixel;
      if gc == GX_COPY {
        PlainCopy();
        WriteRow(dx, dy, row);
      } else {
        for col := 0 to |row|
          invariant forall a, b :: f.Stored(a, b) ==>
            Pix(a, b) == if b == dy && dx <= a < dx + col
              then CopiedPixel(gc, row[a - dx], old(Pix(a, b))) else old(Pix(a, b))
        {
          var d := Get(dx + col, dy);
          Set(dx + col, dy, CopiedPixel(gc, row[col], d));
        }
      }
    }

    // render_to_buffer
    method RenderCommand(c: Command)
      requires Valid()
      modifies data
      ensures Pic() == Render(f, c, old(Pic()))
    {
      hide Render;
      match c
      case FillRectangle(x, y, w, h, color, gc) => FillRect(x, y, w, h, color, gc);
      case ClearArea(x, y, w, h, color) => Clear(x, y, w, h, color);
      case DrawLine(p, q, color, gc) => Line(p, q, color, gc);
      case DrawRectangle(x, y, w, h, color, gc) => Rect(x, y, w, h, color, gc);
      case PutImage(x, y, w, h, depth, format, image, gc) => Image(x, y, w, h, depth, format, image, gc);
      case CopyArea(sx, sy, dx, dy, w, h, gc) => Copy(sx, sy, dx, dy, w, h, gc);
    }

    // The display thread's work on one batch: coalesce, then render each.
    method RenderBatch(batch: seq<Command>)
      requires Valid()
      modifies data
      ensures Pic() == RenderAll(f, Coalesced(f, batch), old(Pic()))
      ensures (LastFull(f, batch).Some? ==> Covers(f, batch[LastFull(f, batch).value])) ==>
        Pic() == RenderAll(f, batch, old(Pic()))
    {
      hide Render, RenderAll, Covers;
      ghost var pic := Pic();
      var cs := CoalescePutImage(f, batch);
      RenderNothing(f, pic);
      for i := 0 to |cs|
        invariant Pic() == RenderAll(f, cs[..i], pic)
      {
        RenderNext(f, cs, i, pic);
        RenderCommand(cs[i]);
      }
      assert cs[..|cs|] == cs;
      if LastFull(f, batch).Some? ==> Covers(f, batch[LastFull(f, batch).value]) {
        CoalesceSound(f, batch, pic);
      }
    }
  }

  // Row `row` of an image at column a.
  function ImageAt(c: Command, x0: int, span: nat, row: nat, a: int, d: Pixel): Pixel
    requires c.PutImage? && 0 <= x0
  {
    var src: nat := row * c.w;
    if !(x0 <= a < x0 + span) || (c.gc == GX_COPY && |c.data| < src + span) || |c.data| <= src + (a - x0) then d
    else ImagePixel(c.gc, c.data[src + (a - x0)], d)
  }

  lemma {:induction false} ImageAfter(f: Size, c: Command, pic: Picture, a: int, b: int, x0: int, span: nat, row: nat)
    requires f.Valid() && Fits(f, pic) && f.Visible(a, b)
    requires c.PutImage? && c.gc != GX_NOOP && c.format == 2 && c.depth in {24, 32}
    requires x0 == Max(c.x, 0) && b == Max(c.y, 0) + row && row < c.h && span == Span(f.width, c.x, c.w)
    ensures PixelAfter(f, c, pic, a, b) == ImageAt(c, x0, span, row, a, pic[b][a])
  {
    hide ImagePixel;
    assert b - Max(c.y, 0) == row;
  }

  function Opaqued(row: seq<Pixel>): (r: seq<Pixel>)
    ensures |r| == |row|
    ensures forall i :: 0 <= i < |row| ==> r[i] == ImagePixel(GX_COPY, row[i], 0)
    ensures forall i, d :: 0 <= i < |row| ==> ImagePixel(GX_COPY, row[i], d) == r[i]
  {
    seq(|row|, i requires 0 <= i < |row| => row[i] | ALPHA)
  }

  function Hits(a: int, b: int, x: int, y: int): nat {
    if a == x && b == y then 1 else 0
  }

  // How often the first px - x rounds of an edge loop touch (a, b).
  function RowVisits(x: int, y: int, y1: int, px: int, a: int, b: int): nat {
    (if x <= a < px && b == y then 1 else 0) + (if x <= a < px && b == y1 then 1 else 0)
  }

  lemma VisitsStart(x: int, y: int, y1: int)
    ensures forall a, b :: RowVisits(x, y, y1, x, a, b) == 0
  {
  }

  // One more round of an edge loop, seen along either axis.
  lemma VisitsNext(x: int, y: int, y1: int, px: int, a: int, b: int)
    requires x <= px
    ensures RowVisits(x, y, y1, px + 1, a, b) ==
            RowVisits(x, y, y1, px, a, b) + (Hits(a, b, px, y) + Hits(a, b, px, y1))
    ensures Hits(a, b, px, y) == Hits(b, a, y, px)
    ensures Hits(a, b, px, y1) == Hits(b, a, y1, px)
  {
  }

  lemma VisitsEnd(x: int, y: int, w: nat, h: nat)
    ensures forall a, b :: RowVisits(x, y, y + h, x + w + 1, a, b) + RowVisits(y, x, x + w, y + h + 1, b, a) ==
                           EdgeVisits(x, y, w, h, a, b)
  {
  }

  lemma FewTouches(gc: nat, color: Pixel)
    ensures forall d {:trigger RopPixel(gc, color, d, ALL_PLANES)} ::
      RopTimes(gc, color, d, 1) == RopPixel(gc, color, d, ALL_PLANES)
    ensures forall d :: RopTimes(gc, color, d, 0) == d
    ensures forall d {:trigger RopPixel(gc, color, RopPixel(gc, color, d, ALL_PLANES), ALL_PLANES)} ::
      RopTimes(gc, color, d, 2) == RopPixel(gc, color, RopPixel(gc, color, d, ALL_PLANES), ALL_PLANES)
  {
    hide RopPixel;
    forall d ensures RopTimes(gc, color, d, 2) == RopPixel(gc, color, RopPixel(gc, color, d, ALL_PLANES), ALL_PLANES) {
      assert RopTimes(gc, color, d, 2) == RopPixel(gc, color, RopTimes(gc, color, d, 1), ALL_PLANES);
    }
  }

  lemma RopTimesNone(gc: nat, color: Pixel)
    ensures forall d :: RopTimes(gc, color, d, 0) == d
  {
  }

  lemma {:induction false} RopTimesAdd(gc: nat, color: Pixel, d: Pixel, m: nat, n: nat)
    ensures RopTimes(gc, color, RopTimes(gc, color, d, m), n) == RopTimes(gc, color, d, m + n)
  {
    if n != 0 { RopTimesAdd(gc, color, d, m, n - 1); }
  }

  lemma {:induction false} Finished(f: Size, c: Command, pic: Picture, now: Picture)
    requires f.Valid() && Fits(f, pic) && Fits(f, now)
    requires forall x, y :: f.Stored(x, y) ==>
      now[y][x] == if f.Visible(x, y) then PixelAfter(f, c, pic, x, y) else pic[y][x]
    ensures now == Render(f, c, pic)
  {
    SamePicture(f, now, Render(f, c, pic));
  }

  // The two fills and the copy, written out.
  lemma {:induction false} FillAfter(f: Size, c: Command, pic: Picture, gc: nat)
    requires f.Valid() && Fits(f, pic)
    requires (c.FillRectangle? && gc == c.gc) || (c.ClearArea? && gc == GX_COPY)
    ensures forall a, b :: f.Visible(a, b) ==>
      PixelAfter(f, c, pic, a, b) ==
        if InFill(f, c.x, c.y, c.w, c.h, a, b) then FillPixel(gc, c.color, pic[b][a]) else pic[b][a]
  {
    hide FillPixel;
  }

  lemma {:induction false} CopyAfter(f: Size, c: Command, pic: Picture)
    requires f.Valid() && Fits(f, pic) && c.CopyArea?
    ensures forall a, b :: f.Visible(a, b) ==> PixelAfter(f, c, pic, a, b) == CopyAt(f, c, pic, a, b)
  {
    hide CopyAt;
  }

  lemma {:induction false} CopyInside(f: Size, c: Command)
    requires c.CopyArea? && CopyWidth(f, c) != 0 && CopyHeight(f, c) != 0
    ensures Max(c.dstX, 0) + CopyWidth(f, c) <= f.width && Max(c.dstY, 0) + CopyHeight(f, c) <= f.height
    ensures Max(c.srcX, 0) + CopyWidth(f, c) <= f.width && Max(c.srcY, 0) + CopyHeight(f, c) <= f.height
  {
  }

  lemma {:induction false} CopyFromRows(f: Size, c: Command, pic: Picture, tmp: seq<seq<Pixel>>, a: int, b: int)
    requires f.Valid() && Fits(f, pic) && c.CopyArea? && f.Visible(a, b)
    requires |tmp| == CopyHeight(f, c) && forall r :: 0 <= r < |tmp| ==> |tmp[r]| == CopyWidth(f, c)
    requires forall r, i :: 0 <= r < |tmp| && 0 <= i < CopyWidth(f, c) ==>
      Max(c.srcY, 0) + r < f.height && Max(c.srcX, 0) + i < f.stride &&
      tmp[r][i] == pic[Max(c.srcY, 0) + r][Max(c.srcX, 0) + i]
    ensures var dx, dy := Max(c.dstX, 0), Max(c.dstY, 0);
      CopyAt(f, c, pic, a, b) ==
        if dx <= a < dx + CopyWidth(f, c) && dy <= b < dy + |tmp|
        then CopiedPixel(c.gc, tmp[b - dy][a - dx], pic[b][a]) else pic[b][a]
  {
    hide CopiedPixel, CopyWidth, CopyHeight;
    if InCopy(f, c, a, b) {
      var r, i := b - Max(c.dstY, 0), a - Max(c.dstX, 0);
      CopyInside(f, c);
      assert 0 <= r < |tmp| && 0 <= i < |tmp[r]|;
      assert tmp[r][i] == pic[Max(c.srcY, 0) + r][Max(c.srcX, 0) + i];
    }
  }

  lemma {:induction false} RectAfter(f: Size, c: Command, pic: Picture)
    requires f.Valid() && Fits(f, pic) && c.DrawRectangle? && c.gc != GX_NOOP
    ensures forall a, b :: f.Visible(a, b) ==>
      PixelAfter(f, c, pic, a, b) == RopTimes(c.gc, c.color, pic[b][a], EdgeVisits(c.x, c.y, c.w, c.h, a, b))
  {
    hide RopTimes;
  }

  lemma {:induction false} RectNoop(f: Size, c: Command, pic: Picture)
    requires f.Valid() && Fits(f, pic) && c.DrawRectangle? && c.gc == GX_NOOP
    ensures forall a, b :: f.Visible(a, b) ==> PixelAfter(f, c, pic, a, b) == pic[b][a]
  {
  }

  lemma SolidFill(color: Pixel)
    ensures forall d, e :: FillPixel(GX_COPY, color, d) == FillPixel(GX_COPY, color, e)
  {
  }

  lemma NoopFill(color: Pixel)
    ensures forall d :: FillPixel(GX_NOOP, color, d) == d
  {
  }

  lemma NoopRop(color: Pixel)
    ensures forall d :: RopPixel(GX_NOOP, color, d, ALL_PLANES) == d
  {
  }

  lemma NoopCopy()
    ensures forall s, d :: CopiedPixel(GX_NOOP, s, d) == d
  {
  }

  lemma PlainCopy()
    ensures forall s, d :: CopiedPixel(GX_COPY, s, d) == s
  {
  }

  lemma NoneAmong(p: Point, q: Point)
    ensures forall z :: !Among(p, q, 0, z)
  {
  }

  lemma {:induction false} AmongNext(p: Point, q: Point, k: nat)
    ensures !Among(p, q, k, LinePoint(p, q, k))
    ensures forall z :: Among(p, q, k + 1, z) <==> Among(p, q, k, z) || z == LinePoint(p, q, k)
  {
    if Among(p, q, k, LinePoint(p, q, k)) {
      var j: nat :| j < k && LinePoint(p, q, j) == LinePoint(p, q, k);
      PointsDistinct(p, q, j, k);
    }
    forall z ensures Among(p, q, k + 1, z) <==> Among(p, q, k, z) || z == LinePoint(p, q, k) {
      if Among(p, q, k, z) {
        var j: nat :| j < k && LinePoint(p, q, j) == z;
        assert j < k + 1;
      }
    }
  }

  lemma RenderNothing(f: Size, pic: Picture)
    requires f.Valid() && Fits(f, pic)
    ensures RenderAll(f, [], pic) == pic
  {
  }

  lemma {:induction false} RenderNext(f: Size, cs: seq<Command>, i: nat, pic: Picture)
    requires f.Valid() && Fits(f, pic) && i < |cs|
    ensures RenderAll(f, cs[..i + 1], pic) == Render(f, cs[i], RenderAll(f, cs[..i], pic))
  {
    assert cs[..i + 1] == cs[..i] + [cs[i]];
    RenderAllConcat(f, cs[..i], [cs[i]], pic);
    AfterFirst(f, cs[i], [], RenderAll(f, cs[..i], pic));
    assert [cs[i]] + [] == [cs[i]];
  }
}
