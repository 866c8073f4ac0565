// 32-bit BGRA pixels and the X raster operations on them.
module Pixels {
  type Pixel = bv32

  const ALPHA: Pixel := 0xFF00_0000
  const COLORS: Pixel := 0x00FF_FFFF
  const ALL_PLANES: Pixel := 0xFFFF_FFFF

  const GX_COPY: nat := 3
  const GX_NOOP: nat := 5
  const GX_XOR: nat := 6

  predicate Opaque(p: Pixel) {
    p & ALPHA == ALPHA
  }

  // The sixteen GC functions; an unknown number copies.
  function Combine(gc: nat, src: Pixel, dst: Pixel): Pixel {
    match gc
    case 0 => 0
    case 1 => src & dst
    case 2 => src & !dst
    case 3 => src
    case 4 => !src & dst
    case 5 => dst
    case 6 => src ^ dst
    case 7 => src | dst
    case 8 => !(src | dst)
    case 9 => !(src ^ dst)
    case 10 => !dst
    case 11 => src | !dst
    case 12 => !src
    case 13 => !src | dst
    case 14 => !(src & dst)
    case 15 => 0xFFFF_FFFF
    case _ => src
  }

  // Combine under a plane mask; the alpha byte always ends up 0xFF.
  function ApplyRop(gc: nat, src: Pixel, dst: Pixel, planes: Pixel): Pixel {
    ((dst & !planes) | (Combine(gc, src, dst) & planes)) | ALPHA
  }

  // What rop_pixel leaves at an in-bounds pixel.
  function RopPixel(gc: nat, color: Pixel, dst: Pixel, planes: Pixel): Pixel {
    if gc == GX_COPY && planes == ALL_PLANES then (color & COLORS) | ALPHA
    else if gc == GX_NOOP then dst
    else ApplyRop(gc, color | ALPHA, dst, planes & COLORS)
  }

  // The selection highlight FillRectangle draws for GXxor: (60, 140, 255)
  // over the old pixel at 77/255.
  function Highlight(dst: Pixel): Pixel {
    var b := (255 * 77 + (dst & 0xFF) * 178) / 255;
    var g := (140 * 77 + ((dst >> 8) & 0xFF) * 178) / 255;
    var r := (60 * 77 + ((dst >> 16) & 0xFF) * 178) / 255;
    ALPHA | (r << 16) | (g << 8) | b
  }

  // What FillRectangle leaves at a pixel of the filled area.
  function FillPixel(gc: nat, color: Pixel, dst: Pixel): Pixel {
    if gc == GX_NOOP then dst
    else if gc == GX_COPY then (color & COLORS) | ALPHA
    else if gc == GX_XOR then Highlight(dst)
    else ApplyRop(gc, (color & COLORS) | ALPHA, dst, COLORS)
  }

  // What PutImage leaves at a pixel it has data for.
  function ImagePixel(gc: nat, src: Pixel, dst: Pixel): Pixel {
    if gc == GX_NOOP then dst
    else if gc == GX_COPY then src | ALPHA
    else ApplyRop(gc, src | ALPHA, dst, COLORS)
  }

  // The source pixels on which an operation ignores what was there: a copy,
  // its inverse and the constants always, the and-family and or-family only
  // on an absorbing source colour, the rest never.
  predicate Overwrites(gc: nat, src: Pixel) {
    match gc
    case 1 => src & COLORS == 0
    case 2 => src & COLORS == 0
    case 4 => src & COLORS == COLORS
    case 5 => false
    case 6 => false
    case 7 => src & COLORS == COLORS
    case 8 => src & COLORS == COLORS
    case 9 => false
    case 10 => false
    case 11 => src & COLORS == COLORS
    case 13 => src & COLORS == 0
    case 14 => src & COLORS == 0
    case _ => true
  }

  lemma {:induction false} OverwritesIgnoresOld(gc: nat, src: Pixel, d1: Pixel, d2: Pixel)
    requires Overwrites(gc, src)
    ensures ImagePixel(gc, src, d1) == ImagePixel(gc, src, d2)
  {
    if gc != GX_NOOP && gc != GX_COPY {
      SameVerdict(gc, src);
      hide Combine, Overwrites;
      CombineIgnoresOld(gc, src | ALPHA, d1, d2);
      RopResult(Combine(gc, src | ALPHA, d1), d1);
      RopResult(Combine(gc, src | ALPHA, d2), d2);
    }
  }

  lemma SameColors(src: Pixel)
    ensures (src | ALPHA) & COLORS == src & COLORS
  {
  }

  lemma {:induction false} SameVerdict(gc: nat, src: Pixel)
    ensures Overwrites(gc, src | ALPHA) <==> Overwrites(gc, src)
  {
    SameColors(src);
  }

  lemma RopResult(x: Pixel, d: Pixel)
    ensures ((d & !COLORS) | (x & COLORS)) | ALPHA == (x & COLORS) | ALPHA
  {
  }

  lemma AlphaDistinguishes(u: Pixel, v: Pixel)
    requires (u & COLORS) | ALPHA == (v & COLORS) | ALPHA
    ensures u & COLORS == v & COLORS
  {
  }

  lemma BlackAbsorbs(s: Pixel, d: Pixel)
    requires s & COLORS == 0
    ensures Combine(1, s, d) & COLORS == 0 && Combine(2, s, d) & COLORS == 0
    ensures Combine(13, s, d) & COLORS == COLORS && Combine(14, s, d) & COLORS == COLORS
  {
  }

  lemma WhiteAbsorbs(s: Pixel, d: Pixel)
    requires s & COLORS == COLORS
    ensures Combine(4, s, d) & COLORS == 0 && Combine(8, s, d) & COLORS == 0
    ensures Combine(7, s, d) & COLORS == COLORS && Combine(11, s, d) & COLORS == COLORS
  {
  }

  lemma SourceOnly(gc: nat, s: Pixel, d1: Pixel, d2: Pixel)
    requires gc in {0, 3, 12, 15} || 15 < gc
    ensures Combine(gc, s, d1) == Combine(gc, s, d2)
  {
  }

  lemma {:induction false} CombineIgnoresOld(gc: nat, s: Pixel, d1: Pixel, d2: Pixel)
    requires Overwrites(gc, s)
    ensures Combine(gc, s, d1) & COLORS == Combine(gc, s, d2) & COLORS
  {
    hide Combine;
    if gc in {1, 2, 13, 14} {
      BlackAbsorbs(s, d1);
      BlackAbsorbs(s, d2);
    } else if gc in {4, 7, 8, 11} {
      WhiteAbsorbs(s, d1);
      WhiteAbsorbs(s, d2);
    } else {
      SourceOnly(gc, s, d1, d2);
    }
  }

  // Two opaque old pixels that tell any other operation apart.
  lemma {:induction false} NotOverwritingShows(gc: nat, src: Pixel)
    requires !Overwrites(gc, src)
    ensures ImagePixel(gc, src, ALPHA) != ImagePixel(gc, src, ALL_PLANES)
  {
    if gc == GX_NOOP {
      assert ALPHA != ALL_PLANES;
    } else {
      assert gc != GX_COPY;
      SameVerdict(gc, src);
      CombineShowsOld(gc, src | ALPHA);
      ImageShows(gc, src, ALPHA, ALL_PLANES);
    }
  }

  lemma {:induction false} ImageShows(gc: nat, src: Pixel, d1: Pixel, d2: Pixel)
    requires gc != GX_NOOP && gc != GX_COPY
    requires Combine(gc, src | ALPHA, d1) & COLORS != Combine(gc, src | ALPHA, d2) & COLORS
    ensures ImagePixel(gc, src, d1) != ImagePixel(gc, src, d2)
  {
    hide Combine;
    RopShows(Combine(gc, src | ALPHA, d1), Combine(gc, src | ALPHA, d2), d1, d2);
  }

  lemma RopShows(x: Pixel, y: Pixel, d1: Pixel, d2: Pixel)
    requires x & COLORS != y & COLORS
    ensures ((d1 & !COLORS) | (x & COLORS)) | ALPHA != ((d2 & !COLORS) | (y & COLORS)) | ALPHA
  {
    RopResult(x, d1);
    RopResult(y, d2);
    if (x & COLORS) | ALPHA == (y & COLORS) | ALPHA {
      AlphaDistinguishes(x, y);
    }
  }

  lemma {:induction false} CombineShowsOld(gc: nat, s: Pixel)
    requires !Overwrites(gc, s) && gc != GX_NOOP
    ensures Combine(gc, s, ALPHA) & COLORS != Combine(gc, s, ALL_PLANES) & COLORS
  {
  }

  // XOR drawn twice gives back exactly the opaque pixels.
  lemma XorTwice(color: Pixel, dst: Pixel)
    ensures RopPixel(GX_XOR, color, RopPixel(GX_XOR, color, dst, ALL_PLANES), ALL_PLANES) == dst | ALPHA
    ensures dst | ALPHA == dst <==> Opaque(dst)
  {
  }

  // ---------------------------------------------------------------------
  // What the function numbers mean

  // A function of two bits, by its results for source and old bit 1 1, 1 0,
  // 0 1 and 0 0.
  datatype Truths = Truths(both: bool, source: bool, kept: bool, neither: bool)

  function Applied(t: Truths, s: Pixel, d: Pixel): Pixel {
    (if t.both then s & d else 0) | (if t.source then s & !d else 0) |
    (if t.kept then !s & d else 0) | (if t.neither then !s & !d else 0)
  }

  // The X protocol numbers the functions by these results, as bits 0 to 3; the
  // server takes an unknown number for a copy.
  function TableOf(gc: nat): Truths {
    var n := if gc < 16 then gc else 3;
    Truths(n % 2 == 1, n / 2 % 2 == 1, n / 4 % 2 == 1, n / 8 % 2 == 1)
  }

  lemma Row0(s: Pixel, d: Pixel) ensures Applied(Truths(false, false, false, false), s, d) == 0 { }
  lemma Row1(s: Pixel, d: Pixel) ensures Applied(Truths(true, false, false, false), s, d) == s & d { }
  lemma Row2(s: Pixel, d: Pixel) ensures Applied(Truths(false, true, false, false), s, d) == s & !d { }
  lemma Row3(s: Pixel, d: Pixel) ensures Applied(Truths(true, true, false, false), s, d) == s { }
  lemma Row4(s: Pixel, d: Pixel) ensures Applied(Truths(false, false, true, false), s, d) == !s & d { }
  lemma Row5(s: Pixel, d: Pixel) ensures Applied(Truths(true, false, true, false), s, d) == d { }
  lemma Row6(s: Pixel, d: Pixel) ensures Applied(Truths(false, true, true, false), s, d) == s ^ d { }
  lemma Row7(s: Pixel, d: Pixel) ensures Applied(Truths(true, true, true, false), s, d) == s | d { }
  lemma Row8(s: Pixel, d: Pixel) ensures Applied(Truths(false, false, false, true), s, d) == !(s | d) { }
  lemma Row9(s: Pixel, d: Pixel) ensures Applied(Truths(true, false, false, true), s, d) == !(s ^ d) { }
  lemma Row10(s: Pixel, d: Pixel) ensures Applied(Truths(false, true, false, true), s, d) == !d { }
  lemma Row11(s: Pixel, d: Pixel) ensures Applied(Truths(true, true, false, true), s, d) == s | !d { }
  lemma Row12(s: Pixel, d: Pixel) ensures Applied(Truths(false, false, true, true), s, d) == !s { }
  lemma Row13(s: Pixel, d: Pixel) ensures Applied(Truths(true, false, true, true), s, d) == !s | d { }
  lemma Row14(s: Pixel, d: Pixel) ensures Applied(Truths(false, true, true, true), s, d) == !(s & d) { }
  lemma Row15(s: Pixel, d: Pixel) ensures Applied(Truths(true, true, true, true), s, d) == 0xFFFF_FFFF { }

  lemma Tables()
    ensures TableOf(0) == Truths(false, false, false, false)
    ensures TableOf(1) == Truths(true, false, false, false)
    ensures TableOf(2) == Truths(false, true, false, false)
    ensures TableOf(3) == Truths(true, true, false, false)
    ensures TableOf(4) == Truths(false, false, true, false)
    ensures TableOf(5) == Truths(true, false, true, false)
    ensures TableOf(6) == Truths(false, true, true, false)
    ensures TableOf(7) == Truths(true, true, true, false)
    ensures TableOf(8) == Truths(false, false, false, true)
    ensures TableOf(9) == Truths(true, false, false, true)
    ensures TableOf(10) == Truths(false, true, false, true)
    ensures TableOf(11) == Truths(true, true, false, true)
    ensures TableOf(12) == Truths(false, false, true, true)
    ensures TableOf(13) == Truths(true, false, true, true)
    ensures TableOf(14) == Truths(false, true, true, true)
    ensures TableOf(15) == Truths(true, true, true, true)
    ensures forall gc :: 15 < gc ==> TableOf(gc) == Truths(true, true, false, false)
  {
  }

  lemma Entry0(s: Pixel, d: Pixel)
    ensures Combine(0, s, d) == Applied(TableOf(0), s, d)
  {
    Tables();
    Row0(s, d);
    hide TableOf, Applied;
  }

  lemma Entry1(s: Pixel, d: Pixel)
    ensures Combine(1, s, d) == Applied(TableOf(1), s, d)
  {
    Tables();
    Row1(s, d);
    hide TableOf, Applied;
  }

  lemma Entry2(s: Pixel, d: Pixel)
    ensures Combine(2, s, d) == Applied(TableOf(2), s, d)
  {
    Tables();
    Row2(s, d);
    hide TableOf, Applied;
  }

  lemma Entry3(s: Pixel, d: Pixel)
    ensures Combine(3, s, d) == Applied(TableOf(3), s, d)
  {
    Tables();
    Row3(s, d);
    hide TableOf, Applied;
  }

  lemma Entry4(s: Pixel, d: Pixel)
    ensures Combine(4, s, d) == Applied(TableOf(4), s, d)
  {
    Tables();
    Row4(s, d);
    hide TableOf, Applied;
  }

  lemma Entry5(s: Pixel, d: Pixel)
    ensures Combine(5, s, d) == Applied(TableOf(5), s, d)
  {
    Tables();
    Row5(s, d);
    hide TableOf, Applied;
  }

  lemma Entry6(s: Pixel, d: Pixel)
    ensures Combine(6, s, d) == Applied(TableOf(6), s, d)
  {
    Tables();
    Row6(s, d);
    hide TableOf, Applied;
  }

  lemma Entry7(s: Pixel, d: Pixel)
    ensures Combine(7, s, d) == Applied(TableOf(7), s, d)
  {
    Tables();
    Row7(s, d);
    hide TableOf, Applied;
  }

  lemma Entry8(s: Pixel, d: Pixel)
    ensures Combine(8, s, d) == Applied(TableOf(8), s, d)
  {
    Tables();
    Row8(s, d);
    hide TableOf, Applied;
  }

  lemma Entry9(s: Pixel, d: Pixel)
    ensures Combine(9, s, d) == Applied(TableOf(9), s, d)
  {
    Tables();
    Row9(s, d);
    hide TableOf, Applied;
  }

  lemma Entry10(s: Pixel, d: Pixel)
    ensures Combine(10, s, d) == Applied(TableOf(10), s, d)
  {
    Tables();
    Row10(s, d);
    hide TableOf, Applied;
  }

  lemma Entry11(s: Pixel, d: Pixel)
    ensures Combine(11, s, d) == Applied(TableOf(11), s, d)
  {
    Tables();
    Row11(s, d);
    hide TableOf, Applied;
  }

  lemma Entry12(s: Pixel, d: Pixel)
    ensures Combine(12, s, d) == Applied(TableOf(12), s, d)
  {
    Tables();
    Row12(s, d);
    hide TableOf, Applied;
  }

  lemma Entry13(s: Pixel, d: Pixel)
    ensures Combine(13, s, d) == Applied(TableOf(13), s, d)
  {
    Tables();
    Row13(s, d);
    hide TableOf, Applied;
  }

  lemma Entry14(s: Pixel, d: Pixel)
    ensures Combine(14, s, d) == Applied(TableOf(14), s, d)
  {
    Tables();
    Row14(s, d);
    hide TableOf, Applied;
  }

  lemma Entry15(s: Pixel, d: Pixel)
    ensures Combine(15, s, d) == Applied(TableOf(15), s, d)
  {
    Tables();
    Row15(s, d);
    hide TableOf, Applied;
  }

  lemma {:induction false} CombineIsTable(gc: nat, s: Pixel, d: Pixel)
    ensures Combine(gc, s, d) == Applied(TableOf(gc), s, d)
  {
    hide Combine, TableOf, Applied;
    match gc
    case 0 => Entry0(s, d);
    case 1 => Entry1(s, d);
    case 2 => Entry2(s, d);
    case 3 => Entry3(s, d);
    case 4 => Entry4(s, d);
    case 5 => Entry5(s, d);
    case 6 => Entry6(s, d);
    case 7 => Entry7(s, d);
    case 8 => Entry8(s, d);
    case 9 => Entry9(s, d);
    case 10 => Entry10(s, d);
    case 11 => Entry11(s, d);
    case 12 => Entry12(s, d);
    case 13 => Entry13(s, d);
    case 14 => Entry14(s, d);
    case 15 => Entry15(s, d);
    case _ => OtherEntry(gc, s, d);
  }

  lemma OtherEntry(gc: nat, s: Pixel, d: Pixel)
    requires 15 < gc
    ensures Combine(gc, s, d) == Applied(TableOf(gc), s, d)
  {
    Tables();
    Row3(s, d);
    hide TableOf, Applied;
  }

  // The colour part of a result follows the table, and the result is opaque;
  // GXnoop leaves the alpha too.
  function Drawn(gc: nat, src: Pixel, dst: Pixel): Pixel {
    if gc == 5 then dst else (Applied(TableOf(gc), src, dst) & COLORS) | ALPHA
  }

  // Lines and outlines, fills and images all do, and copies, except that a
  // GXxor fill highlights, and that a GXcopy copy takes the source word as it
  // is.
  lemma {:induction false} OperationsFollowTable(gc: nat, src: Pixel, dst: Pixel)
    ensures RopPixel(gc, src, dst, ALL_PLANES) == Drawn(gc, src | ALPHA, dst)
    ensures gc != 6 ==> FillPixel(gc, src, dst) == Drawn(gc, src | ALPHA, dst)
    ensures ImagePixel(gc, src, dst) == Drawn(gc, src | ALPHA, dst)
    ensures gc != 5 ==> ApplyRop(gc, src, dst, COLORS) == Drawn(gc, src, dst)
  {
    SourceColors(src);
    Results(gc, src, dst);
    if gc != 5 {
      RopDraws(gc, src | ALPHA, dst);
      RopDraws(gc, src, dst);
    }
    hide RopPixel, FillPixel, ImagePixel, ApplyRop, Drawn;
    if gc == 3 { CopyDraws(src, dst); }
    if gc == 5 { NoopDraws(src | ALPHA, dst); }
  }

  lemma SourceColors(src: Pixel)
    ensures src | ALPHA == (src & COLORS) | ALPHA
  {
  }

  lemma Results(gc: nat, src: Pixel, dst: Pixel)
    ensures RopPixel(gc, src, dst, ALL_PLANES) ==
      if gc == 3 then (src & COLORS) | ALPHA else if gc == 5 then dst else ApplyRop(gc, src | ALPHA, dst, COLORS)
    ensures gc != 6 ==>
      FillPixel(gc, src, dst) == (if gc == 3 then (src & COLORS) | ALPHA
                                  else if gc == 5 then dst else ApplyRop(gc, (src & COLORS) | ALPHA, dst, COLORS))
    ensures ImagePixel(gc, src, dst) ==
      if gc == 3 then src | ALPHA else if gc == 5 then dst else ApplyRop(gc, src | ALPHA, dst, COLORS)
  {
    hide ApplyRop;
    assert ALL_PLANES & COLORS == COLORS;
  }

  lemma NoopDraws(s: Pixel, dst: Pixel)
    ensures Drawn(5, s, dst) == dst
  {
    hide Applied, TableOf;
  }

  lemma {:induction false} CopyDraws(src: Pixel, dst: Pixel)
    ensures Drawn(3, src | ALPHA, dst) == src | ALPHA
  {
    hide Applied, TableOf;
    Tables();
    Row3(src | ALPHA, dst);
    OpaqueCopy(src);
  }

  lemma OpaqueCopy(src: Pixel)
    ensures ((src | ALPHA) & COLORS) | ALPHA == src | ALPHA
  {
  }

  lemma {:induction false} RopDraws(gc: nat, s: Pixel, dst: Pixel)
    requires gc != 5
    ensures ApplyRop(gc, s, dst, COLORS) == Drawn(gc, s, dst)
  {
    hide Combine, Applied, TableOf;
    CombineIsTable(gc, s, dst);
    RopResult(Combine(gc, s, dst), dst);
  }

  // A GXxor fill blends each colour with that of the highlight, 77 parts in 255,
  // rounded down.
  lemma {:induction false} HighlightBlends(dst: Pixel)
    ensures Opaque(Highlight(dst))
    ensures Blend(Highlight(dst) & 0xFF, dst & 0xFF, 255)
    ensures Blend((Highlight(dst) >> 8) & 0xFF, (dst >> 8) & 0xFF, 140)
    ensures Blend((Highlight(dst) >> 16) & 0xFF, (dst >> 16) & 0xFF, 60)
  {
  }

  predicate Blend(c: Pixel, was: Pixel, tint: Pixel) {
    255 * c <= 77 * tint + 178 * was < 255 * c + 255
  }
}
