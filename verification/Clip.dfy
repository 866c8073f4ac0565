// ClipByChildren: subtracting child rectangles from a cleared rectangle.
module Clip {
  import opened Basics

  // A rectangle as the server stores it: corner INT16, size CARD16.
  datatype Rect = Rect(x: int, y: int, w: nat, h: nat)

  predicate InRange(r: Rect) {
    -0x8000 <= r.x < 0x8000 && -0x8000 <= r.y < 0x8000 && r.w < 0x10000 && r.h < 0x10000
  }

  predicate Has(r: Rect, px: int, py: int) {
    r.x <= px < r.x + r.w && r.y <= py < r.y + r.h
  }

  ghost predicate Covered(rs: seq<Rect>, px: int, py: int) {
    exists i :: 0 <= i < |rs| && Has(rs[i], px, py)
  }

  // The result of a clip: disjoint rectangles, none of them empty, holding
  // exactly the points of r outside every child.
  ghost predicate Exact(r: Rect, children: seq<Rect>, rs: seq<Rect>) {
    && Disjoint(rs)
    && (0 < r.w && 0 < r.h ==> forall i :: 0 <= i < |rs| ==> 0 < rs[i].w && 0 < rs[i].h)
    && forall px, py :: Covered(rs, px, py) <==> Has(r, px, py) && !Covered(children, px, py)
  }

  ghost predicate Disjoint(rs: seq<Rect>) {
    forall i, j, px, py :: 0 <= i < j < |rs| && Has(rs[i], px, py) ==> !Has(rs[j], px, py)
  }

  // ---------------------------------------------------------------------
  // One rectangle minus one child: up to four strips, corners truncated to
  // 16 bits.

  predicate Apart(r: Rect, c: Rect) {
    r.x + r.w <= c.x || c.x + c.w <= r.x || r.y + r.h <= c.y || c.y + c.h <= r.y
  }

  function Top(r: Rect, c: Rect): seq<Rect> {
    var h := Min(c.y - r.y, r.h);
    if r.y < c.y && 0 < h then [Rect(r.x, r.y, r.w, h)] else []
  }

  function Bottom(r: Rect, c: Rect): seq<Rect> {
    var h := Min(r.y + r.h - (c.y + c.h), r.h);
    if c.y + c.h < r.y + r.h && 0 < h then [Rect(r.x, I16(Max(c.y + c.h, r.y)), r.w, h)] else []
  }

  function Beside(r: Rect, c: Rect): seq<Rect> {
    var top := I16(Max(c.y, r.y));
    var h: nat := Max(Min(c.y + c.h, r.y + r.h) - top, 0);
    var lw, rw := Min(c.x - r.x, r.w), Min(r.x + r.w - (c.x + c.w), r.w);
    if h == 0 then []
    else
      (if r.x < c.x && 0 < lw then [Rect(r.x, top, lw, h)] else []) +
      (if c.x + c.w < r.x + r.w && 0 < rw then [Rect(I16(Max(c.x + c.w, r.x)), top, rw, h)] else [])
  }

  function Minus(r: Rect, c: Rect): seq<Rect> {
    if Apart(r, c) then [r] else Top(r, c) + Bottom(r, c) + Beside(r, c)
  }

  function AllMinus(rs: seq<Rect>, c: Rect): seq<Rect> {
    if rs == [] then [] else AllMinus(rs[..|rs| - 1], c) + Minus(rs[|rs| - 1], c)
  }

  function Clipped(r: Rect, children: seq<Rect>): seq<Rect> {
    if children == [] then [r]
    else AllMinus(Clipped(r, children[..|children| - 1]), children[|children| - 1])
  }

  // clip_clear_by_children
  method ClipClearByChildren(r: Rect, children: seq<Rect>) returns (rects: seq<Rect>)
    ensures rects == Clipped(r, children)
  {
    hide AllMinus;
    rects := [r];
    for i := 0 to |children|
      invariant rects == Clipped(r, children[..i])
    {
      assert children[..i + 1][..i] == children[..i];
      rects := SubtractChild(rects, children[i]);
    }
    assert children[..|children|] == children;
  }

  // Subtracts one child from every rectangle so far.
  method SubtractChild(rects: seq<Rect>, c: Rect) returns (next: seq<Rect>)
    ensures next == AllMinus(rects, c)
  {
    hide Top, Bottom, Beside;
    next := [];
    for j := 0 to |rects|
      invariant next == AllMinus(rects[..j], c)
    {
      var s := rects[j];
      assert rects[..j + 1][..j] == rects[..j];
      if c.x >= s.x + s.w || c.x + c.w <= s.x || c.y >= s.y + s.h || c.y + c.h <= s.y {
        next := next + [s];
        continue;
      }
      next := SubtractInto(next, s, c);
    }
    assert rects[..|rects|] == rects;
  }

  // Pushes the strips of s around c onto next.
  method SubtractInto(next: seq<Rect>, s: Rect, c: Rect) returns (r: seq<Rect>)
    requires !Apart(s, c)
    ensures r == next + Minus(s, c)
  {
    r := next;
    if c.y > s.y {
      var h := Min(c.y - s.y, s.h);
      if h > 0 { r := r + [Rect(s.x, s.y, s.w, h)]; }
    }
    assert r == next + Top(s, c);
    if c.y + c.h < s.y + s.h {
      var top := I16(Max(c.y + c.h, s.y));
      var h := Min(s.y + s.h - (c.y + c.h), s.h);
      if h > 0 { r := r + [Rect(s.x, top, s.w, h)]; }
    }
    assert r == next + (Top(s, c) + Bottom(s, c));
    var top := I16(Max(c.y, s.y));
    var h: nat := Max(Min(c.y + c.h, s.y + s.h) - top, 0);
    if h > 0 {
      if c.x > s.x {
        var w := Min(c.x - s.x, s.w);
        if w > 0 { r := r + [Rect(s.x, top, w, h)]; }
      }
      if c.x + c.w < s.x + s.w {
        var left := I16(Max(c.x + c.w, s.x));
        var w := Min(s.x + s.w - (c.x + c.w), s.w);
        if w > 0 { r := r + [Rect(left, top, w, h)]; }
      }
    }
    assert r == next + (Top(s, c) + Bottom(s, c) + Beside(s, c));
  }

  // ---------------------------------------------------------------------
  // Exactness

  // The far edges of a rectangle fit in 16 bits (or it has no points).
  predicate EdgesFit(r: Rect) {
    r.w == 0 || r.h == 0 || (r.x + r.w <= 0x8000 && r.y + r.h <= 0x8000)
  }

  lemma {:induction false} CoveredConcat(a: seq<Rect>, b: seq<Rect>, px: int, py: int)
    ensures Covered(a + b, px, py) <==> Covered(a, px, py) || Covered(b, px, py)
  {
    if Covered(a + b, px, py) {
      var i :| 0 <= i < |a + b| && Has((a + b)[i], px, py);
      if i < |a| { assert Has(a[i], px, py); } else { assert Has(b[i - |a|], px, py); }
    }
    if Covered(a, px, py) {
      var i :| 0 <= i < |a| && Has(a[i], px, py);
      assert Has((a + b)[i], px, py);
    }
    if Covered(b, px, py) {
      var i :| 0 <= i < |b| && Has(b[i], px, py);
      assert Has((a + b)[|a| + i], px, py);
    }
  }

  lemma {:induction false} DisjointConcat(a: seq<Rect>, b: seq<Rect>)
    requires Disjoint(a) && Disjoint(b)
    requires forall px, py :: Covered(a, px, py) ==> !Covered(b, px, py)
    ensures Disjoint(a + b)
  {
    forall i, j, px, py | 0 <= i < j < |a + b| && Has((a + b)[i], px, py) ensures !Has((a + b)[j], px, py) {
      if i < |a| <= j {
        assert Has(a[i], px, py) ==> Covered(a, px, py);
        assert Has(b[j - |a|], px, py) ==> Covered(b, px, py);
      }
    }
  }

  // A rectangle a clip may meet on the way: 16-bit fields and far edges.
  predicate Fitting(r: Rect) {
    InRange(r) && r.x + r.w <= 0x8000 && r.y + r.h <= 0x8000
  }

  ghost predicate AllFitting(rs: seq<Rect>) {
    forall i :: 0 <= i < |rs| ==> Fitting(rs[i])
  }

  ghost predicate NoneEmpty(rs: seq<Rect>) {
    forall i :: 0 <= i < |rs| ==> 0 < rs[i].w && 0 < rs[i].h
  }

  lemma {:induction false} MinusShapes(r: Rect, c: Rect)
    requires Fitting(r) && InRange(c)
    ensures AllFitting(Minus(r, c))
    ensures 0 < r.w && 0 < r.h ==> NoneEmpty(Minus(r, c))
  {
    hide Top, Bottom, Beside, InRange;
    if !Apart(r, c) {
      StripsAbove(r, c);
      StripsBeside(r, c);
    }
  }

  lemma StripsAbove(r: Rect, c: Rect)
    requires Fitting(r) && InRange(c) && !Apart(r, c)
    ensures AllFitting(Top(r, c)) && AllFitting(Bottom(r, c))
    ensures 0 < r.w && 0 < r.h ==> NoneEmpty(Top(r, c)) && NoneEmpty(Bottom(r, c))
  {
  }

  lemma StripsBeside(r: Rect, c: Rect)
    requires Fitting(r) && InRange(c) && !Apart(r, c)
    ensures AllFitting(Beside(r, c))
    ensures 0 < r.w && 0 < r.h ==> NoneEmpty(Beside(r, c))
  {
  }

  lemma {:induction false} MinusDisjoint(r: Rect, c: Rect)
    requires Fitting(r) && InRange(c)
    ensures Disjoint(Minus(r, c))
  {
    if !Apart(r, c) {
      forall px, py | Covered(Top(r, c), px, py) ensures !Covered(Bottom(r, c), px, py) {
        FewCovered(Top(r, c), px, py);
        FewCovered(Bottom(r, c), px, py);
      }
      DisjointConcat(Top(r, c), Bottom(r, c));
      forall px, py | Covered(Top(r, c) + Bottom(r, c), px, py) ensures !Covered(Beside(r, c), px, py) {
        CoveredConcat(Top(r, c), Bottom(r, c), px, py);
        FewCovered(Top(r, c), px, py);
        FewCovered(Bottom(r, c), px, py);
        FewCovered(Beside(r, c), px, py);
      }
      DisjointConcat(Top(r, c) + Bottom(r, c), Beside(r, c));
    }
  }

  lemma {:induction false} MinusPoint(r: Rect, c: Rect, px: int, py: int)
    requires Fitting(r) && InRange(c)
    ensures Covered(Minus(r, c), px, py) <==> Has(r, px, py) && !Has(c, px, py)
  {
    if Apart(r, c) {
      assert Covered([r], px, py) <==> Has([r][0], px, py);
    } else {
      CoveredConcat(Top(r, c) + Bottom(r, c), Beside(r, c), px, py);
      CoveredConcat(Top(r, c), Bottom(r, c), px, py);
      FewCovered(Top(r, c), px, py);
      FewCovered(Bottom(r, c), px, py);
      FewCovered(Beside(r, c), px, py);
    }
  }

  lemma FewCovered(rs: seq<Rect>, px: int, py: int)
    requires |rs| <= 2
    ensures Covered(rs, px, py) <==> (0 < |rs| && Has(rs[0], px, py)) || (1 < |rs| && Has(rs[1], px, py))
  {
  }

  lemma {:induction false} AllMinusExact(rs: seq<Rect>, c: Rect)
    requires AllFitting(rs) && Disjoint(rs) && InRange(c)
    ensures AllFitting(AllMinus(rs, c)) && Disjoint(AllMinus(rs, c))
    ensures NoneEmpty(rs) ==> NoneEmpty(AllMinus(rs, c))
    ensures forall px, py :: Covered(AllMinus(rs, c), px, py) <==> Covered(rs, px, py) && !Has(c, px, py)
  {
    if rs != [] {
      var few, r := rs[..|rs| - 1], rs[|rs| - 1];
      AllMinusExact(few, c);
      MinusShapes(r, c);
      MinusDisjoint(r, c);
      forall px, py ensures Covered(AllMinus(rs, c), px, py) <==> Covered(rs, px, py) && !Has(c, px, py) {
        MinusPoint(r, c, px, py);
        CoveredConcat(AllMinus(few, c), Minus(r, c), px, py);
        SplitLast(rs, px, py);
      }
      forall px, py | Covered(AllMinus(few, c), px, py) ensures !Covered(Minus(r, c), px, py) {
        MinusPoint(r, c, px, py);
        var i :| 0 <= i < |few| && Has(few[i], px, py);
        assert Has(rs[i], px, py);
      }
      DisjointConcat(AllMinus(few, c), Minus(r, c));
    }
  }

  lemma {:induction false} SplitLast(rs: seq<Rect>, px: int, py: int)
    requires rs != []
    ensures Covered(rs, px, py) <==> Covered(rs[..|rs| - 1], px, py) || Has(rs[|rs| - 1], px, py)
  {
    assert rs == rs[..|rs| - 1] + [rs[|rs| - 1]];
    CoveredConcat(rs[..|rs| - 1], [rs[|rs| - 1]], px, py);
    FewCovered([rs[|rs| - 1]], px, py);
  }

  ghost predicate AllInRange(rs: seq<Rect>) {
    forall i :: 0 <= i < |rs| ==> InRange(rs[i])
  }

  lemma {:induction false} ClippedExact(r: Rect, children: seq<Rect>)
    requires Fitting(r) && AllInRange(children)
    ensures Exact(r, children, Clipped(r, children)) && AllFitting(Clipped(r, children))
  {
    if children == [] {
      forall px, py ensures Covered([r], px, py) <==> Has(r, px, py) { FewCovered([r], px, py); }
    } else {
      var few, c := children[..|children| - 1], children[|children| - 1];
      ClippedExact(r, few);
      AllMinusExact(Clipped(r, few), c);
      forall px, py
        ensures Covered(Clipped(r, children), px, py) <==> Has(r, px, py) && !Covered(children, px, py)
      {
        SplitLast(children, px, py);
      }
    }
  }

  // A rectangle without points clips to rectangles without points.
  lemma {:induction false} EmptyStaysEmpty(r: Rect, children: seq<Rect>)
    requires InRange(r) && AllInRange(children) && (r.w == 0 || r.h == 0)
    ensures forall i :: 0 <= i < |Clipped(r, children)| ==> EmptyRect(Clipped(r, children)[i])
  {
    if children != [] {
      var few, c := children[..|children| - 1], children[|children| - 1];
      EmptyStaysEmpty(r, few);
      EmptyMinus(Clipped(r, few), c);
    }
  }

  predicate EmptyRect(r: Rect) {
    InRange(r) && (r.w == 0 || r.h == 0)
  }

  lemma {:induction false} EmptyMinus(rs: seq<Rect>, c: Rect)
    requires InRange(c) && forall i :: 0 <= i < |rs| ==> EmptyRect(rs[i])
    ensures forall i :: 0 <= i < |AllMinus(rs, c)| ==> EmptyRect(AllMinus(rs, c)[i])
  {
    if rs != [] {
      EmptyMinus(rs[..|rs| - 1], c);
      var r := rs[|rs| - 1];
      assert Beside(r, c) == [] || Apart(r, c);
      assert forall i :: 0 <= i < |Minus(r, c)| ==> EmptyRect(Minus(r, c)[i]);
    }
  }

  // A child that ends exactly at 0x8000 inside a rectangle reaching past it:
  // the strip beyond it wraps to -0x8000.
  lemma {:induction false} WrappedStrip(r: Rect) returns (c: Rect)
    requires InRange(r) && !EdgesFit(r)
    ensures InRange(c) && !Exact(r, [c], Clipped(r, [c]))
  {
    ghost var px, py;
    if r.x + r.w > 0x8000 {
      c := Rect(0x7FFF, r.y, 1, r.h);
      px, py := -0x8000, r.y;
      CoveredConcat(Top(r, c) + Bottom(r, c), Beside(r, c), px, py);
      FewCovered(Beside(r, c), px, py);
    } else {
      c := Rect(r.x, 0x7FFF, r.w, 1);
      px, py := r.x, -0x8000;
      CoveredConcat(Top(r, c) + Bottom(r, c), Beside(r, c), px, py);
      CoveredConcat(Top(r, c), Bottom(r, c), px, py);
      FewCovered(Bottom(r, c), px, py);
    }
    assert [c][..0] == [] && [r][..0] == [];
    assert AllMinus([r], c) == AllMinus([], c) + Minus(r, c) == Minus(r, c);
    assert Clipped(r, [c]) == Minus(r, c);
    assert Covered(Clipped(r, [c]), px, py) && !Has(r, px, py);
  }

  // For a given rectangle the clip is exact against every list of children
  // exactly when the rectangle's far edges fit in 16 bits.
  lemma {:induction false} ClipExactIff(r: Rect)
    requires InRange(r)
    ensures (forall children :: AllInRange(children) ==> Exact(r, children, Clipped(r, children))) <==> EdgesFit(r)
  {
    if EdgesFit(r) {
      forall children | AllInRange(children) ensures Exact(r, children, Clipped(r, children)) {
        if r.w == 0 || r.h == 0 {
          EmptyStaysEmpty(r, children);
        } else {
          ClippedExact(r, children);
        }
      }
    } else {
      var c := WrappedStrip(r);
      assert AllInRange([c]);
    }
  }

  // ---------------------------------------------------------------------
  // On a surface of a given size, where a strip in the wrong place may not show

  predicate InView(w: nat, h: nat, px: int, py: int) { 0 <= px < w && 0 <= py < h }

  ghost predicate ExactOn(w: nat, h: nat, r: Rect, children: seq<Rect>, rs: seq<Rect>) {
    forall px, py :: InView(w, h, px, py) ==>
      (Covered(rs, px, py) <==> Has(r, px, py) && !Covered(children, px, py))
  }

  // Along one axis a rectangle shows directly, or once wrapped around.
  predicate ShowsAlong(at: int, len: nat, limit: nat) {
    Max(at, 0) < Min(at + len, limit) || (0 < limit && 0x10000 < at + len)
  }

  // A strip cut off it shows where it should: it cannot wrap, or wraps from
  // beyond the surface to before it.
  predicate AxisFits(at: int, len: nat, limit: nat) {
    at + len <= 0x8000 || (at + len <= 0x10000 && limit <= 0x8000)
  }

  predicate EdgesFitOn(w: nat, h: nat, r: Rect) {
    || r.w == 0 || r.h == 0 || !ShowsAlong(r.x, r.w, w) || !ShowsAlong(r.y, r.h, h)
    || (AxisFits(r.x, r.w, w) && AxisFits(r.y, r.h, h))
  }

  ghost predicate AllFitOn(w: nat, h: nat, rs: seq<Rect>) {
    forall i :: 0 <= i < |rs| ==> InRange(rs[i]) && EdgesFitOn(w, h, rs[i])
  }

  lemma {:induction false} MinusFitsOn(w: nat, h: nat, r: Rect, c: Rect)
    requires InRange(r) && EdgesFitOn(w, h, r) && InRange(c)
    ensures AllFitOn(w, h, Minus(r, c))
  {
    hide Top, Bottom, Beside, InRange, EdgesFitOn;
    if !Apart(r, c) {
      StripsOnAbove(w, h, r, c);
      StripsOnBeside(w, h, r, c);
    }
  }

  lemma StripsOnAbove(w: nat, h: nat, r: Rect, c: Rect)
    requires InRange(r) && EdgesFitOn(w, h, r) && InRange(c) && !Apart(r, c)
    ensures AllFitOn(w, h, Top(r, c)) && AllFitOn(w, h, Bottom(r, c))
  {
  }

  lemma StripsOnBeside(w: nat, h: nat, r: Rect, c: Rect)
    requires InRange(r) && EdgesFitOn(w, h, r) && InRange(c) && !Apart(r, c)
    ensures AllFitOn(w, h, Beside(r, c))
  {
  }

  lemma {:induction false} MinusPointOn(w: nat, h: nat, r: Rect, c: Rect, px: int, py: int)
    requires InRange(r) && EdgesFitOn(w, h, r) && InRange(c) && InView(w, h, px, py)
    ensures Covered(Minus(r, c), px, py) <==> Has(r, px, py) && !Has(c, px, py)
  {
    hide Covered;
    if Apart(r, c) {
      FewCovered([r], px, py);
    } else {
      CoveredConcat(Top(r, c) + Bottom(r, c), Beside(r, c), px, py);
      CoveredConcat(Top(r, c), Bottom(r, c), px, py);
      FewCovered(Top(r, c), px, py);
      FewCovered(Bottom(r, c), px, py);
      FewCovered(Beside(r, c), px, py);
    }
  }

  lemma {:induction false} AllMinusOn(w: nat, h: nat, rs: seq<Rect>, c: Rect)
    requires AllFitOn(w, h, rs) && InRange(c)
    ensures AllFitOn(w, h, AllMinus(rs, c))
    ensures forall px, py :: InView(w, h, px, py) ==>
      (Covered(AllMinus(rs, c), px, py) <==> Covered(rs, px, py) && !Has(c, px, py))
  {
    if rs != [] {
      var few, r := rs[..|rs| - 1], rs[|rs| - 1];
      AllMinusOn(w, h, few, c);
      MinusFitsOn(w, h, r, c);
      forall px, py | InView(w, h, px, py)
        ensures Covered(AllMinus(rs, c), px, py) <==> Covered(rs, px, py) && !Has(c, px, py)
      {
        MinusPointOn(w, h, r, c, px, py);
        CoveredConcat(AllMinus(few, c), Minus(r, c), px, py);
        SplitLast(rs, px, py);
      }
      hide Minus, EdgesFitOn, Has;
    }
  }

  lemma {:induction false} ClippedOn(w: nat, h: nat, r: Rect, children: seq<Rect>)
    requires InRange(r) && EdgesFitOn(w, h, r) && AllInRange(children)
    ensures ExactOn(w, h, r, children, Clipped(r, children)) && AllFitOn(w, h, Clipped(r, children))
  {
    hide EdgesFitOn, InRange, AllMinus;
    if children == [] {
      forall px, py ensures Covered([r], px, py) <==> Has(r, px, py) { FewCovered([r], px, py); }
    } else {
      var few, c := children[..|children| - 1], children[|children| - 1];
      ClippedOn(w, h, r, few);
      AllMinusOn(w, h, Clipped(r, few), c);
      forall px, py | InView(w, h, px, py)
        ensures Covered(Clipped(r, children), px, py) <==> Has(r, px, py) && !Covered(children, px, py)
      {
        SplitLast(children, px, py);
      }
    }
  }

  lemma {:induction false} ClippedOne(r: Rect, c: Rect)
    ensures Clipped(r, [c]) == Minus(r, c)
  {
    hide Minus;
    assert [c][..0] == [] && [r][..0] == [];
    assert AllMinus([r], c) == AllMinus([], c) + Minus(r, c);
  }

  // A child whose right edge is at 0x8000, at full height: the strip right of
  // it is lost, and shows up where it wraps to.
  lemma {:induction false} WrappedRight(w: nat, h: nat, r: Rect, py: int) returns (c: Rect, px: int)
    requires InRange(r) && 0 <= py < h && r.y <= py < r.y + r.h && 0 < w && !AxisFits(r.x, r.w, w)
    ensures InRange(c) && InView(w, h, px, py)
    ensures Covered(Minus(r, c), px, py) <==> !(Has(r, px, py) && !Has(c, px, py))
  {
    c := Rect(0x7FFF, r.y, 1, r.h);
    px := if 0x10000 < r.x + r.w then 0 else 0x8000;
    CoveredConcat(Top(r, c) + Bottom(r, c), Beside(r, c), px, py);
    assert Top(r, c) == [] && Bottom(r, c) == [];
    FewCovered(Beside(r, c), px, py);
    FewCovered([], px, py);
  }

  lemma {:induction false} WrappedBelow(w: nat, h: nat, r: Rect, px: int) returns (c: Rect, py: int)
    requires InRange(r) && 0 <= px < w && r.x <= px < r.x + r.w && 0 < h && !AxisFits(r.y, r.h, h)
    ensures InRange(c) && InView(w, h, px, py)
    ensures Covered(Minus(r, c), px, py) <==> !(Has(r, px, py) && !Has(c, px, py))
  {
    c := Rect(r.x, 0x7FFF, r.w, 1);
    py := if 0x10000 < r.y + r.h then 0 else 0x8000;
    CoveredConcat(Top(r, c) + Bottom(r, c), Beside(r, c), px, py);
    CoveredConcat(Top(r, c), Bottom(r, c), px, py);
    assert Beside(r, c) == [];
    FewCovered(Top(r, c), px, py);
    FewCovered(Bottom(r, c), px, py);
    FewCovered([], px, py);
  }

  // Off to the lower right of the surface, but far enough to wrap both ways.
  lemma {:induction false} WrappedTwice(r: Rect) returns (children: seq<Rect>)
    requires InRange(r) && 0x10000 < r.x + r.w && 0x10000 < r.y + r.h
    ensures AllInRange(children) && Covered(Clipped(r, children), 0, 0) && !Has(r, 0, 0)
  {
    var c1 := Rect(0x7FFF, r.y, 1, r.h);
    var right := Rect(-0x8000, r.y, r.x + r.w - 0x8000, r.h);
    var c2 := Rect(-0x8000, 0x7FFF, right.w, 1);
    children := [c1, c2];
    assert children[..1] == [c1];
    ClippedOne(r, c1);
    assert right in Minus(r, c1) by {
      assert Beside(r, c1)[|Beside(r, c1)| - 1] == right;
    }
    assert Bottom(right, c2) == [Rect(-0x8000, -0x8000, right.w, r.y + r.h - 0x8000)];
    CoveredConcat(Top(right, c2) + Bottom(right, c2), Beside(right, c2), 0, 0);
    CoveredConcat(Top(right, c2), Bottom(right, c2), 0, 0);
    FewCovered(Bottom(right, c2), 0, 0);
    assert Covered(Minus(right, c2), 0, 0);
    hide Minus;
    OneOfAll(Minus(r, c1), right, c2, 0, 0);
  }

  lemma {:induction false} OneOfAll(rs: seq<Rect>, r: Rect, c: Rect, px: int, py: int)
    requires r in rs && Covered(Minus(r, c), px, py)
    ensures Covered(AllMinus(rs, c), px, py)
  {
    hide Minus;
    var few, last := rs[..|rs| - 1], rs[|rs| - 1];
    CoveredConcat(AllMinus(few, c), Minus(last, c), px, py);
    if last != r {
      assert rs == few + [last];
      OneOfAll(few, r, c, px, py);
    }
  }

  // On a surface of a given size the clip shows as exact against every list of
  // children exactly when the rectangle is not seen at all, or neither of its
  // far edges is beyond 0x8000 and seen, or beyond 0x10000.
  lemma {:induction false} ClipExactOn(w: nat, h: nat, r: Rect)
    requires InRange(r)
    ensures (forall children :: AllInRange(children) ==> ExactOn(w, h, r, children, Clipped(r, children))) <==>
            EdgesFitOn(w, h, r)
  {
    if EdgesFitOn(w, h, r) {
      forall children | AllInRange(children) ensures ExactOn(w, h, r, children, Clipped(r, children)) {
        ClippedOn(w, h, r, children);
      }
    } else {
      var children := Exposed(w, h, r);
    }
  }

  lemma {:induction false} Exposed(w: nat, h: nat, r: Rect) returns (children: seq<Rect>)
    requires InRange(r) && !EdgesFitOn(w, h, r)
    ensures AllInRange(children) && !ExactOn(w, h, r, children, Clipped(r, children))
  {
    var x, y := Max(r.x, 0), Max(r.y, 0);
    if y < Min(r.y + r.h, h) && !AxisFits(r.x, r.w, w) {
      var c, px := WrappedRight(w, h, r, y);
      children := [c];
      ClippedOne(r, c);
      FewCovered([c], px, y);
      assert InView(w, h, px, y);
    } else if x < Min(r.x + r.w, w) && !AxisFits(r.y, r.h, h) {
      var c, py := WrappedBelow(w, h, r, x);
      children := [c];
      ClippedOne(r, c);
      FewCovered([c], x, py);
      assert InView(w, h, x, py);
    } else {
      children := WrappedTwice(r);
      assert InView(w, h, 0, 0);
    }
    hide Clipped, Minus;
  }
}
