// Dropping all but the last full-window PutImage of a batch.
module Coalesce {
  import opened Basics
  import opened Pixels
  import opened Drawing

  // A PutImage at the origin at least as large as the window.
  predicate IsFull(f: Size, c: Command) {
    c.PutImage? && c.x == 0 && c.y == 0 && f.width <= c.w && f.height <= c.h
  }

  predicate NoneFull(f: Size, cs: seq<Command>) {
    forall i :: 0 <= i < |cs| ==> !IsFull(f, cs[i])
  }

  function WithoutFull(f: Size, cs: seq<Command>): seq<Command> {
    if cs == [] then []
    else if IsFull(f, cs[|cs| - 1]) then WithoutFull(f, cs[..|cs| - 1])
    else WithoutFull(f, cs[..|cs| - 1]) + [cs[|cs| - 1]]
  }

  function LastFull(f: Size, cs: seq<Command>): (i: Option<nat>)
    ensures i.Some? ==> i.value < |cs| && IsFull(f, cs[i.value]) && NoneFull(f, cs[i.value + 1..])
    ensures i.None? ==> NoneFull(f, cs)
  {
    if cs == [] then None
    else if IsFull(f, cs[|cs| - 1]) then Some(|cs| - 1)
    else
      var i := LastFull(f, cs[..|cs| - 1]);
      assert i.Some? ==> cs[i.value + 1..] == cs[..|cs| - 1][i.value + 1..] + [cs[|cs| - 1]];
      assert i.None? ==> cs == cs[..|cs| - 1] + [cs[|cs| - 1]];
      i
  }

  // The batch that is rendered: only the last full image is kept.
  function Coalesced(f: Size, cs: seq<Command>): seq<Command> {
    if |cs| < 2 then cs
    else
      match LastFull(f, cs)
      case None => cs
      case Some(i) => WithoutFull(f, cs[..i]) + cs[i..]
  }

  // coalesce_putimage: find the last full image, then filter the others out.
  method CoalescePutImage(f: Size, cs: seq<Command>) returns (r: seq<Command>)
    ensures r == Coalesced(f, cs)
  {
    if |cs| < 2 {
      return cs;
    }
    var last: Option<nat> := None;
    for i := 0 to |cs|
      invariant last == LastFull(f, cs[..i])
    {
      assert cs[..i + 1][..i] == cs[..i];
      if IsFull(f, cs[i]) {
        last := Some(i);
      }
    }
    assert cs[..|cs|] == cs;
    if last.None? {
      return cs;
    }
    var at := last.value;
    r := [];
    for i := 0 to |cs|
      invariant i <= at ==> r == WithoutFull(f, cs[..i])
      invariant at < i ==> r == WithoutFull(f, cs[..at]) + cs[at..i]
    {
      assert cs[..i + 1][..i] == cs[..i];
      if i == at || !IsFull(f, cs[i]) {
        assert at <= i ==> cs[at..i + 1] == cs[at..i] + [cs[i]];
        r := r + [cs[i]];
      }
    }
    assert cs[at..|cs|] == cs[at..];
  }

  // An image at the origin at least as large as the window.
  predicate Covered(f: Size, c: Command) {
    match c
    case PutImage(x, y, w, h, _, _, _, _) => x == 0 && y == 0 && w >= f.width && h >= f.height
    case _ => false
  }

  // One with another one later in the batch.
  ghost predicate Superseded(f: Size, cs: seq<Command>, i: nat) {
    i < |cs| && Covered(f, cs[i]) && exists j :: i < j < |cs| && Covered(f, cs[j])
  }

  // What is left of a batch, by the places it comes from.
  ghost predicate Picks(cs: seq<Command>, rest: seq<Command>, from: seq<nat>) {
    && |from| == |rest| && (forall k :: 0 <= k < |from| ==> from[k] < |cs| && rest[k] == cs[from[k]])
    && forall k, l :: 0 <= k < l < |from| ==> from[k] < from[l]
  }

  // Just the superseded images are left out; the others stay in order.
  lemma {:induction false} CoalescedExactly(f: Size, cs: seq<Command>) returns (from: seq<nat>)
    ensures Picks(cs, Coalesced(f, cs), from)
    ensures forall i :: 0 <= i < |cs| ==> (i in from <==> !Superseded(f, cs, i))
  {
    var last := LastFull(f, cs);
    if |cs| < 2 || last.None? {
      from := AllPicked(cs);
      forall i | 0 <= i < |cs| ensures !Superseded(f, cs, i) {}
      hide IsFull, LastFull, WithoutFull, Superseded, Picks;
    } else {
      var n := last.value;
      hide IsFull, LastFull, WithoutFull, Superseded, Picks;
      var early := WithoutFullFrom(f, cs[..n]);
      from := LatePicked(cs, WithoutFull(f, cs[..n]), early, n);
      forall i | 0 <= i < |cs| ensures i in from <==> !Superseded(f, cs, i) {
        SupersededBefore(f, cs, n, i);
        if i < n { assert cs[..n][i] == cs[i]; }
      }
    }
  }

  lemma AllPicked(cs: seq<Command>) returns (from: seq<nat>)
    ensures Picks(cs, cs, from) && forall i :: 0 <= i < |cs| ==> i in from
  {
    from := seq(|cs|, i => i);
    forall i | 0 <= i < |cs| ensures i in from { assert from[i] == i; }
  }

  // What is picked from the first n commands, and all later ones.
  lemma {:induction false} LatePicked(cs: seq<Command>, rest: seq<Command>, early: seq<nat>, n: nat)
    returns (from: seq<nat>)
    requires n < |cs| && Picks(cs[..n], rest, early)
    ensures Picks(cs, rest + cs[n..], from)
    ensures forall i :: 0 <= i < |cs| ==> (i in from <==> n <= i || i in early)
  {
    from := early + seq(|cs| - n, i => n + i);
    forall i | n <= i < |cs| ensures i in from { assert from[|early| + (i - n)] == i; }
    forall i | 0 <= i < n && i in early ensures i in from {
      var k :| 0 <= k < |early| && early[k] == i;
      assert from[k] == i;
    }
  }

  lemma SupersededBefore(f: Size, cs: seq<Command>, n: nat, i: nat)
    requires n < |cs| && IsFull(f, cs[n]) && NoneFull(f, cs[n + 1..]) && i < |cs|
    ensures Superseded(f, cs, i) <==> i < n && IsFull(f, cs[i])
  {
    forall j | n < j < |cs| ensures !Covered(f, cs[j]) {
      assert cs[n + 1..][j - n - 1] == cs[j];
    }
  }

  lemma {:induction false} WithoutFullFrom(f: Size, cs: seq<Command>) returns (from: seq<nat>)
    ensures Picks(cs, WithoutFull(f, cs), from)
    ensures forall i :: 0 <= i < |cs| ==> (i in from <==> !IsFull(f, cs[i]))
  {
    hide IsFull;
    from := [];
    if cs != [] {
      var n := |cs| - 1;
      from := WithoutFullFrom(f, cs[..n]);
      assert n !in from;
      if !IsFull(f, cs[n]) { from := from + [n]; }
    }
  }

  // ---------------------------------------------------------------------
  // When the kept image covers the window

  // Every visible pixel gets a data word, and the raster operation ignores
  // what was there.
  predicate Covers(f: Size, c: Command)
    requires IsFull(f, c)
  {
    || f.width == 0 || f.height == 0
    || (&& c.format == 2 && c.depth in {24, 32}
        && (f.height - 1) * c.w + f.width <= |c.data|
        && forall y, x :: 0 <= y < f.height && 0 <= x < f.width ==> Overwrites(c.gc, Word(c, x, y)))
  }

  function Word(c: Command, x: nat, y: nat): Pixel
    requires c.PutImage?
  {
    var i: nat := y * c.w + x;
    if i < |c.data| then c.data[i] else 0
  }

  lemma {:induction false} RowStart(y: nat, h: nat, w: nat)
    requires y < h
    ensures y * w <= (h - 1) * w
  {
    if y < h - 1 { NextMultiple(y, h - 1, w); }
  }

  lemma {:induction false} CoveredWord(f: Size, c: Command, x: int, y: int)
    requires IsFull(f, c) && Covers(f, c) && f.Visible(x, y)
    ensures ImageWord(f, c, x, y) == Some(Word(c, x, y)) && Overwrites(c.gc, Word(c, x, y))
  {
    RowStart(y, f.height, c.w);
  }

  // A covering image makes two pictures with the same padding equal.
  lemma {:induction false} CoverErases(f: Size, c: Command, a: Picture, b: Picture)
    requires f.Valid() && Fits(f, a) && Fits(f, b) && SamePadding(f, a, b)
    requires IsFull(f, c) && Covers(f, c)
    ensures Render(f, c, a) == Render(f, c, b)
  {
    forall x, y | f.Stored(x, y) ensures Render(f, c, a)[y][x] == Render(f, c, b)[y][x] {
      if f.Visible(x, y) {
        CoveredWord(f, c, x, y);
        OverwritesIgnoresOld(c.gc, Word(c, x, y), a[y][x], b[y][x]);
      }
    }
    SamePicture(f, Render(f, c, a), Render(f, c, b));
  }

  // Rendering the coalesced batch gives the picture of the whole batch.
  ghost predicate SameRendering(f: Size, cs: seq<Command>, pic: Picture)
    requires f.Valid() && Fits(f, pic)
  {
    RenderAll(f, Coalesced(f, cs), pic) == RenderAll(f, cs, pic)
  }

  // Sound on every batch whose last full image covers the window: whatever
  // mix of commands surrounds it, no pixel changes.
  lemma {:induction false} CoalesceSound(f: Size, cs: seq<Command>, pic: Picture)
    requires f.Valid() && Fits(f, pic)
    requires LastFull(f, cs).Some? ==> Covers(f, cs[LastFull(f, cs).value])
    ensures SameRendering(f, cs, pic)
  {
    if |cs| >= 2 && LastFull(f, cs).Some? {
      var i := LastFull(f, cs).value;
      var pre, kept, post := cs[..i], cs[i], cs[i + 1..];
      assert cs[i..] == [kept] + post && cs == pre + cs[i..];
      var few := WithoutFull(f, pre);
      PaddingKept(f, pre, pic);
      PaddingKept(f, few, pic);
      CoverErases(f, kept, RenderAll(f, pre, pic), RenderAll(f, few, pic));
      RenderAllConcat(f, pre, cs[i..], pic);
      RenderAllConcat(f, few, cs[i..], pic);
      AfterFirst(f, kept, post, RenderAll(f, pre, pic));
      AfterFirst(f, kept, post, RenderAll(f, few, pic));
    }
  }

  lemma AfterFirst(f: Size, c: Command, post: seq<Command>, pic: Picture)
    requires f.Valid() && Fits(f, pic)
    ensures RenderAll(f, [c] + post, pic) == RenderAll(f, post, Render(f, c, pic))
  {
    assert ([c] + post)[1..] == post;
  }

  // For a given kept image, coalescing is invisible in every batch on every
  // picture exactly when the image covers the window. The source tests only
  // position and size.
  lemma {:induction false} CoalesceExact(f: Size, kept: Command)
    requires f.Valid() && IsFull(f, kept)
    ensures (forall pre, post, pic: Picture :: Fits(f, pic) && NoneFull(f, post) ==>
              SameRendering(f, pre + [kept] + post, pic))
            <==> Covers(f, kept)
  {
    if Covers(f, kept) {
      forall pre, post, pic: Picture | Fits(f, pic) && NoneFull(f, post)
        ensures SameRendering(f, pre + [kept] + post, pic)
      {
        LastFullAt(f, pre, kept, post);
        CoalesceSound(f, pre + [kept] + post, pic);
      }
    } else {
      var pic := Solid(f, ALPHA);
      var pre := [WhiteImage(f)];
      UncoveredPixel(f, kept);
      assert !SameRendering(f, pre + [kept] + [], pic);
    }
  }

  lemma {:induction false} LastFullAt(f: Size, pre: seq<Command>, kept: Command, post: seq<Command>)
    requires IsFull(f, kept) && NoneFull(f, post)
    ensures LastFull(f, pre + [kept] + post) == Some(|pre|)
  {
    var cs := pre + [kept] + post;
    if post == [] {
      assert cs[|cs| - 1] == kept;
    } else {
      var butLast := post[..|post| - 1];
      assert cs[..|cs| - 1] == pre + [kept] + butLast;
      assert cs[|cs| - 1] == post[|post| - 1];
      LastFullAt(f, pre, kept, butLast);
    }
  }

  ghost function Solid(f: Size, p: Pixel): (pic: Picture)
    ensures Fits(f, pic)
  {
    seq(f.height, y => seq(f.stride, x => p))
  }

  function WhiteImage(f: Size): Command {
    PutImage(0, 0, f.width, f.height, 24, 2, seq(f.height * f.width, i => ALL_PLANES), GX_COPY)
  }

  lemma {:induction false} WhiteCovers(f: Size)
    ensures IsFull(f, WhiteImage(f)) && Covers(f, WhiteImage(f))
    ensures forall x, y :: f.Visible(x, y) ==> Word(WhiteImage(f), x, y) == ALL_PLANES
  {
    if f.height != 0 {
      assert (f.height - 1) * f.width + f.width == f.height * f.width;
    }
    forall x, y | f.Visible(x, y) ensures Word(WhiteImage(f), x, y) == ALL_PLANES {
      RowStart(y, f.height, f.width);
    }
  }

  // Some visible pixel shows, after a non-covering image, what was there
  // before it.
  lemma {:induction false} UncoveredPixel(f: Size, kept: Command)
    requires f.Valid() && IsFull(f, kept) && !Covers(f, kept)
    ensures !SameRendering(f, [WhiteImage(f)] + [kept] + [], Solid(f, ALPHA))
  {
    var white, pic := WhiteImage(f), Solid(f, ALPHA);
    var cs := [white] + [kept] + [];
    WhiteCovers(f);
    LastFullAt(f, [white], kept, []);
    assert cs[..1] == [white] && cs[1..] == [kept] && [white][..0] == [];
    assert WithoutFull(f, [white]) == [];
    assert Coalesced(f, cs) == [kept];
    var under := Render(f, white, pic);
    AfterFirst(f, white, [kept], pic);
    AfterFirst(f, kept, [], under);
    AfterFirst(f, kept, [], pic);
    assert cs == [white] + [kept] && [kept] + [] == [kept];
    var x, y := UncoveredAt(f, kept);
    CoveredWord(f, white, x, y);
    assert under[y][x] == ALL_PLANES;
    assert pic[y][x] == ALPHA;
    if ImageWord(f, kept, x, y).Some? {
      NotOverwritingShows(kept.gc, ImageWord(f, kept, x, y).value);
    }
    assert Render(f, kept, under)[y][x] != Render(f, kept, pic)[y][x];
  }

  lemma {:induction false} UncoveredAt(f: Size, kept: Command) returns (x: nat, y: nat)
    requires f.Valid() && IsFull(f, kept) && !Covers(f, kept)
    ensures f.Visible(x, y)
    ensures var s := ImageWord(f, kept, x, y); s.None? || !Overwrites(kept.gc, s.value)
  {
    x, y := f.width - 1, f.height - 1;
    if kept.format == 2 && kept.depth in {24, 32} && (f.height - 1) * kept.w + f.width <= |kept.data| {
      var y', x' :| 0 <= y' < f.height && 0 <= x' < f.width && !Overwrites(kept.gc, Word(kept, x', y'));
      RowStart(y', f.height, kept.w);
      x, y := x', y';
    }
  }
}
