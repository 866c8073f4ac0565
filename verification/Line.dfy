// The points of a DrawLine command: Bresenham's loop against the rounded
// ideal line.
module Line {
  import opened Basics

  // A line is its start, the two axis distances and the two directions.
  function Dir(from: int, to: int): int { if from < to then 1 else -1 }

  function Steps(p: Point, q: Point): nat {
    Max(Abs(q.x - p.x), Abs(q.y - p.y))
  }

  // k * minor / major rounded to the nearest integer, halves up.
  function Rounded(k: nat, minor: nat, major: nat): nat
    requires minor <= major
  {
    if major == 0 then 0 else (2 * (k * minor) + major) / (2 * major)
  }

  // The k-th point: k steps along the longer axis, the rounded share of them
  // along the shorter one.
  function LinePoint(p: Point, q: Point, k: nat): Point {
    var a, b := Abs(q.x - p.x), Abs(q.y - p.y);
    if b <= a then Point(p.x + Dir(p.x, q.x) * k, p.y + Dir(p.y, q.y) * Rounded(k, b, a))
    else Point(p.x + Dir(p.x, q.x) * Rounded(k, a, b), p.y + Dir(p.y, q.y) * k)
  }

  // z is one of the first k points.
  ghost predicate Among(p: Point, q: Point, k: nat, z: Point) {
    exists j: nat :: j < k && LinePoint(p, q, j) == z
  }

  ghost predicate OnLine(p: Point, q: Point, z: Point) {
    Among(p, q, Steps(p, q) + 1, z)
  }

  // The rounding error stays within half a step; this fixes the rounding.
  lemma RoundedError(k: nat, minor: nat, major: nat)
    requires minor <= major && 0 < major
    ensures 0 < 2 * (Rounded(k, minor, major) * major) - 2 * (k * minor) + major <= 2 * major
  {
    var n := 2 * (k * minor) + major;
    var j := n / (2 * major);
    assert n == j * (2 * major) + n % (2 * major);
    assert j * (2 * major) == 2 * (j * major);
  }

  lemma {:induction false} MultipleMono(k: nat, i: nat, j: nat)
    requires i <= j
    ensures k * i <= k * j
  {
    assert k * j == k * i + k * (j - i);
  }

  lemma {:induction false} RoundedUnique(k: nat, minor: nat, major: nat, j: nat)
    requires minor <= major && 0 < major
    requires 0 < 2 * (j * major) - 2 * (k * minor) + major <= 2 * major
    ensures j == Rounded(k, minor, major)
  {
    RoundedError(k, minor, major);
    var i := Rounded(k, minor, major);
    if i < j { NextMultiple(i, j, major); }
    if j < i { NextMultiple(j, i, major); }
  }

  lemma RoundedEnds(minor: nat, major: nat)
    requires minor <= major
    ensures Rounded(0, minor, major) == 0
    ensures Rounded(major, minor, major) == minor
  {
    if 0 < major {
      RoundedUnique(0, minor, major, 0);
      assert minor * major == major * minor;
      RoundedUnique(major, minor, major, minor);
    }
  }

  // The loop's error term after k points, for a line at most as steep as it
  // is long (the other half is the same with the axes exchanged).
  function ErrorTerm(k: nat, minor: nat, major: nat): int
    requires minor <= major
  {
    (Rounded(k, minor, major) + 1) * major - (k + 1) * minor
  }

  // One round of the loop moves along the longer axis and carries along the
  // shorter one exactly when the rounded share grows.
  lemma {:induction false} LongStep(k: nat, minor: nat, major: nat)
    requires minor <= major && 0 < major
    ensures var err := ErrorTerm(k, minor, major);
      var j := Rounded(k, minor, major);
      && 2 * err + minor >= 0
      && Rounded(k + 1, minor, major) == (if 2 * err <= major then j + 1 else j)
      && ErrorTerm(k + 1, minor, major) == err - minor + (if 2 * err <= major then major else 0)
  {
    var j := Rounded(k, minor, major);
    var err := ErrorTerm(k, minor, major);
    RoundedError(k, minor, major);
    assert (j + 1) * major == j * major + major;
    assert (k + 1) * minor == k * minor + minor;
    var j' := if 2 * err <= major then j + 1 else j;
    RoundedUnique(k + 1, minor, major, j');
    assert (j' + 1) * major == j' * major + major;
    assert (k + 1 + 1) * minor == (k + 1) * minor + minor;
  }

  // The loop variables after k rounds.
  ghost predicate LoopState(p: Point, q: Point, k: nat, x: int, y: int, err: int) {
    var a, b := Abs(q.x - p.x), Abs(q.y - p.y);
    && Point(x, y) == LinePoint(p, q, k)
    && (if b <= a then err == ErrorTerm(k, b, a) else err == -ErrorTerm(k, a, b))
  }

  lemma {:induction false} LoopStart(p: Point, q: Point)
    ensures LoopState(p, q, 0, p.x, p.y, Abs(q.x - p.x) - Abs(q.y - p.y))
    ensures LinePoint(p, q, 0) == p
  {
    var a, b := Abs(q.x - p.x), Abs(q.y - p.y);
    if b <= a { RoundedEnds(b, a); } else { RoundedEnds(a, b); }
  }

  lemma {:induction false} LoopStep(p: Point, q: Point, k: nat, x: int, y: int, err: int)
    requires LoopState(p, q, k, x, y, err) && k < Steps(p, q)
    ensures var dx, dy := Abs(q.x - p.x), 0 - Abs(q.y - p.y);
      var stepX, stepY := 2 * err >= dy, 2 * err <= dx;
      var x', y' := if stepX then x + Dir(p.x, q.x) else x, if stepY then y + Dir(p.y, q.y) else y;
      && LoopState(p, q, k + 1, x', y', err + (if stepX then dy else 0) + (if stepY then dx else 0))
      && LinePoint(p, q, k + 1) == Point(x', y')
  {
    var a, b := Abs(q.x - p.x), Abs(q.y - p.y);
    if b <= a { LongStep(k, b, a); } else { LongStep(k, a, b); }
  }

  // The loop's exit test succeeds at the last point and at no earlier one.
  lemma {:induction false} LoopExit(p: Point, q: Point, k: nat)
    requires k <= Steps(p, q)
    ensures LinePoint(p, q, k) == q <==> k == Steps(p, q)
  {
    var a, b := Abs(q.x - p.x), Abs(q.y - p.y);
    if b <= a { RoundedEnds(b, a); } else { RoundedEnds(a, b); }
  }

  // No point is visited twice.
  lemma {:induction false} PointsDistinct(p: Point, q: Point, j: nat, k: nat)
    requires LinePoint(p, q, j) == LinePoint(p, q, k)
    ensures j == k
  {
  }

  // A line runs from one endpoint to the other, one unit along the longer
  // axis at a time, never more than half a pixel off the ideal line.
  lemma {:induction false} LineIsIdeal(p: Point, q: Point, k: nat)
    requires k <= Steps(p, q)
    ensures LinePoint(p, q, 0) == p && LinePoint(p, q, Steps(p, q)) == q
    ensures var z := LinePoint(p, q, k);
      2 * Abs((z.y - p.y) * (q.x - p.x) - (z.x - p.x) * (q.y - p.y)) <= Steps(p, q)
    ensures var z := LinePoint(p, q, k);
      Max(Abs(z.x - p.x), Abs(z.y - p.y)) == k
  {
    LoopExit(p, q, Steps(p, q));
    LoopStart(p, q);
    OnIdeal(p, q, k);
  }

  lemma {:induction false} OnIdeal(p: Point, q: Point, k: nat)
    requires k <= Steps(p, q)
    ensures var z := LinePoint(p, q, k);
      && 2 * Abs((z.y - p.y) * (q.x - p.x) - (z.x - p.x) * (q.y - p.y)) <= Steps(p, q)
      && Max(Abs(z.x - p.x), Abs(z.y - p.y)) == k
  {
    var a, b := Abs(q.x - p.x), Abs(q.y - p.y);
    var s, t := Dir(p.x, q.x), Dir(p.y, q.y);
    assert q.x - p.x == s * a && q.y - p.y == t * b;
    if b <= a { IdealLong(k, b, a, s, t); } else { IdealLong(k, a, b, t, s); }
    hide Rounded;
  }

  lemma {:induction false} RoundedBelow(k: nat, minor: nat, major: nat)
    requires minor <= major
    ensures Rounded(k, minor, major) <= k
  {
    var j := Rounded(k, minor, major);
    if k < j {
      RoundedError(k, minor, major);
      NextMultiple(k, j, major);
      MultipleMono(k, minor, major);
    }
  }

  lemma {:induction false} RoundedWithin(k: nat, minor: nat, major: nat)
    requires minor <= major && k <= major
    ensures Rounded(k, minor, major) <= minor
  {
    var j := Rounded(k, minor, major);
    if minor < j {
      RoundedError(k, minor, major);
      NextMultiple(minor, j, major);
      MultipleMono(minor, k, major);
    }
  }

  // A line stays in the box of its endpoints.
  lemma {:induction false} LineInBox(p: Point, q: Point, k: nat)
    requires k <= Steps(p, q)
    ensures var z := LinePoint(p, q, k);
      Min(p.x, q.x) <= z.x <= Max(p.x, q.x) && Min(p.y, q.y) <= z.y <= Max(p.y, q.y)
  {
    var a, b := Abs(q.x - p.x), Abs(q.y - p.y);
    if b <= a { RoundedWithin(k, b, a); } else { RoundedWithin(k, a, b); }
    hide Rounded;
  }

  lemma {:induction false} IdealLong(k: nat, minor: nat, major: nat, s: int, t: int)
    requires minor <= major && k <= major && s in {1, -1} && t in {1, -1}
    ensures var j := Rounded(k, minor, major);
      && 2 * Abs((t * j) * (s * major) - (s * k) * (t * minor)) <= major
      && j <= k
  {
    CrossProduct(s, t, Rounded(k, minor, major), major, k, minor);
    RoundedBelow(k, minor, major);
    if 0 < major { RoundedError(k, minor, major); }
  }

  lemma CrossProduct(s: int, t: int, j: nat, major: nat, k: nat, minor: nat)
    requires s in {1, -1} && t in {1, -1}
    ensures Abs((t * j) * (s * major) - (s * k) * (t * minor)) == Abs(j * major - k * minor)
  {
    if s == 1 && t == 1 {
    } else if s == 1 {
      assert (t * j) * (s * major) == -(j * major) && (s * k) * (t * minor) == -(k * minor);
    } else if t == 1 {
      assert (t * j) * (s * major) == -(j * major) && (s * k) * (t * minor) == -(k * minor);
    } else {
      assert (t * j) * (s * major) == j * major && (s * k) * (t * minor) == k * minor;
    }
  }
}
