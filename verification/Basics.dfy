// Datatypes and sequence helpers shared by the components.
module Basics {
  datatype Option<+T> = None | Some(value: T)

  datatype Point = Point(x: int, y: int)

  function Max(a: int, b: int): int { if a < b then b else a }

  function Min(a: int, b: int): int { if a < b then a else b }

  function Abs(a: int): nat { if a < 0 then -a else a }

  lemma {:induction false} NextMultiple(i: nat, j: nat, c: nat)
    requires i < j
    ensures i * c + c <= j * c
  {
    assert j * c == (j - 1) * c + c;
    if i < j - 1 { NextMultiple(i, j - 1, c); }
  }

  // The value of an integer truncated to a signed 16-bit field.
  function I16(v: int): (r: int)
    ensures -0x8000 <= r < 0x8000
    ensures -0x8000 <= v < 0x8000 ==> r == v
    ensures (r - v) % 0x10000 == 0
  {
    (v + 0x8000) % 0x10000 - 0x8000
  }

  ghost predicate NoDup<T>(s: seq<T>) {
    forall i, j :: 0 <= i < j < |s| ==> s[i] != s[j]
  }

  lemma ConcatAssoc<T>(a: seq<T>, b: seq<T>, c: seq<T>)
    ensures a + b + c == a + (b + c)
  {
  }

  lemma NoDupConcat<T>(a: seq<T>, b: seq<T>)
    requires NoDup(a) && NoDup(b)
    requires forall x :: x in a ==> x !in b
    ensures NoDup(a + b)
  {
    forall i, j | 0 <= i < j < |a + b| ensures (a + b)[i] != (a + b)[j] {
      if i < |a| <= j { assert a[i] in a && b[j - |a|] in b; }
    }
  }

  // `retain`: the elements of s outside `drop`, in order.
  function Keep<T(==,!new)>(s: seq<T>, drop: set<T>): (r: seq<T>)
    ensures forall x :: x in r <==> x in s && x !in drop
    ensures (forall x :: x in s ==> x !in drop) ==> r == s
    ensures |r| <= |s|
  {
    if s == [] then []
    else if s[0] in drop then Keep(s[1..], drop)
    else
      assert s == [s[0]] + s[1..];
      [s[0]] + Keep(s[1..], drop)
  }

  lemma {:induction false} KeepNoDup<T(!new)>(s: seq<T>, drop: set<T>)
    requires NoDup(s)
    ensures NoDup(Keep(s, drop))
  {
    if s != [] {
      KeepNoDup(s[1..], drop);
      assert s[0] !in s[1..];
    }
  }

  lemma {:induction false} KeepTwice<T(!new)>(s: seq<T>, a: set<T>, b: set<T>)
    ensures Keep(Keep(s, a), b) == Keep(s, a + b)
  {
    if s != [] {
      KeepTwice(s[1..], a, b);
      if s[0] !in a {
        assert Keep(s, a) == [s[0]] + Keep(s[1..], a);
        assert Keep(s, a)[1..] == Keep(s[1..], a);
      }
    }
  }

  lemma {:induction false} KeepSame<T(!new)>(s: seq<T>, a: set<T>, b: set<T>)
    requires forall x :: x in s ==> (x in a <==> x in b)
    ensures Keep(s, a) == Keep(s, b)
  {
    if s != [] { KeepSame(s[1..], a, b); }
  }

  // Element by element, in order.
  lemma {:induction false} KeepSnoc<T(!new)>(s: seq<T>, x: T, drop: set<T>)
    ensures Keep(s + [x], drop) == Keep(s, drop) + if x in drop then [] else [x]
  {
    if s == [] {
      assert [] + [x] == [x] && [x][1..] == [];
      assert Keep([x][1..], drop) == [];
    } else {
      assert (s + [x])[1..] == s[1..] + [x];
      KeepSnoc(s[1..], x, drop);
    }
  }

  lemma {:induction false} KeepLast<T(!new)>(s: seq<T>, x: T)
    requires x !in s
    ensures Keep(s + [x], {x}) == s
  {
    KeepSnoc(s, x, {x});
  }
}
