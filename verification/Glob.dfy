// Font-name patterns: the two-index backtracking matcher and the wildcard
// relation it decides.
module Glob {
  import opened Basics

  // '*' stands for any characters, '?' for any one, the rest for themselves.
  ghost predicate Wild(p: string, t: string)
    decreases |p| + |t|
  {
    if p == "" then t == ""
    else if p[0] == '*' then Wild(p[1..], t) || (t != "" && Wild(p, t[1..]))
    else t != "" && (p[0] == '?' || p[0] == t[0]) && Wild(p[1..], t[1..])
  }

  // Where the last star was met: its index and the text position it is
  // currently tried from.
  datatype Star = Star(at: nat, from: nat)

  ghost predicate ScanState(p: string, t: string, pi: nat, ti: nat, star: Option<Star>) {
    && pi <= |p| && ti <= |t|
    && (star.Some? ==> star.value.at < pi && star.value.from <= ti && p[star.value.at] == '*')
  }

  function Tried(star: Option<Star>): nat {
    match star case None => 0 case Some(s) => s.at + 1
  }

  function From(star: Option<Star>): nat {
    match star case None => 0 case Some(s) => s.from
  }

  // What the matcher answers from a given point of its scan. A literal match
  // is tried before the star, also when the text character is itself '*'.
  ghost predicate Scan(p: string, t: string, pi: nat, ti: nat, star: Option<Star>)
    requires ScanState(p, t, pi, ti, star)
    decreases |p| - Tried(star), |t| - From(star), |t| - ti
  {
    if ti == |t| then AllStars(p[pi..])
    else if pi < |p| && (p[pi] == '?' || p[pi] == t[ti]) then Scan(p, t, pi + 1, ti + 1, star)
    else if pi < |p| && p[pi] == '*' then Scan(p, t, pi + 1, ti, Some(Star(pi, ti)))
    else if star.Some? then
      Scan(p, t, star.value.at + 1, star.value.from + 1, Some(Star(star.value.at, star.value.from + 1)))
    else false
  }

  ghost predicate AllStars(p: string) {
    forall i :: 0 <= i < |p| ==> p[i] == '*'
  }

  ghost predicate Matches(p: string, t: string) {
    Scan(p, t, 0, 0, None)
  }

  // x11_font_pattern_match
  method FontPatternMatch(pattern: string, text: string) returns (r: bool)
    ensures r == Matches(pattern, text)
  {
    var pi: nat, ti: nat := 0, 0;
    var star: Option<Star> := None;
    while ti < |text|
      invariant ScanState(pattern, text, pi, ti, star)
      invariant Scan(pattern, text, pi, ti, star) == Matches(pattern, text)
      decreases |pattern| - Tried(star), |text| - From(star), |text| - ti
    {
      if pi < |pattern| && (pattern[pi] == '?' || pattern[pi] == text[ti]) {
        pi := pi + 1;
        ti := ti + 1;
      } else if pi < |pattern| && pattern[pi] == '*' {
        star := Some(Star(pi, ti));
        pi := pi + 1;
      } else if star.Some? {
        pi := star.value.at + 1;
        star := Some(Star(star.value.at, star.value.from + 1));
        ti := star.value.from;
      } else {
        return false;
      }
    }
    r := TrailingStars(pattern, pi);
  }

  // glob_match, the copy in the XLFD module.
  method GlobMatch(name: string, pattern: string) returns (r: bool)
    ensures r == Matches(pattern, name)
  {
    var ni: nat, pi: nat := 0, 0;
    var star: Option<Star> := None;
    while ni < |name|
      invariant ScanState(pattern, name, pi, ni, star)
      invariant Scan(pattern, name, pi, ni, star) == Matches(pattern, name)
      decreases |pattern| - Tried(star), |name| - From(star), |name| - ni
    {
      if pi < |pattern| && (pattern[pi] == '?' || pattern[pi] == name[ni]) {
        ni := ni + 1;
        pi := pi + 1;
      } else if pi < |pattern| && pattern[pi] == '*' {
        star := Some(Star(pi, ni));
        pi := pi + 1;
      } else if star.Some? {
        pi := star.value.at + 1;
        star := Some(Star(star.value.at, star.value.from + 1));
        ni := star.value.from;
      } else {
        return false;
      }
    }
    r := TrailingStars(pattern, pi);
  }

  method TrailingStars(p: string, from: nat) returns (r: bool)
    requires from <= |p|
    ensures r <==> AllStars(p[from..])
  {
    var pi := from;
    while pi < |p| && p[pi] == '*'
      invariant from <= pi <= |p|
      invariant forall i :: from <= i < pi ==> p[i] == '*'
    {
      pi := pi + 1;
    }
    r := pi == |p|;
    if !r { assert p[from..][pi - from] == p[pi]; }
  }

  // ---------------------------------------------------------------------
  // The wildcard relation

  lemma {:induction false} WildEmpty(p: string)
    ensures Wild(p, "") <==> AllStars(p)
    decreases |p|
  {
    if p != "" {
      WildEmpty(p[1..]);
      if p[0] == '*' && AllStars(p[1..]) {
        forall i | 0 <= i < |p| ensures p[i] == '*' { assert i > 0 ==> p[1..][i - 1] == p[i]; }
      }
    }
  }

  // A star takes any prefix of the text.
  lemma {:induction false} StarTakes(p: string, t: string, k: nat)
    requires p != "" && p[0] == '*' && k <= |t| && Wild(p, t[k..])
    ensures Wild(p, t)
    decreases k
  {
    if k != 0 {
      assert t[k - 1..][1..] == t[k..];
      StarTakes(p, t, k - 1);
    }
  }

  lemma {:induction false} StarStops(p: string, t: string) returns (k: nat)
    requires p != "" && p[0] == '*' && Wild(p, t)
    ensures k <= |t| && Wild(p[1..], t[k..])
    decreases |t|
  {
    if Wild(p[1..], t) {
      k := 0;
      assert t[0..] == t;
    } else {
      k := StarStops(p, t[1..]);
      k := k + 1;
      assert t[1..][k - 1..] == t[k..];
    }
  }

  // A star-free stretch of the pattern consumes exactly its length.
  lemma {:induction false} Stretch(p: string, t: string, a: nat, b: nat, k: nat)
    requires a <= b <= |p| && k <= |t| && forall i :: a <= i < b ==> p[i] != '*'
    requires Wild(p[a..], t[k..])
    ensures k + (b - a) <= |t| && Wild(p[b..], t[k + (b - a)..])
    decreases b - a
  {
    if a < b {
      assert p[a..][1..] == p[a + 1..] && t[k..][1..] == t[k + 1..];
      Stretch(p, t, a + 1, b, k + 1);
    }
  }

  // ---------------------------------------------------------------------
  // The scan on star-free texts

  // Some later start of the last star would match.
  ghost predicate Later(p: string, t: string, star: Option<Star>)
    requires star.Some? ==> star.value.at < |p|
  {
    star.Some? && star.value.from < |t| && Wild(p[star.value.at..], t[star.value.from + 1..])
  }

  // Between the last star and the scan point every pattern character has
  // consumed one text character.
  ghost predicate InStep(p: string, pi: nat, ti: nat, star: Option<Star>)
    requires pi <= |p|
  {
    star.Some? ==>
      && star.value.at < pi && ti - star.value.from == pi - (star.value.at + 1)
      && forall i :: star.value.at < i < pi ==> p[i] != '*'
  }

  // Once the scan stands past the stretch after a star, a later start of that
  // star cannot reach further left in the text.
  lemma {:induction false} LaterStarts(p: string, t: string, pi: nat, ti: nat, star: Option<Star>) returns (k: nat)
    requires ScanState(p, t, pi, ti, star) && InStep(p, pi, ti, star) && Later(p, t, star)
    ensures ti < k <= |t| && Wild(p[pi..], t[k..])
  {
    var s := star.value;
    k := StarStops(p[s.at..], t[s.from + 1..]);
    assert p[s.at..][1..] == p[s.at + 1..];
    assert t[s.from + 1..][k..] == t[s.from + 1 + k..];
    Stretch(p, t, s.at + 1, pi, s.from + 1 + k);
    k := s.from + 1 + k + (pi - (s.at + 1));
  }

  lemma {:induction false} ScanIsWild(p: string, t: string, pi: nat, ti: nat, star: Option<Star>)
    requires '*' !in t
    requires ScanState(p, t, pi, ti, star) && InStep(p, pi, ti, star)
    ensures Scan(p, t, pi, ti, star) <==> Wild(p[pi..], t[ti..]) || Later(p, t, star)
    decreases |p| - Tried(star), |t| - From(star), |t| - ti
  {
    if ti == |t| {
      WildEmpty(p[pi..]);
      assert t[ti..] == "";
      if Later(p, t, star) { var k := LaterStarts(p, t, pi, ti, star); }
    } else {
      assert t[ti..][1..] == t[ti + 1..];
      assert pi < |p| ==> p[pi..][1..] == p[pi + 1..];
      if pi < |p| && (p[pi] == '?' || p[pi] == t[ti]) {
        ScanIsWild(p, t, pi + 1, ti + 1, star);
      } else if pi < |p| && p[pi] == '*' {
        ScanIsWild(p, t, pi + 1, ti, Some(Star(pi, ti)));
        StarSupersedes(p, t, pi, ti, star);
      } else if star.Some? {
        var s := star.value;
        ScanIsWild(p, t, s.at + 1, s.from + 1, Some(Star(s.at, s.from + 1)));
        NextStart(p, t, s);
      }
    }
  }

  // A new star can do whatever a later start of the one before it could.
  lemma {:induction false} StarSupersedes(p: string, t: string, pi: nat, ti: nat, star: Option<Star>)
    requires ScanState(p, t, pi, ti, star) && InStep(p, pi, ti, star)
    requires ti < |t| && pi < |p| && p[pi] == '*'
    ensures Later(p, t, star) ==> Wild(p[pi..], t[ti..])
  {
    if Later(p, t, star) {
      var k := LaterStarts(p, t, pi, ti, star);
      assert t[ti..][k - ti..] == t[k..];
      StarTakes(p[pi..], t[ti..], k - ti);
    }
  }

  // The later starts of a star are its next start and those after it.
  lemma {:induction false} NextStart(p: string, t: string, s: Star)
    requires s.at < |p| && p[s.at] == '*' && s.from < |t|
    ensures Later(p, t, Some(s)) <==>
            Wild(p[s.at + 1..], t[s.from + 1..]) || Later(p, t, Some(Star(s.at, s.from + 1)))
  {
    assert p[s.at..][1..] == p[s.at + 1..];
    assert s.from + 1 < |t| ==> t[s.from + 1..][1..] == t[s.from + 2..];
  }

  // ---------------------------------------------------------------------
  // All texts

  // Whatever the text, an accepted name does match the pattern.
  lemma {:induction false} ScanSound(p: string, t: string, pi: nat, ti: nat, star: Option<Star>)
    requires ScanState(p, t, pi, ti, star) && Scan(p, t, pi, ti, star)
    ensures Wild(p[pi..], t[ti..]) || Later(p, t, star)
    decreases |p| - Tried(star), |t| - From(star), |t| - ti
  {
    if ti == |t| {
      WildEmpty(p[pi..]);
      assert t[ti..] == "";
    } else {
      assert t[ti..][1..] == t[ti + 1..];
      assert pi < |p| ==> p[pi..][1..] == p[pi + 1..];
      if pi < |p| && (p[pi] == '?' || p[pi] == t[ti]) {
        ScanSound(p, t, pi + 1, ti + 1, star);
        if p[pi] == '*' && Wild(p[pi + 1..], t[ti + 1..]) {
          assert Wild(p[pi..], t[ti + 1..]);
        }
      } else if pi < |p| && p[pi] == '*' {
        ScanSound(p, t, pi + 1, ti, Some(Star(pi, ti)));
      } else {
        var s := star.value;
        ScanSound(p, t, s.at + 1, s.from + 1, Some(Star(s.at, s.from + 1)));
        NextStart(p, t, s);
      }
    }
  }

  lemma {:induction false} MatchesSound(p: string, t: string)
    requires Matches(p, t)
    ensures Wild(p, t)
  {
    ScanSound(p, t, 0, 0, None);
    assert p[0..] == p && t[0..] == t;
  }

  // A text with a star defeats a pattern that should accept it: question
  // marks, a star where the text has one, and question marks for the rest.
  function Defeating(n: nat, k: nat): string
    requires k < n
  {
    seq(n + 1, i => if i == k then '*' else '?')
  }

  lemma {:induction false} DefeatingFails(t: string, k: nat, i: nat)
    requires k < |t| && t[k] == '*' && i <= |t|
    ensures !Scan(Defeating(|t|, k), t, i, i, None)
    decreases |t| - i
  {
    var p := Defeating(|t|, k);
    if i == |t| {
      assert p[i..][0] == '?';
    } else {
      DefeatingFails(t, k, i + 1);
    }
  }

  lemma {:induction false} DefeatingIsWild(t: string, k: nat, i: nat)
    requires k < |t| && i <= |t| + 1
    ensures Wild(Defeating(|t|, k)[i..], t[if i <= k then i else i - 1..])
    decreases |t| + 1 - i
  {
    var p := Defeating(|t|, k);
    if i <= |t| {
      DefeatingIsWild(t, k, i + 1);
      assert p[i..][1..] == p[i + 1..];
      if i != k {
        var j := if i <= k then i else i - 1;
        assert t[j..][1..] == t[j + 1..];
      }
    }
  }

  // Against a given name the matcher decides the wildcard relation for every
  // pattern exactly when the name holds no star.
  lemma {:induction false} MatcherExact(t: string)
    ensures (forall p :: Matches(p, t) <==> Wild(p, t)) <==> '*' !in t
  {
    if '*' !in t {
      forall p ensures Matches(p, t) <==> Wild(p, t) {
        ScanIsWild(p, t, 0, 0, None);
        assert p[0..] == p && t[0..] == t;
      }
    } else {
      var k :| 0 <= k < |t| && t[k] == '*';
      var p := Defeating(|t|, k);
      DefeatingFails(t, k, 0);
      DefeatingIsWild(t, k, 0);
      assert p[0..] == p && t[0..] == t;
      assert !Matches(p, t) && Wild(p, t);
    }
  }
}
