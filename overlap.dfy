/** removal() of PrettySet.py: greedy elimination of overlapping candidate
    reservoirs, keeping the one with the better water-rock ratio, followed by
    the list of surviving reservoirs and the pairing of each with its dam. */
module Overlap {
  import opened Text

  /** What removal() reads from the RES_ feature classes, position by position:
      LAT, LONG, WATER_ROCK_RATIO and the feature-class name. */
  datatype Sites = Sites(lat: seq<real>, lon: seq<real>, ratio: seq<real>, names: seq<string>)
  {
    predicate Valid() { |lat| == |names| && |lon| == |names| && |ratio| == |names| }
  }

  /** The exact geometric test: Intersect_analysis of the two named reservoirs
      yields at least one polygon. The engine is not modelled, so this is a
      parameter. */
  type Oracle = (string, string) -> bool

  /** The prefilter threshold, in degrees. */
  const Window: real := 0.02

  function Abs(x: real): (r: real)
    ensures r >= 0.0 && (r == x || r == -x)
  {
    if x < 0.0 then -x else x
  }

  /** Neither the latitude nor the longitude differ by more than Window. */
  predicate Near(s: Sites, i: nat, j: nat)
    requires s.Valid() && i < |s.names| && j < |s.names|
  {
    !(Abs(s.lat[i] - s.lat[j]) > Window || Abs(s.lon[i] - s.lon[j]) > Window)
  }

  /** A pair that removal() resolves: close enough and intersecting. */
  predicate Conflict(s: Sites, overlaps: Oracle, i: nat, j: nat)
    requires s.Valid() && i < |s.names| && j < |s.names|
  {
    Near(s, i, j) && overlaps(s.names[i], s.names[j])
  }

  // ---------------------------------------------------------------------
  // The scan, as functions: the specification of the method Removal below.
  // ---------------------------------------------------------------------

  /** The inner loop of removal() for a fixed i, from partner j on. */
  function ScanInner(s: Sites, overlaps: Oracle, i: nat, j: nat, rmvl: seq<nat>): seq<nat>
    requires s.Valid() && i < j <= |s.names|
    decreases |s.names| - j
  {
    if j == |s.names| then rmvl
    else if j in rmvl then ScanInner(s, overlaps, i, j + 1, rmvl)
    else if !Near(s, i, j) then ScanInner(s, overlaps, i, j + 1, rmvl)
    else if !overlaps(s.names[i], s.names[j]) then ScanInner(s, overlaps, i, j + 1, rmvl)
    else if s.ratio[i] >= s.ratio[j] then ScanInner(s, overlaps, i, j + 1, rmvl + [j])
    else rmvl + [i]
  }

  /** The outer loop of removal(), over i in range(len(resfc) - 1), from i on. */
  function ScanOuter(s: Sites, overlaps: Oracle, i: nat, rmvl: seq<nat>): seq<nat>
    requires s.Valid()
    decreases |s.names| - i
  {
    if i + 1 >= |s.names| then rmvl
    else if i in rmvl then ScanOuter(s, overlaps, i + 1, rmvl)
    else ScanOuter(s, overlaps, i + 1, ScanInner(s, overlaps, i, i + 1, rmvl))
  }

  /** The final removal list rmvl. */
  function Removed(s: Sites, overlaps: Oracle): seq<nat>
    requires s.Valid()
  {
    ScanOuter(s, overlaps, 0, [])
  }

  // ---------------------------------------------------------------------
  // What the removal list satisfies.
  // ---------------------------------------------------------------------

  predicate Distinct(r: seq<nat>)
  {
    forall a, b :: 0 <= a < b < |r| ==> r[a] != r[b]
  }

  /** w beat k in a resolved conflict: when w comes first it wins ties
      (ratio >=), when k comes first w needs a strictly greater ratio. */
  predicate Beats(s: Sites, overlaps: Oracle, w: nat, k: nat)
    requires s.Valid() && w < |s.names| && k < |s.names|
  {
    if w < k then Conflict(s, overlaps, w, k) && s.ratio[w] >= s.ratio[k]
    else k < w && Conflict(s, overlaps, k, w) && s.ratio[k] < s.ratio[w]
  }

  /** Site k lost a resolved conflict to some other site. */
  predicate Beaten(s: Sites, overlaps: Oracle, k: nat)
    requires s.Valid() && k < |s.names|
  {
    exists w :: 0 <= w < |s.names| && Beats(s, overlaps, w, k)
  }

  /** Every removed index is a valid position and lost to some other site. */
  predicate Justified(s: Sites, overlaps: Oracle, r: seq<nat>)
    requires s.Valid()
  {
    forall a :: 0 <= a < |r| ==> r[a] < |s.names| && Beaten(s, overlaps, r[a])
  }

  /** No conflict is left between two survivors whose first index is below m. */
  predicate ResolvedBelow(s: Sites, overlaps: Oracle, m: nat, r: seq<nat>)
    requires s.Valid()
  {
    forall a, b :: 0 <= a < b < |s.names| && a < m && a !in r && b !in r ==> !Conflict(s, overlaps, a, b)
  }

  /** The survivors are pairwise conflict-free. */
  predicate ConflictFree(s: Sites, overlaps: Oracle, r: seq<nat>)
    requires s.Valid()
  {
    forall a, b :: 0 <= a < b < |s.names| && a !in r && b !in r ==> !Conflict(s, overlaps, a, b)
  }

  /** Appending a site that lost a conflict keeps the list distinct and justified. */
  lemma Extend(s: Sites, overlaps: Oracle, rmvl: seq<nat>, w: nat, x: nat)
    requires s.Valid() && Distinct(rmvl) && Justified(s, overlaps, rmvl)
    requires w < |s.names| && x < |s.names| && x !in rmvl && Beats(s, overlaps, w, x)
    ensures Distinct(rmvl + [x]) && Justified(s, overlaps, rmvl + [x])
  {
    var next := rmvl + [x];
    forall a | 0 <= a < |next|
      ensures next[a] < |s.names| && Beaten(s, overlaps, next[a])
    {
      if a == |rmvl| { assert next[a] == x; } else { assert next[a] == rmvl[a]; }
    }
  }

  /** Everything in a prefix of r is in r. */
  lemma PrefixMembers(rmvl: seq<nat>, r: seq<nat>)
    requires |rmvl| <= |r| && r[..|rmvl|] == rmvl
    ensures forall x :: x in rmvl ==> x in r
  {
    forall x | x in rmvl ensures x in r {
      var t :| 0 <= t < |rmvl| && rmvl[t] == x;
      assert r[t] == x;
    }
  }

  lemma PrefixOfPrefix(a: seq<nat>, b: seq<nat>, c: seq<nat>)
    requires |a| <= |b| && b[..|a|] == a && |b| <= |c| && c[..|b|] == b
    ensures |a| <= |c| && c[..|a|] == a
    ensures forall t :: 0 <= t < |b| ==> c[t] == b[t]
  {
    assert c[..|a|] == c[..|b|][..|a|];
    forall t | 0 <= t < |b| ensures c[t] == b[t] { assert c[..|b|][t] == c[t]; }
  }

  /** What the inner scan from j, started on rmvl, guarantees of its result r. */
  predicate InnerPost(s: Sites, overlaps: Oracle, i: nat, j: nat, rmvl: seq<nat>, r: seq<nat>)
    requires s.Valid() && i < |s.names|
  {
    && |rmvl| <= |r| && r[..|rmvl|] == rmvl
    && Distinct(r) && Justified(s, overlaps, r)
    && (i !in r ==> forall b :: j <= b < |s.names| && b !in r ==> !Conflict(s, overlaps, i, b))
  }

  /** Skipping j (already removed, or no conflict with i) keeps InnerPost. */
  lemma SkipStep(s: Sites, overlaps: Oracle, i: nat, j: nat, rmvl: seq<nat>, r: seq<nat>)
    requires s.Valid() && i < j < |s.names|
    requires j in rmvl || !Conflict(s, overlaps, i, j)
    requires InnerPost(s, overlaps, i, j + 1, rmvl, r)
    ensures InnerPost(s, overlaps, i, j, rmvl, r)
  {
    PrefixMembers(rmvl, r);
  }

  /** Removing j, which lost to i, and going on keeps InnerPost. */
  lemma WinStep(s: Sites, overlaps: Oracle, i: nat, j: nat, rmvl: seq<nat>, r: seq<nat>)
    requires s.Valid() && i < j < |s.names|
    requires InnerPost(s, overlaps, i, j + 1, rmvl + [j], r)
    ensures InnerPost(s, overlaps, i, j, rmvl, r)
  {
    var next := rmvl + [j];
    PrefixOfPrefix(rmvl, next, r);
    assert r[|rmvl|] == next[|rmvl|] == j;
    if i !in r {
      forall b | j <= b < |s.names| && b !in r ensures !Conflict(s, overlaps, i, b) {
        assert b != j;
      }
    }
  }

  lemma {:induction false} InnerFacts(s: Sites, overlaps: Oracle, i: nat, j: nat, rmvl: seq<nat>)
    requires s.Valid() && i < j <= |s.names| && i !in rmvl
    requires Distinct(rmvl) && Justified(s, overlaps, rmvl)
    ensures InnerPost(s, overlaps, i, j, rmvl, ScanInner(s, overlaps, i, j, rmvl))
    decreases |s.names| - j
  {
    var n := |s.names|;
    if j < n {
      if j in rmvl || !Conflict(s, overlaps, i, j) {
        InnerFacts(s, overlaps, i, j + 1, rmvl);
        var r := ScanInner(s, overlaps, i, j + 1, rmvl);
        assert ScanInner(s, overlaps, i, j, rmvl) == r;
        SkipStep(s, overlaps, i, j, rmvl, r);
      } else if s.ratio[i] >= s.ratio[j] {
        var next := rmvl + [j];
        Extend(s, overlaps, rmvl, i, j);
        assert i !in next;
        InnerFacts(s, overlaps, i, j + 1, next);
        var r := ScanInner(s, overlaps, i, j + 1, next);
        assert ScanInner(s, overlaps, i, j, rmvl) == r;
        WinStep(s, overlaps, i, j, rmvl, r);
      } else {
        var r := rmvl + [i];
        assert ScanInner(s, overlaps, i, j, rmvl) == r;
        Extend(s, overlaps, rmvl, j, i);
        assert r[|rmvl|] == i;
      }
    }
  }

  /** After the inner scan of i, no conflict is left below i + 1. */
  lemma ResolvedStep(s: Sites, overlaps: Oracle, i: nat, rmvl: seq<nat>, r1: seq<nat>)
    requires s.Valid() && i < |s.names| && ResolvedBelow(s, overlaps, i, rmvl)
    requires InnerPost(s, overlaps, i, i + 1, rmvl, r1)
    ensures ResolvedBelow(s, overlaps, i + 1, r1)
  {
    PrefixMembers(rmvl, r1);
    forall a, b | 0 <= a < b < |s.names| && a < i + 1 && a !in r1 && b !in r1
      ensures !Conflict(s, overlaps, a, b)
    {
      if a < i {
        assert a !in rmvl && b !in rmvl;
      }
    }
  }

  /** The three properties of a finished removal list. */
  predicate Sound(s: Sites, overlaps: Oracle, r: seq<nat>)
    requires s.Valid()
  {
    Distinct(r) && Justified(s, overlaps, r) && ConflictFree(s, overlaps, r)
  }

  /** A removed site i leaves nothing to resolve at i. */
  lemma ResolvedSkip(s: Sites, overlaps: Oracle, i: nat, rmvl: seq<nat>)
    requires s.Valid() && ResolvedBelow(s, overlaps, i, rmvl) && i in rmvl
    ensures ResolvedBelow(s, overlaps, i + 1, rmvl)
  {
    forall a, b | 0 <= a < b < |s.names| && a < i + 1 && a !in rmvl && b !in rmvl
      ensures !Conflict(s, overlaps, a, b)
    {
      assert a < i;
    }
  }

  /** What the outer scan, started on rmvl, guarantees of its result r. */
  predicate OuterPost(s: Sites, overlaps: Oracle, rmvl: seq<nat>, r: seq<nat>)
    requires s.Valid()
  {
    |rmvl| <= |r| && r[..|rmvl|] == rmvl && Sound(s, overlaps, r)
  }

  lemma {:induction false} OuterFacts(s: Sites, overlaps: Oracle, i: nat, rmvl: seq<nat>)
    requires s.Valid() && Distinct(rmvl) && Justified(s, overlaps, rmvl)
    requires ResolvedBelow(s, overlaps, i, rmvl)
    ensures OuterPost(s, overlaps, rmvl, ScanOuter(s, overlaps, i, rmvl))
    decreases |s.names| - i, 1
  {
    var n := |s.names|;
    if i + 1 >= n {
      assert ScanOuter(s, overlaps, i, rmvl) == rmvl;
      forall a, b | 0 <= a < b < n && a !in rmvl && b !in rmvl ensures !Conflict(s, overlaps, a, b) {
        assert a < i;
      }
      assert rmvl[..|rmvl|] == rmvl;
    } else if i in rmvl {
      OuterSkip(s, overlaps, i, rmvl);
    } else {
      OuterStep(s, overlaps, i, rmvl);
    }
  }

  /** Outer step for a site already removed. */
  lemma {:induction false} OuterSkip(s: Sites, overlaps: Oracle, i: nat, rmvl: seq<nat>)
    requires s.Valid() && Distinct(rmvl) && Justified(s, overlaps, rmvl)
    requires ResolvedBelow(s, overlaps, i, rmvl) && i + 1 < |s.names| && i in rmvl
    ensures OuterPost(s, overlaps, rmvl, ScanOuter(s, overlaps, i, rmvl))
    decreases |s.names| - i, 0
  {
    var r := ScanOuter(s, overlaps, i + 1, rmvl);
    assert ScanOuter(s, overlaps, i, rmvl) == r;
    ResolvedSkip(s, overlaps, i, rmvl);
    OuterFacts(s, overlaps, i + 1, rmvl);
  }

  /** Outer step for a surviving site: its inner scan, then the rest. */
  lemma {:induction false} OuterStep(s: Sites, overlaps: Oracle, i: nat, rmvl: seq<nat>)
    requires s.Valid() && Distinct(rmvl) && Justified(s, overlaps, rmvl)
    requires ResolvedBelow(s, overlaps, i, rmvl) && i + 1 < |s.names| && i !in rmvl
    ensures OuterPost(s, overlaps, rmvl, ScanOuter(s, overlaps, i, rmvl))
    decreases |s.names| - i, 0
  {
    var r1 := ScanInner(s, overlaps, i, i + 1, rmvl);
    InnerFacts(s, overlaps, i, i + 1, rmvl);
    ResolvedStep(s, overlaps, i, rmvl, r1);
    OuterFacts(s, overlaps, i + 1, r1);
    var r := ScanOuter(s, overlaps, i + 1, r1);
    assert ScanOuter(s, overlaps, i, rmvl) == r;
    assert |r1| <= |r| && r[..|r1|] == r1;
    PrefixOfPrefix(rmvl, r1, r);
  }

  /** rmvl holds valid, distinct positions; each removed site lost a
      resolved conflict; and the survivors are pairwise conflict-free. */
  lemma RemovalSound(s: Sites, overlaps: Oracle)
    requires s.Valid()
    ensures var r := Removed(s, overlaps);
      Distinct(r) && Justified(s, overlaps, r) && ConflictFree(s, overlaps, r)
  {
    OuterFacts(s, overlaps, 0, []);
    assert OuterPost(s, overlaps, [], Removed(s, overlaps));
  }

  /** A site in conflict with no other site is never removed. */
  lemma UnconflictedSiteKept(s: Sites, overlaps: Oracle, k: nat)
    requires s.Valid() && k < |s.names|
    requires forall w :: 0 <= w < k ==> !Conflict(s, overlaps, w, k)
    requires forall w :: k < w < |s.names| ==> !Conflict(s, overlaps, k, w)
    ensures k !in Removed(s, overlaps)
  {
    RemovalSound(s, overlaps);
    var r := Removed(s, overlaps);
    forall a | 0 <= a < |r| ensures r[a] != k {
      var w :| 0 <= w < |s.names| && Beats(s, overlaps, w, r[a]);
    }
  }

  /** The 0.02-degree prefilter: a site farther than Window from every other
      site, in latitude or in longitude, is never removed. */
  lemma FarSiteKept(s: Sites, overlaps: Oracle, k: nat)
    requires s.Valid() && k < |s.names|
    requires forall w :: 0 <= w < |s.names| && w != k ==>
      Abs(s.lat[w] - s.lat[k]) > Window || Abs(s.lon[w] - s.lon[k]) > Window
    ensures k !in Removed(s, overlaps)
  {
    forall w | k < w < |s.names| ensures !Near(s, k, w) {
      assert Abs(s.lat[k] - s.lat[w]) == Abs(s.lat[w] - s.lat[k]);
      assert Abs(s.lon[k] - s.lon[w]) == Abs(s.lon[w] - s.lon[k]);
    }
    UnconflictedSiteKept(s, overlaps, k);
  }

  /** A site whose intersection with every other site is empty is never removed. */
  lemma DisjointSiteKept(s: Sites, overlaps: Oracle, k: nat)
    requires s.Valid() && k < |s.names|
    requires forall w :: 0 <= w < |s.names| && w != k ==>
      !overlaps(s.names[w], s.names[k]) && !overlaps(s.names[k], s.names[w])
    ensures k !in Removed(s, overlaps)
  {
    UnconflictedSiteKept(s, overlaps, k);
  }

  lemma {:induction false} InnerQuiet(s: Sites, overlaps: Oracle, i: nat, j: nat)
    requires s.Valid() && i < j <= |s.names| && ConflictFree(s, overlaps, [])
    ensures ScanInner(s, overlaps, i, j, []) == []
    decreases |s.names| - j
  {
    if j < |s.names| {
      assert !Conflict(s, overlaps, i, j);
      InnerQuiet(s, overlaps, i, j + 1);
    }
  }

  lemma {:induction false} OuterQuiet(s: Sites, overlaps: Oracle, i: nat)
    requires s.Valid() && ConflictFree(s, overlaps, [])
    ensures ScanOuter(s, overlaps, i, []) == []
    decreases |s.names| - i
  {
    if i + 1 < |s.names| {
      InnerQuiet(s, overlaps, i, i + 1);
      OuterQuiet(s, overlaps, i + 1);
    }
  }

  /** Without any conflict, nothing is removed. */
  lemma NoConflictNoRemoval(s: Sites, overlaps: Oracle)
    requires s.Valid() && ConflictFree(s, overlaps, [])
    ensures Removed(s, overlaps) == []
  {
    OuterQuiet(s, overlaps, 0);
  }

  /** Two overlapping sites 0.01 degrees apart: the one with the lower ratio goes. */
  lemma ExampleLowerRatioRemoved()
    ensures Removed(Sites([0.0, 0.01], [0.0, 0.0], [3.2, 2.8], ["RES_1", "RES_2"]), (a, b) => true) == [1]
    ensures Removed(Sites([0.0, 0.01], [0.0, 0.0], [2.8, 3.2], ["RES_1", "RES_2"]), (a, b) => true) == [0]
  {
    var near := Sites([0.0, 0.01], [0.0, 0.0], [3.2, 2.8], ["RES_1", "RES_2"]);
    assert Near(near, 0, 1);
    assert ScanInner(near, (a, b) => true, 0, 1, []) == [1];
    var swapped := Sites([0.0, 0.01], [0.0, 0.0], [2.8, 3.2], ["RES_1", "RES_2"]);
    assert Near(swapped, 0, 1);
    assert ScanInner(swapped, (a, b) => true, 0, 1, []) == [0];
  }

  /** Equal ratios: the earlier site is kept. */
  lemma ExampleTieKeepsEarlier()
    ensures Removed(Sites([0.0, 0.01], [0.0, 0.0], [3.0, 3.0], ["RES_1", "RES_2"]), (a, b) => true) == [1]
  {
    var tie := Sites([0.0, 0.01], [0.0, 0.0], [3.0, 3.0], ["RES_1", "RES_2"]);
    assert Near(tie, 0, 1);
    assert ScanInner(tie, (a, b) => true, 0, 1, []) == [1];
  }

  /** Sites 0.5 degrees apart are both kept, whatever the overlap test says. */
  lemma ExampleFarPairKept()
    ensures Removed(Sites([0.0, 0.5], [0.0, 0.0], [3.2, 2.8], ["RES_1", "RES_2"]), (a, b) => true) == []
  {
    var far := Sites([0.0, 0.5], [0.0, 0.0], [3.2, 2.8], ["RES_1", "RES_2"]);
    assert !Near(far, 0, 1);
    assert ScanInner(far, (a, b) => true, 0, 1, []) == [];
  }

  // ---------------------------------------------------------------------
  // Survivors, and running removal() again on them.
  // ---------------------------------------------------------------------

  /** The positions from k up to n - 1 that are not in r, ascending. */
  function Kept(n: nat, r: seq<nat>, k: nat): (ps: seq<nat>)
    requires k <= n
    ensures forall t :: 0 <= t < |ps| ==> k <= ps[t] < n && ps[t] !in r
    ensures forall t, u :: 0 <= t < u < |ps| ==> ps[t] < ps[u]
    decreases n - k
  {
    if k == n then [] else (if k in r then [] else [k]) + Kept(n, r, k + 1)
  }

  /** Every position from k on that is not in r is kept. */
  lemma {:induction false} KeptComplete(n: nat, r: seq<nat>, k: nat)
    requires k <= n
    ensures forall m :: k <= m < n && m !in r ==> m in Kept(n, r, k)
    decreases n - k
  {
    if k < n {
      KeptComplete(n, r, k + 1);
    }
  }

  function Pick<T>(xs: seq<T>, ps: seq<nat>): (ys: seq<T>)
    requires forall t :: 0 <= t < |ps| ==> ps[t] < |xs|
    ensures |ys| == |ps| && forall t :: 0 <= t < |ps| ==> ys[t] == xs[ps[t]]
  {
    seq(|ps|, t requires 0 <= t < |ps| => xs[ps[t]])
  }

  lemma PickCons<T>(xs: seq<T>, k: nat, rest: seq<nat>)
    requires k < |xs| && forall t :: 0 <= t < |rest| ==> rest[t] < |xs|
    ensures Pick(xs, [k] + rest) == [xs[k]] + Pick(xs, rest)
  {
    var ps := [k] + rest;
    assert forall t :: 0 <= t < |ps| ==> ps[t] < |xs|;
    var lhs, rhs := Pick(xs, ps), [xs[k]] + Pick(xs, rest);
    assert |lhs| == |rhs|;
    forall t | 0 <= t < |lhs| ensures lhs[t] == rhs[t] {
      if t > 0 { assert ps[t] == rest[t - 1]; }
    }
  }

  /** The sites at the kept positions, in their original order. */
  function Survivors(s: Sites, overlaps: Oracle): (s': Sites)
    requires s.Valid()
    ensures s'.Valid()
  {
    var ps := Kept(|s.names|, Removed(s, overlaps), 0);
    Sites(Pick(s.lat, ps), Pick(s.lon, ps), Pick(s.ratio, ps), Pick(s.names, ps))
  }

  /** Running removal() again on its survivors removes nothing. */
  lemma RemovalIdempotent(s: Sites, overlaps: Oracle)
    requires s.Valid()
    ensures Removed(Survivors(s, overlaps), overlaps) == []
  {
    RemovalSound(s, overlaps);
    var r := Removed(s, overlaps);
    var ps := Kept(|s.names|, r, 0);
    var s' := Survivors(s, overlaps);
    forall p, q | 0 <= p < q < |s'.names| ensures !Conflict(s', overlaps, p, q) {
      assert ps[p] < ps[q];
      assert !Conflict(s, overlaps, ps[p], ps[q]);
    }
    NoConflictNoRemoval(s', overlaps);
  }

  // ---------------------------------------------------------------------
  // resl and daml.
  // ---------------------------------------------------------------------

  /** resfc.index(x): the first position holding x. */
  function FirstIndex(names: seq<string>, x: string): (k: nat)
    requires x in names
    ensures k < |names| && names[k] == x
    ensures forall m :: 0 <= m < k ==> names[m] != x
  {
    if names[0] == x then 0 else 1 + FirstIndex(names[1..], x)
  }

  /** [x for x in resfc if resfc.index(x) not in rmvl], from position k on. */
  function ResListFrom(names: seq<string>, rmvl: seq<nat>, k: nat): seq<string>
    requires k <= |names|
    decreases |names| - k
  {
    if k == |names| then []
    else (if FirstIndex(names, names[k]) in rmvl then [] else [names[k]]) + ResListFrom(names, rmvl, k + 1)
  }

  function ResList(names: seq<string>, rmvl: seq<nat>): seq<string>
  {
    ResListFrom(names, rmvl, 0)
  }

  /** The names the comprehension keeps from position k on: exactly those
      whose first occurrence is not removed. */
  lemma {:induction false} ResListFromMembers(names: seq<string>, rmvl: seq<nat>, k: nat)
    requires k <= |names|
    ensures forall x :: x in ResListFrom(names, rmvl, k) <==>
      x in names && x in names[k..] && FirstIndex(names, x) !in rmvl
    decreases |names| - k
  {
    if k < |names| {
      ResListFromMembers(names, rmvl, k + 1);
      assert names[k..] == [names[k]] + names[k + 1..];
    }
  }

  /** [x for x in resfc if resfc.index(x) not in rmvl] holds x exactly when
      x is in resfc and its first occurrence was not removed. */
  lemma ResListMembers(names: seq<string>, rmvl: seq<nat>)
    ensures forall x :: x in ResList(names, rmvl) <==> x in names && FirstIndex(names, x) !in rmvl
  {
    ResListFromMembers(names, rmvl, 0);
    assert names[0..] == names;
  }

  predicate Unique(names: seq<string>)
  {
    forall a, b :: 0 <= a < b < |names| ==> names[a] != names[b]
  }

  /** With distinct names, resfc.index(resfc[k]) is k. */
  lemma FirstIndexOfUnique(names: seq<string>, k: nat)
    requires k < |names| && Unique(names)
    ensures FirstIndex(names, names[k]) == k
  {
    var f := FirstIndex(names, names[k]);
    assert f <= k && names[f] == names[k];
  }

  /** One step of the comprehension, with index(x) resolved by uniqueness. */
  lemma ResListFromStep(names: seq<string>, rmvl: seq<nat>, k: nat)
    requires k < |names| && Unique(names)
    ensures ResListFrom(names, rmvl, k) ==
      (if k in rmvl then [] else [names[k]]) + ResListFrom(names, rmvl, k + 1)
  {
    FirstIndexOfUnique(names, k);
  }

  /** One position further back, the comprehension and the selection of
      kept positions still agree. */
  lemma ResListKeptStep(names: seq<string>, rmvl: seq<nat>, k: nat)
    requires k < |names| && Unique(names)
    requires ResListFrom(names, rmvl, k + 1) == Pick(names, Kept(|names|, rmvl, k + 1))
    ensures ResListFrom(names, rmvl, k) == Pick(names, Kept(|names|, rmvl, k))
  {
    ResListFromStep(names, rmvl, k);
    if k !in rmvl {
      KeptPositionPicked(names, rmvl, k);
    } else {
      assert Kept(|names|, rmvl, k) == Kept(|names|, rmvl, k + 1);
    }
  }

  lemma KeptPositionPicked(names: seq<string>, rmvl: seq<nat>, k: nat)
    requires k < |names| && k !in rmvl
    ensures Pick(names, Kept(|names|, rmvl, k)) == [names[k]] + Pick(names, Kept(|names|, rmvl, k + 1))
  {
    var rest := Kept(|names|, rmvl, k + 1);
    assert Kept(|names|, rmvl, k) == [k] + rest;
    PickCons(names, k, rest);
  }

  lemma {:induction false} ResListFromKept(names: seq<string>, rmvl: seq<nat>, k: nat)
    requires k <= |names| && Unique(names)
    ensures ResListFrom(names, rmvl, k) == Pick(names, Kept(|names|, rmvl, k))
    decreases |names| - k
  {
    if k < |names| {
      ResListFromKept(names, rmvl, k + 1);
      ResListKeptStep(names, rmvl, k);
    }
  }

  /** With distinct feature-class names, resl is resfc with the removed
      positions deleted, in the original order: the names of the survivors. */
  lemma ResListIsSurvivors(s: Sites, overlaps: Oracle)
    requires s.Valid() && Unique(s.names)
    ensures ResList(s.names, Removed(s, overlaps)) == Survivors(s, overlaps).names
  {
    ResListFromKept(s.names, Removed(s, overlaps), 0);
  }

  /** The dams of damfc whose suffix after the last '_' is suffix, in order. */
  function Matching(damfc: seq<string>, suffix: string): (ms: seq<string>)
    ensures forall t :: 0 <= t < |ms| ==> LastField(ms[t]) == suffix
  {
    if damfc == [] then []
    else
      var z := damfc[|damfc| - 1];
      Matching(damfc[..|damfc| - 1], suffix) + (if LastField(z) == suffix then [z] else [])
  }

  /** daml: for each y in resl, every z in damfc with the same suffix. */
  function DamsFor(resl: seq<string>, damfc: seq<string>): seq<string>
  {
    if resl == [] then []
    else DamsFor(resl[..|resl| - 1], damfc) + Matching(damfc, LastField(resl[|resl| - 1]))
  }

  predicate UniqueSuffixes(damfc: seq<string>)
  {
    forall a, b :: 0 <= a < b < |damfc| ==> LastField(damfc[a]) != LastField(damfc[b])
  }

  predicate HasSuffix(damfc: seq<string>, suffix: string)
  {
    exists t :: 0 <= t < |damfc| && LastField(damfc[t]) == suffix
  }

  lemma {:induction false} MatchingAbsent(damfc: seq<string>, suffix: string)
    requires !HasSuffix(damfc, suffix)
    ensures Matching(damfc, suffix) == []
  {
    if damfc != [] {
      var init := damfc[..|damfc| - 1];
      forall t | 0 <= t < |init| ensures LastField(init[t]) != suffix {
        assert init[t] == damfc[t];
      }
      MatchingAbsent(init, suffix);
    }
  }

  lemma {:induction false} MatchingUnique(damfc: seq<string>, suffix: string)
    requires UniqueSuffixes(damfc) && HasSuffix(damfc, suffix)
    ensures |Matching(damfc, suffix)| == 1
  {
    var init := damfc[..|damfc| - 1];
    var z := damfc[|damfc| - 1];
    assert UniqueSuffixes(init) by {
      forall a, b | 0 <= a < b < |init| ensures LastField(init[a]) != LastField(init[b]) {
        assert init[a] == damfc[a] && init[b] == damfc[b];
      }
    }
    if LastField(z) == suffix {
      forall t | 0 <= t < |init| ensures LastField(init[t]) != suffix {
        assert init[t] == damfc[t];
      }
      MatchingAbsent(init, suffix);
    } else {
      assert HasSuffix(init, suffix) by {
        var t :| 0 <= t < |damfc| && LastField(damfc[t]) == suffix;
        assert t < |init| && init[t] == damfc[t];
      }
      MatchingUnique(init, suffix);
    }
  }

  /** When dam suffixes are unique and cover the survivors, daml has one dam
      per reservoir and daml[k] carries resl[k]'s suffix. */
  lemma {:induction false} DamsAligned(resl: seq<string>, damfc: seq<string>)
    requires UniqueSuffixes(damfc)
    requires forall k :: 0 <= k < |resl| ==> HasSuffix(damfc, LastField(resl[k]))
    ensures var daml := DamsFor(resl, damfc);
      |daml| == |resl| && forall k :: 0 <= k < |resl| ==> LastField(daml[k]) == LastField(resl[k])
  {
    if resl != [] {
      var init := resl[..|resl| - 1];
      var y := resl[|resl| - 1];
      assert forall k :: 0 <= k < |init| ==> HasSuffix(damfc, LastField(init[k])) by {
        forall k | 0 <= k < |init| ensures HasSuffix(damfc, LastField(init[k])) {
          assert init[k] == resl[k];
        }
      }
      DamsAligned(init, damfc);
      MatchingUnique(damfc, LastField(y));
      var d0, ms := DamsFor(init, damfc), Matching(damfc, LastField(y));
      assert DamsFor(resl, damfc) == d0 + ms;
      assert |ms| == 1 && LastField(ms[0]) == LastField(y);
      forall k | 0 <= k < |resl| ensures LastField((d0 + ms)[k]) == LastField(resl[k]) {
        if k < |init| {
          assert (d0 + ms)[k] == d0[k] && resl[k] == init[k];
        } else {
          assert k == |d0| && resl[k] == y;
        }
      }
    }
  }

  // ---------------------------------------------------------------------
  // removal() itself.
  // ---------------------------------------------------------------------

  /** The nested i < j scan of removal() that grows rmvl. */
  method Scan(lat: array<real>, lon: array<real>, ratio: array<real>, names: seq<string>, overlaps: Oracle)
    returns (rmvl: seq<nat>)
    requires lat.Length == |names| && lon.Length == |names| && ratio.Length == |names|
    ensures rmvl == Removed(Sites(lat[..], lon[..], ratio[..], names), overlaps)
  {
    ghost var s := Sites(lat[..], lon[..], ratio[..], names);
    var n := |names|;
    rmvl := [];
    var i := 0;
    while i + 1 < n
      invariant ScanOuter(s, overlaps, i, rmvl) == Removed(s, overlaps)
      decreases n - i
    {
      if i in rmvl {
        i := i + 1;
        continue;
      }
      rmvl := ScanPartners(lat, lon, ratio, names, overlaps, i, rmvl);
      i := i + 1;
    }
  }

  /** The inner loop of the scan for site i: its partners j > i in order,
      until i itself is removed. */
  method ScanPartners(lat: array<real>, lon: array<real>, ratio: array<real>, names: seq<string>,
                      overlaps: Oracle, i: nat, rmvl0: seq<nat>)
    returns (rmvl: seq<nat>)
    requires lat.Length == |names| && lon.Length == |names| && ratio.Length == |names|
    requires i + 1 < |names|
    ensures rmvl == ScanInner(Sites(lat[..], lon[..], ratio[..], names), overlaps, i, i + 1, rmvl0)
  {
    ghost var s := Sites(lat[..], lon[..], ratio[..], names);
    var n := |names|;
    rmvl := rmvl0;
    var j := i + 1;
    while j < n
      invariant i < j <= n
      invariant ScanInner(s, overlaps, i, j, rmvl) == ScanInner(s, overlaps, i, i + 1, rmvl0)
      decreases n - j
    {
      if j in rmvl {
        j := j + 1;
        continue;
      }
      var lati, loni, latj, lonj := lat[i], lon[i], lat[j], lon[j];
      if Abs(lati - latj) > Window || Abs(loni - lonj) > Window {
        j := j + 1;
        continue;
      }
      if !overlaps(names[i], names[j]) {
        j := j + 1;
        continue;
      }
      var ratioi, ratioj := ratio[i], ratio[j];
      if ratioi >= ratioj {
        rmvl := rmvl + [j];
      } else {
        rmvl := rmvl + [i];
        break;
      }
      j := j + 1;
    }
  }

  /** The nested loop of removal() that builds daml: for each y in resl, in
      order, every z in damfc whose suffix matches y's. */
  method PairDams(resl: seq<string>, damfc: seq<string>) returns (daml: seq<string>)
    ensures daml == DamsFor(resl, damfc)
  {
    daml := [];
    var k := 0;
    while k < |resl|
      invariant k <= |resl|
      invariant daml == DamsFor(resl[..k], damfc)
    {
      var ms := MatchDams(damfc, resl[k]);
      daml := daml + ms;
      assert resl[..k + 1][..k] == resl[..k];
      k := k + 1;
    }
    assert resl[..k] == resl;
  }

  /** The inner loop of the daml construction: the dams whose suffix matches y's. */
  method MatchDams(damfc: seq<string>, y: string) returns (ms: seq<string>)
    ensures ms == Matching(damfc, LastField(y))
  {
    ms := [];
    var m := 0;
    while m < |damfc|
      invariant m <= |damfc|
      invariant ms == Matching(damfc[..m], LastField(y))
    {
      var z := damfc[m];
      if LastField(z) == LastField(y) {
        ms := ms + [z];
      }
      assert damfc[..m + 1][..m] == damfc[..m];
      m := m + 1;
    }
    assert damfc[..m] == damfc;
  }
}
