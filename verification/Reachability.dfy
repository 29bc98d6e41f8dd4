/** Reachability in a finite graph, for commit ancestry and for the trees garbage collection keeps. */
module Reachability {

  /** The successors of each node; a node without an entry is a leaf. */
  type Graph<T> = map<T, set<T>>

  function Successors<T>(g: Graph<T>, x: T): set<T> {
    if x in g then g[x] else {}
  }

  ghost predicate Walk<T>(g: Graph<T>, w: seq<T>) {
    w != [] && forall i :: 0 <= i < |w| - 1 ==> w[i + 1] in Successors(g, w[i])
  }

  ghost predicate WalkBetween<T>(g: Graph<T>, w: seq<T>, a: T, b: T) {
    Walk(g, w) && w[0] == a && w[|w| - 1] == b
  }

  /** Reachability by a walk of any length, including the empty one. */
  ghost predicate Reaches<T(!new)>(g: Graph<T>, a: T, b: T) {
    exists w: seq<T> :: WalkBetween(g, w, a, b)
  }

  lemma ReachesItself<T(!new)>(g: Graph<T>, a: T)
    ensures Reaches(g, a, a)
  {
    assert WalkBetween(g, [a], a, a);
  }

  lemma ReachesStep<T(!new)>(g: Graph<T>, a: T, b: T, c: T)
    requires Reaches(g, a, b) && c in Successors(g, b)
    ensures Reaches(g, a, c)
  {
    var w :| WalkBetween(g, w, a, b);
    assert WalkBetween(g, w + [c], a, c);
  }

  lemma ReachesTransitive<T(!new)>(g: Graph<T>, a: T, b: T, c: T)
    requires Reaches(g, a, b) && Reaches(g, b, c)
    ensures Reaches(g, a, c)
  {
    var v :| WalkBetween(g, v, a, b);
    var w :| WalkBetween(g, w, b, c);
    var u := v + w[1..];
    forall i | 0 <= i < |u| - 1 ensures u[i + 1] in Successors(g, u[i]) {
      if i >= |v| - 1 { assert u[i] == w[i - |v| + 1] && u[i + 1] == w[i - |v| + 2]; }
    }
    assert WalkBetween(g, u, a, c);
  }

  ghost predicate Closed<T>(g: Graph<T>, s: set<T>) {
    forall x :: x in s ==> Successors(g, x) <= s
  }

  /** A walk cannot leave a closed set. */
  lemma {:induction false} WalkStaysInside<T>(g: Graph<T>, s: set<T>, w: seq<T>)
    requires Closed(g, s) && Walk(g, w) && w[0] in s
    ensures w[|w| - 1] in s
  {
    if |w| > 1 {
      var v := w[1..];
      forall i | 0 <= i < |v| - 1 ensures v[i + 1] in Successors(g, v[i]) {
        assert w[i + 2] in Successors(g, w[i + 1]);
      }
      assert w[0 + 1] in Successors(g, w[0]);
      WalkStaysInside(g, s, v);
    }
  }

  lemma ClosedContainsReached<T(!new)>(g: Graph<T>, s: set<T>, a: T, b: T)
    requires Closed(g, s) && a in s && Reaches(g, a, b)
    ensures b in s
  {
    var w :| WalkBetween(g, w, a, b);
    WalkStaysInside(g, s, w);
  }

  /** The roots together with every node the graph mentions. */
  ghost function Universe<T>(g: Graph<T>, roots: set<T>): set<T> {
    roots + g.Keys + set x, y | x in g && y in g[x] :: y
  }

  lemma UniverseClosed<T>(g: Graph<T>, roots: set<T>)
    ensures Closed(g, Universe(g, roots))
  {
  }

  ghost predicate ReachedBySome<T(!new)>(g: Graph<T>, roots: set<T>, x: T) {
    exists r :: r in roots && Reaches(g, r, x)
  }

  /** Everything the roots reach, as a finite set. */
  ghost function ReachedFrom<T(!new)>(g: Graph<T>, roots: set<T>): set<T> {
    set x | x in Universe(g, roots) && ReachedBySome(g, roots, x)
  }

  lemma ReachedFromMembers<T(!new)>(g: Graph<T>, roots: set<T>)
    ensures forall x :: x in ReachedFrom(g, roots) <==> ReachedBySome(g, roots, x)
  {
    forall x | ReachedBySome(g, roots, x) ensures x in ReachedFrom(g, roots) {
      var r :| r in roots && Reaches(g, r, x);
      UniverseClosed(g, roots);
      ClosedContainsReached(g, Universe(g, roots), r, x);
    }
  }

  /** A closed set containing the roots, all of it reached from them, is exactly what they reach. */
  lemma ClosureIsExact<T(!new)>(g: Graph<T>, roots: set<T>, s: set<T>)
    requires roots <= s && Closed(g, s)
    requires forall x :: x in s ==> ReachedBySome(g, roots, x)
    ensures s == ReachedFrom(g, roots)
  {
    ReachedFromMembers(g, roots);
    hide ReachedFrom, Universe, Closed, Reaches;
    forall x | x in ReachedFrom(g, roots) ensures x in s {
      var r :| r in roots && Reaches(g, r, x);
      ClosedContainsReached(g, s, r, x);
    }
  }

  lemma ReachedFromClosed<T(!new)>(g: Graph<T>, roots: set<T>)
    ensures roots <= ReachedFrom(g, roots) && Closed(g, ReachedFrom(g, roots))
  {
    hide ReachedFrom, Reaches;
    ReachedFromMembers(g, roots);
    forall r | r in roots ensures r in ReachedFrom(g, roots) { ReachesItself(g, r); }
    forall x, y | x in ReachedFrom(g, roots) && y in Successors(g, x) ensures y in ReachedFrom(g, roots) {
      var r :| r in roots && Reaches(g, r, x);
      ReachesStep(g, r, x, y);
    }
  }

  lemma ReachedFromLeast<T(!new)>(g: Graph<T>, roots: set<T>, s: set<T>)
    requires roots <= s && Closed(g, s)
    ensures ReachedFrom(g, roots) <= s
  {
    hide Reaches, Closed, ReachedFrom;
    ReachedFromMembers(g, roots);
    forall x | x in ReachedFrom(g, roots) ensures x in s {
      var r :| r in roots && Reaches(g, r, x);
      ClosedContainsReached(g, s, r, x);
    }
  }

  /** Two graphs that agree on what one of them reaches reach the same. */
  lemma SameReach<T(!new)>(g: Graph<T>, h: Graph<T>, roots: set<T>)
    requires forall x :: x in ReachedFrom(g, roots) ==> Successors(h, x) == Successors(g, x)
    ensures ReachedFrom(h, roots) == ReachedFrom(g, roots)
  {
    hide ReachedFrom, Successors;
    ReachedFromClosed(g, roots);
    ReachedFromClosed(h, roots);
    ReachedFromLeast(h, roots, ReachedFrom(g, roots));
    ReachedFromLeast(g, roots, ReachedFrom(h, roots));
  }
}
