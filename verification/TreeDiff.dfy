/** Differences between two trees, and updating a tree by a list of changes. */
module TreeDiff {
  import opened Objects

  function Find<T>(m: map<Path, T>, p: Path): Option<T> {
    if p in m then Some(m[p]) else None
  }

  lemma SameFinds<T>(m: map<Path, T>, n: map<Path, T>)
    requires forall p :: Find(m, p) == Find(n, p)
    ensures m == n
  {
    forall p ensures p in m <==> p in n { assert Find(m, p) == Find(n, p); }
    forall p | p in m ensures m[p] == n[p] { assert Find(m, p) == Find(n, p); }
  }

  type Change = (Path, Option<Entry>)

  function Applied(base: Tree, changes: seq<Change>): Tree {
    if changes == [] then base
    else
      var t, (p, e) := Applied(base, changes[..|changes| - 1]), changes[|changes| - 1];
      if e.Some? then t[p := e.value] else t - {p}
  }

  /** `update_entries`: the base itself is not changed. */
  method UpdateEntries(base: Tree, changes: seq<Change>) returns (t: Tree)
    ensures t == Applied(base, changes)
  {
    t := base;
    for i := 0 to |changes|
      invariant t == Applied(base, changes[..i])
    {
      assert changes[..i + 1][..i] == changes[..i];
      var (p, e) := changes[i];
      match e
      case Some(entry) => t := t[p := entry];
      case None => t := t - {p};
    }
    assert changes[..|changes|] == changes;
  }

  /** The findings of a comparison, by path. */
  datatype Diff = Diff(added: map<Path, Entry>, removed: map<Path, Entry>, modified: map<Path, (Entry, Entry)>)

  function DiffOf(old_: Tree, new_: Tree): Diff {
    Diff(
      map p | p in new_ && p !in old_ :: new_[p],
      map p | p in old_ && p !in new_ :: old_[p],
      map p | p in new_ && p in old_ && old_[p] != new_[p] :: (old_[p], new_[p]))
  }

  /** The pass over the new entries. */
  method CompareNew(old_: Tree, new_: Tree) returns (added: map<Path, Entry>, modified: map<Path, (Entry, Entry)>)
    ensures added == DiffOf(old_, new_).added && modified == DiffOf(old_, new_).modified
  {
    added, modified := map[], map[];
    var rest := new_.Keys;
    while rest != {}
      invariant rest <= new_.Keys
      invariant added == map p | p in new_ && p !in rest && p !in old_ :: new_[p]
      invariant modified == map p | p in new_ && p !in rest && p in old_ && old_[p] != new_[p] :: (old_[p], new_[p])
      decreases |rest|
    {
      var p :| p in rest;
      if p in old_ {
        if old_[p] != new_[p] { modified := modified[p := (old_[p], new_[p])]; }
      } else {
        added := added[p := new_[p]];
      }
      rest := rest - {p};
    }
  }

  /** The pass over the old entries. */
  method CompareOld(old_: Tree, new_: Tree) returns (removed: map<Path, Entry>)
    ensures removed == DiffOf(old_, new_).removed
  {
    removed := map[];
    var rest := old_.Keys;
    while rest != {}
      invariant rest <= old_.Keys
      invariant removed == map p | p in old_ && p !in rest && p !in new_ :: old_[p]
      decreases |rest|
    {
      var p :| p in rest;
      if p !in new_ { removed := removed[p := old_[p]]; }
      rest := rest - {p};
    }
  }

  /** `diff`: one pass over the new entries, one over the old. */
  method Compare(old_: Tree, new_: Tree) returns (d: Diff)
    ensures d == DiffOf(old_, new_)
  {
    var added, modified := CompareNew(old_, new_);
    var removed := CompareOld(old_, new_);
    d := Diff(added, removed, modified);
  }

  function Touched(d: Diff): set<Path> {
    d.added.Keys + d.removed.Keys + d.modified.Keys
  }

  /** Exactly the paths whose entries differ, each in exactly one of the three lists. */
  lemma TouchedExactly(old_: Tree, new_: Tree)
    ensures var d := DiffOf(old_, new_);
            && (forall p :: p in Touched(d) <==> Find(old_, p) != Find(new_, p))
            && d.added.Keys !! d.removed.Keys !! d.modified.Keys
            && (Touched(d) == {} <==> old_ == new_)
  {
    var d := DiffOf(old_, new_);
    if Touched(d) == {} {
      forall p ensures Find(old_, p) == Find(new_, p) {
        assert Find(old_, p) != Find(new_, p) ==> p in Touched(d);
      }
      SameFinds(old_, new_);
    }
  }

  /**
   Any list of changes that sets paths to their new state and misses no difference turns the
   old tree into the new one; the diff is such a list, in any order.
   */
  lemma {:induction false} AppliedAt(base: Tree, changes: seq<Change>, target: Tree, p: Path)
    requires forall c :: c in changes ==> c.1 == Find(target, c.0)
    ensures Find(Applied(base, changes), p) ==
            if exists c :: c in changes && c.0 == p then Find(target, p) else Find(base, p)
  {
    if changes != [] {
      var init, last := changes[..|changes| - 1], changes[|changes| - 1];
      assert changes == init + [last];
      AppliedAt(base, init, target, p);
      assert last in changes;
    }
  }

  /** Of several changes to one path the last one counts. */
  lemma {:induction false} LastChangeWins(base: Tree, changes: seq<Change>, i: nat)
    requires i < |changes| && forall j :: i < j < |changes| ==> changes[j].0 != changes[i].0
    ensures Find(Applied(base, changes), changes[i].0) == changes[i].1
  {
    if i < |changes| - 1 {
      var init := changes[..|changes| - 1];
      assert init[i] == changes[i];
      LastChangeWins(base, init, i);
    }
  }

  lemma DiffRebuilds(old_: Tree, new_: Tree, changes: seq<Change>)
    requires forall c :: c in changes ==> c.0 in Touched(DiffOf(old_, new_)) && c.1 == Find(new_, c.0)
    requires forall p :: p in Touched(DiffOf(old_, new_)) ==> exists c :: c in changes && c.0 == p
    ensures Applied(old_, changes) == new_
  {
    TouchedExactly(old_, new_);
    forall p ensures Find(Applied(old_, changes), p) == Find(new_, p) {
      AppliedAt(old_, changes, new_, p);
    }
    SameFinds(Applied(old_, changes), new_);
  }

  /** The findings hold the entries of both sides: they lead from the old tree to the new one and back. */
  lemma DiffIsInvertible(old_: Tree, new_: Tree)
    ensures var d := DiffOf(old_, new_);
            && old_ - d.removed.Keys + d.added + (map p | p in d.modified :: d.modified[p].1) == new_
            && new_ - d.added.Keys + d.removed + (map p | p in d.modified :: d.modified[p].0) == old_
  {
  }
}
