/**
 Mark and sweep over the checkpoint journal: retention decides which checkpoints live,
 a depth-first walk with one shared visited set marks the trees and blobs they need,
 and the sweep deletes the rest.
 */
module GarbageCollection {
  import opened Objects
  import opened JournalLog
  import opened Reachability
  import S = ObjectStore

  datatype Policy = Policy(retainDenseCount: nat, retainDenseWindowMs: nat, retainPins: bool)

  // ---------------------------------------------------------------- which checkpoints live

  function Ids(log: seq<Checkpoint>): set<Ulid> {
    set cp | cp in log :: cp.id
  }

  function Cutoff(policy: Policy, nowMs: nat): nat {
    if nowMs >= policy.retainDenseWindowMs then nowMs - policy.retainDenseWindowMs else 0
  }

  function RecentIds(log: seq<Checkpoint>, cutoffMs: nat): set<Ulid> {
    set cp | cp in log && TimestampMs(cp.id) >= cutoffMs :: cp.id
  }

  /** Pinned, in a workspace, among the last N, or inside the time window. */
  function LiveIds(policy: Policy, pins: set<Ulid>, workspaces: set<Ulid>, nowMs: nat,
      log: seq<Checkpoint>): set<Ulid> {
    (if policy.retainPins then pins else {}) + workspaces
    + Ids(Suffix(log, policy.retainDenseCount)) + RecentIds(log, Cutoff(policy, nowMs))
  }

  /**
   What the policy promises to keep: the pinned checkpoints, if pins are retained, those of a
   workspace, those that fewer than the dense count follow, and those inside the time window.
   */
  ghost predicate Retained(policy: Policy, pins: set<Ulid>, workspaces: set<Ulid>, nowMs: nat, log: seq<Checkpoint>,
                           cp: Checkpoint) {
    || (policy.retainPins && cp.id in pins)
    || cp.id in workspaces
    || (exists i :: 0 <= i < |log| && log[i] == cp && |log| - 1 - i < policy.retainDenseCount)
    || nowMs <= TimestampMs(cp.id) + policy.retainDenseWindowMs
  }

  /** Exactly the checkpoints that the policy promises to keep are left. */
  ghost predicate KeepsRetained(policy: Policy, pins: set<Ulid>, workspaces: set<Ulid>, nowMs: nat,
                                log: seq<Checkpoint>, left: seq<Checkpoint>) {
    forall cp :: cp in left <==> cp in log && Retained(policy, pins, workspaces, nowMs, log, cp)
  }

  lemma InSuffix(log: seq<Checkpoint>, k: nat, cp: Checkpoint)
    ensures cp in Suffix(log, k) <==> exists i :: 0 <= i < |log| && log[i] == cp && |log| - 1 - i < k
  {
    if i :| 0 <= i < |log| && log[i] == cp && |log| - 1 - i < k {
      assert Suffix(log, k)[i - (|log| - |Suffix(log, k)|)] == cp;
    }
    if cp in Suffix(log, k) {
      var n :| 0 <= n < |Suffix(log, k)| && Suffix(log, k)[n] == cp;
      assert log[n + (|log| - |Suffix(log, k)|)] == cp;
    }
  }

  lemma LiveExactly(policy: Policy, pins: set<Ulid>, workspaces: set<Ulid>, nowMs: nat, j: State, cp: Checkpoint)
    requires Valid(j) && cp in Log(j)
    ensures cp.id in LiveIds(policy, pins, workspaces, nowMs, Log(j)) <==>
            Retained(policy, pins, workspaces, nowMs, Log(j), cp)
  {
    var log := Log(j);
    LogMembers(j);
    assert forall c: Checkpoint :: c in log && c.id == cp.id ==> c == cp;
    hide Log, IndexInverse, Readable, Seqs, TimestampMs;
    InSuffix(log, policy.retainDenseCount, cp);
    assert forall c: Checkpoint :: c in Suffix(log, policy.retainDenseCount) ==> c in log;
    hide Suffix;
    assert cp.id in Ids(Suffix(log, policy.retainDenseCount)) <==> cp in Suffix(log, policy.retainDenseCount);
    assert cp.id in RecentIds(log, Cutoff(policy, nowMs)) <==> TimestampMs(cp.id) >= Cutoff(policy, nowMs);
  }

  method MarkLiveCheckpoints(policy: Policy, journal: Journal, pins: set<Ulid>, workspaces: Option<set<Ulid>>,
      nowMs: nat)
    returns (live: set<Ulid>)
    requires Valid(journal.Value())
    ensures live == LiveIds(policy, pins, if workspaces.Some? then workspaces.value else {}, nowMs,
                            Log(journal.Value()))
  {
    live := {};
    if policy.retainPins { live := live + pins; }
    if workspaces.Some? { live := live + workspaces.value; }
    var recent := journal.LastN(policy.retainDenseCount);
    live := live + Ids(recent);
    var since := journal.Since(Cutoff(policy, nowMs));
    live := live + Ids(since);
    assert Ids(since) == RecentIds(Log(journal.Value()), Cutoff(policy, nowMs));
  }

  // ---------------------------------------------------------------- what they need

  function Subtrees(t: Tree): set<Hash> {
    set n | n in t && t[n].kind.Subtree? :: t[n].hash
  }

  function FileBlobs(t: Tree): set<Hash> {
    set n | n in t && !t[n].kind.Subtree? :: t[n].hash
  }

  /** Every tree the store can read, from cache or disk. */
  function Trees(codec: S.Codec, s: S.State): map<Hash, Tree> {
    map h | h in s.disk.Keys + s.cache.Keys && S.Lookup(codec, s, h).Ok? :: S.Lookup(codec, s, h).value
  }

  function TreeGraph(trees: map<Hash, Tree>): Graph<Hash> {
    map h | h in trees :: Subtrees(trees[h])
  }

  ghost function Roots(j: State, live: set<Ulid>): set<Hash>
    requires IndexInverse(j.db, j.index)
  {
    set id | id in live && id in j.index :: j.db[Seq(j.index[id])].checkpoint.rootTree
  }

  ghost function LiveTrees(trees: map<Hash, Tree>, roots: set<Hash>): set<Hash> {
    ReachedFrom(TreeGraph(trees), roots)
  }

  /** The blobs present in the store that the given trees refer to. */
  function BlobsOf(trees: map<Hash, Tree>, marked: set<Hash>, present: set<Hash>): set<Hash> {
    set h, b | h in marked && h in trees && b in FileBlobs(trees[h]) && b in present :: b
  }

  function Present(s: S.State): set<Hash> {
    s.blobCache + s.blobs.Keys
  }

  lemma LookupIsTrees(codec: S.Codec, s: S.State, h: Hash)
    ensures S.Lookup(codec, s, h) == if h in Trees(codec, s) then Ok(Trees(codec, s)[h]) else Err
  {
  }

  /** Reading fills the cache but never changes what can be read. */
  lemma ReadKeepsTrees(codec: S.Codec, s: S.State, h: Hash)
    ensures Trees(codec, S.AfterRead(codec, s, h)) == Trees(codec, s)
  {
    var s' := S.AfterRead(codec, s, h);
    forall g ensures S.Lookup(codec, s', g) == S.Lookup(codec, s, g) { }
    forall g ensures g in Trees(codec, s') <==> g in Trees(codec, s) {
      LookupIsTrees(codec, s, g);
      LookupIsTrees(codec, s', g);
    }
  }

  // ---------------------------------------------------------------- marking

  /** The store may only have cached what it could read already. */
  ghost predicate SameObjects(codec: S.Codec, s: S.State, s': S.State) {
    && s'.disk == s.disk && s'.blobs == s.blobs && s'.blobCache == s.blobCache
    && s.cache.Keys <= s'.cache.Keys
    && Trees(codec, s') == Trees(codec, s)
  }

  /** What one call adds: readable trees reached from `root`, closed apart from what was marked before. */
  ghost predicate MarkedFrom(trees: map<Hash, Tree>, root: Hash, before: set<Hash>, after: set<Hash>) {
    && before <= after && root in after
    && after - before <= trees.Keys
    && (forall h :: h in after - before ==> Subtrees(trees[h]) <= after)
    && (forall h :: h in after - before ==> Reaches(TreeGraph(trees), root, h))
  }

  ghost predicate Unreadable(trees: map<Hash, Tree>, root: Hash) {
    exists h :: h !in trees && Reaches(TreeGraph(trees), root, h)
  }

  lemma ChildReached(trees: map<Hash, Tree>, root: Hash, child: Hash, h: Hash)
    requires root in trees && child in Subtrees(trees[root])
    requires Reaches(TreeGraph(trees), child, h)
    ensures Reaches(TreeGraph(trees), root, h)
  {
    var g := TreeGraph(trees);
    ReachesItself(g, root);
    ReachesStep(g, root, root, child);
    ReachesTransitive(g, root, child, h);
  }

  /** The walk inside `root`'s tree, when the entries named in `done` have been handled. */
  ghost predicate Marking(
    trees: map<Hash, Tree>, root: Hash, t0: set<Hash>, b0: set<Hash>, t: set<Hash>, b: set<Hash>,
    done: set<Path>, present: set<Hash>)
  {
    && root in trees && root !in t0 && t0 + {root} <= t
    && t - t0 <= trees.Keys
    && (forall h :: h in t - t0 - {root} ==> Subtrees(trees[h]) <= t)
    && (forall h :: h in t - t0 ==> Reaches(TreeGraph(trees), root, h))
    && (forall n :: n in done && n in trees[root] && trees[root][n].kind.Subtree? ==> trees[root][n].hash in t)
    && b == b0 + BlobsOf(trees, t - t0 - {root}, present) + BlobsIn(trees[root], done, present)
  }

  lemma MarkingStarts(trees: map<Hash, Tree>, root: Hash, t0: set<Hash>, b0: set<Hash>, present: set<Hash>)
    requires root in trees && root !in t0
    ensures Marking(trees, root, t0, b0, t0 + {root}, b0, {}, present)
  {
    ReachesItself(TreeGraph(trees), root);
    assert (t0 + {root}) - t0 - {root} == {};
    assert BlobsOf(trees, {}, present) == {};
  }

  lemma MarkingSubtree(
    trees: map<Hash, Tree>, root: Hash, t0: set<Hash>, b0: set<Hash>, t: set<Hash>, b: set<Hash>,
    done: set<Path>, present: set<Hash>, n: Path, t': set<Hash>, b': set<Hash>)
    requires Marking(trees, root, t0, b0, t, b, done, present)
    requires n in trees[root] && trees[root][n].kind.Subtree?
    requires MarkedFrom(trees, trees[root][n].hash, t, t')
    requires b' == b + BlobsOf(trees, t' - t, present)
    ensures Marking(trees, root, t0, b0, t', b', done + {n}, present)
  {
    var child := trees[root][n].hash;
    assert child in Subtrees(trees[root]);
    forall h | h in t' - t0 ensures Reaches(TreeGraph(trees), root, h) {
      if h !in t { ChildReached(trees, root, child, h); }
    }
    BlobsOfUnion(trees, t - t0 - {root}, t' - t, present);
    assert (t - t0 - {root}) + (t' - t) == t' - t0 - {root};
    BlobsInStep(trees[root], done, n, present);
  }

  lemma MarkingBlob(
    trees: map<Hash, Tree>, root: Hash, t0: set<Hash>, b0: set<Hash>, t: set<Hash>, b: set<Hash>,
    done: set<Path>, present: set<Hash>, n: Path)
    requires Marking(trees, root, t0, b0, t, b, done, present)
    requires n in trees[root] && !trees[root][n].kind.Subtree?
    ensures Marking(trees, root, t0, b0, t,
                    if trees[root][n].hash in present then b + {trees[root][n].hash} else b, done + {n}, present)
  {
    BlobsInStep(trees[root], done, n, present);
  }

  lemma MarkingEnds(
    trees: map<Hash, Tree>, root: Hash, t0: set<Hash>, b0: set<Hash>, t: set<Hash>, b: set<Hash>, present: set<Hash>)
    requires root in trees && Marking(trees, root, t0, b0, t, b, trees[root].Keys, present)
    ensures MarkedFrom(trees, root, t0, t)
    ensures b == b0 + BlobsOf(trees, t - t0, present)
  {
    BlobsInAll(trees, root, present);
    BlobsOfUnion(trees, t - t0 - {root}, {root}, present);
    assert (t - t0 - {root}) + {root} == t - t0;
  }

  lemma AlreadyMarked(trees: map<Hash, Tree>, root: Hash, t: set<Hash>, b: set<Hash>, present: set<Hash>)
    requires root in t
    ensures MarkedFrom(trees, root, t, t) && b == b + BlobsOf(trees, t - t, present)
  {
    assert BlobsOf(trees, t - t, present) == {};
  }

  lemma MissingIsUnreadable(trees: map<Hash, Tree>, root: Hash)
    requires root !in trees
    ensures Unreadable(trees, root)
  {
    ReachesItself(TreeGraph(trees), root);
  }

  lemma UnreadableChild(trees: map<Hash, Tree>, root: Hash, child: Hash)
    requires root in trees && child in Subtrees(trees[root]) && Unreadable(trees, child)
    ensures Unreadable(trees, root)
  {
    var h :| h !in trees && Reaches(TreeGraph(trees), child, h);
    ChildReached(trees, root, child, h);
  }

  /** `mark_tree_recursive`; terminates on any graph because each call that reads marks a new readable tree. */
  method MarkTree(store: S.Store, ghost trees: map<Hash, Tree>, root: Hash, liveTrees: set<Hash>, liveBlobs: set<Hash>)
    returns (ok: bool, liveTrees': set<Hash>, liveBlobs': set<Hash>)
    requires trees == Trees(store.codec, store.Value())
    modifies store`cache
    ensures SameObjects(store.codec, old(store.Value()), store.Value())
    ensures ok ==> MarkedFrom(trees, root, liveTrees, liveTrees')
    ensures ok ==> liveBlobs' == liveBlobs + BlobsOf(trees, liveTrees' - liveTrees, Present(store.Value()))
    ensures !ok ==> Unreadable(trees, root)
    decreases trees.Keys - liveTrees
  {
    hide Trees, TreeGraph, BlobsOf, BlobsIn, Marking, Unreadable, MarkedFrom, S.Lookup, S.AfterRead;
    ghost var present := Present(store.Value());
    liveTrees', liveBlobs' := liveTrees, liveBlobs;
    if root in liveTrees {
      AlreadyMarked(trees, root, liveTrees, liveBlobs, present);
      return true, liveTrees', liveBlobs';
    }
    liveTrees' := liveTrees' + {root};
    var tree, read := ReadMarked(store, root);
    if !read {
      MissingIsUnreadable(trees, root);
      return false, liveTrees', liveBlobs';
    }
    MarkingStarts(trees, root, liveTrees, liveBlobs, present);
    var names := tree.Keys;
    ghost var done: set<Path> := {};
    while names != {}
      invariant names + done == tree.Keys && names !! done
      invariant SameObjects(store.codec, old(store.Value()), store.Value())
      invariant liveTrees + {root} <= liveTrees'
      invariant Marking(trees, root, liveTrees, liveBlobs, liveTrees', liveBlobs', done, present)
      decreases |names|
    {
      var n :| n in names;
      var entry := tree[n];
      ghost var t, b := liveTrees', liveBlobs';
      if entry.kind.Subtree? {
        assert entry.hash in Subtrees(tree);
        ok, liveTrees', liveBlobs' := MarkTree(store, trees, entry.hash, liveTrees', liveBlobs');
        if !ok {
          UnreadableChild(trees, root, entry.hash);
          return;
        }
        MarkingSubtree(trees, root, liveTrees, liveBlobs, t, b, done, present, n, liveTrees', liveBlobs');
        MarkedGrows(trees, entry.hash, t, liveTrees');
      } else {
        if entry.hash in store.blobCache || entry.hash in store.blobs {
          liveBlobs' := liveBlobs' + {entry.hash};
        }
        MarkingBlob(trees, root, liveTrees, liveBlobs, t, b, done, present, n);
      }
      names, done := names - {n}, done + {n};
    }
    ok := true;
    assert done == tree.Keys;
    MarkingEnds(trees, root, liveTrees, liveBlobs, liveTrees', liveBlobs', present);
  }

  lemma MarkedGrows(trees: map<Hash, Tree>, root: Hash, before: set<Hash>, after: set<Hash>)
    requires MarkedFrom(trees, root, before, after)
    ensures before <= after
  {
  }

  /** Reading a tree for marking: the store's objects stay as they are. */
  method ReadMarked(store: S.Store, root: Hash) returns (tree: Tree, read: bool)
    modifies store`cache
    ensures SameObjects(store.codec, old(store.Value()), store.Value())
    ensures read <==> root in Trees(store.codec, old(store.Value()))
    ensures read ==> tree == Trees(store.codec, old(store.Value()))[root]
  {
    LookupIsTrees(store.codec, store.Value(), root);
    ReadKeepsTrees(store.codec, store.Value(), root);
    hide Trees;
    var r := store.ReadTree(root);
    read := r.Ok?;
    tree := if r.Ok? then r.value else map[];
  }

  function BlobsIn(t: Tree, names: set<Path>, present: set<Hash>): set<Hash> {
    set n | n in names && n in t && !t[n].kind.Subtree? && t[n].hash in present :: t[n].hash
  }

  lemma BlobsInStep(t: Tree, names: set<Path>, n: Path, present: set<Hash>)
    requires n in t
    ensures BlobsIn(t, names + {n}, present) ==
            BlobsIn(t, names, present) + if !t[n].kind.Subtree? && t[n].hash in present then {t[n].hash} else {}
  {
  }

  lemma BlobsInAll(trees: map<Hash, Tree>, h: Hash, present: set<Hash>)
    requires h in trees
    ensures BlobsIn(trees[h], trees[h].Keys, present) == BlobsOf(trees, {h}, present)
  {
    forall b | b in BlobsOf(trees, {h}, present) ensures b in BlobsIn(trees[h], trees[h].Keys, present) { }
    forall b | b in BlobsIn(trees[h], trees[h].Keys, present) ensures b in BlobsOf(trees, {h}, present) {
      assert b in FileBlobs(trees[h]);
    }
  }

  lemma BlobsOfUnion(trees: map<Hash, Tree>, a: set<Hash>, b: set<Hash>, present: set<Hash>)
    ensures BlobsOf(trees, a + b, present) == BlobsOf(trees, a, present) + BlobsOf(trees, b, present)
  {
  }

  // ---------------------------------------------------------------- marking from all live checkpoints

  ghost predicate MarkedAll(trees: map<Hash, Tree>, roots: set<Hash>, t: set<Hash>, b: set<Hash>, present: set<Hash>) {
    && roots <= t && t <= trees.Keys && Closed(TreeGraph(trees), t)
    && (forall h :: h in t ==> ReachedBySome(TreeGraph(trees), roots, h))
    && b == BlobsOf(trees, t, present)
  }

  lemma MarkedAllStarts(trees: map<Hash, Tree>, present: set<Hash>)
    ensures MarkedAll(trees, {}, {}, {}, present)
  {
    assert BlobsOf(trees, {}, present) == {};
  }

  lemma MarkedAllStep(
    trees: map<Hash, Tree>, roots: set<Hash>, t: set<Hash>, b: set<Hash>, present: set<Hash>,
    root: Hash, t': set<Hash>, b': set<Hash>)
    requires MarkedAll(trees, roots, t, b, present)
    requires MarkedFrom(trees, root, t, t') && b' == b + BlobsOf(trees, t' - t, present)
    ensures MarkedAll(trees, roots + {root}, t', b', present)
  {
    hide BlobsOf, TreeGraph, ReachedBySome, Closed;
    BlobsOfUnion(trees, t, t' - t, present);
    assert t + (t' - t) == t';
    MarkedStepCloses(trees, root, t, t');
    MarkedStepReaches(trees, roots, root, t, t');
  }

  lemma MarkedStepReaches(trees: map<Hash, Tree>, roots: set<Hash>, root: Hash, t: set<Hash>, t': set<Hash>)
    requires forall h :: h in t ==> ReachedBySome(TreeGraph(trees), roots, h)
    requires MarkedFrom(trees, root, t, t')
    ensures forall h :: h in t' ==> ReachedBySome(TreeGraph(trees), roots + {root}, h)
  {
    hide TreeGraph, Reaches;
    var g := TreeGraph(trees);
    forall h | h in t' ensures ReachedBySome(g, roots + {root}, h) {
      if h in t {
        ReachedByMore(g, roots, root, h);
      } else {
        assert root in roots + {root} && Reaches(g, root, h);
      }
    }
  }

  lemma ReachedByMore(g: Graph<Hash>, roots: set<Hash>, root: Hash, h: Hash)
    requires ReachedBySome(g, roots, h)
    ensures ReachedBySome(g, roots + {root}, h)
  {
    var r :| r in roots && Reaches(g, r, h);
    assert r in roots + {root};
  }

  lemma MarkedStepCloses(trees: map<Hash, Tree>, root: Hash, t: set<Hash>, t': set<Hash>)
    requires Closed(TreeGraph(trees), t) && MarkedFrom(trees, root, t, t')
    ensures Closed(TreeGraph(trees), t')
  {
    hide TreeGraph, Reaches;
    forall h | h in t' ensures Successors(TreeGraph(trees), h) <= t' {
      GraphSuccessors(trees, h);
    }
  }

  lemma GraphSuccessors(trees: map<Hash, Tree>, h: Hash)
    ensures Successors(TreeGraph(trees), h) == if h in trees then Subtrees(trees[h]) else {}
  {
  }

  /** What a finished mark phase means: exactly what the roots reach, and all of it readable. */
  lemma MarkedAllMeans(trees: map<Hash, Tree>, roots: set<Hash>, t: set<Hash>, b: set<Hash>, present: set<Hash>)
    requires MarkedAll(trees, roots, t, b, present)
    ensures t == LiveTrees(trees, roots) && t <= trees.Keys
    ensures forall r :: r in roots ==> !Unreadable(trees, r)
  {
    hide TreeGraph, Reaches, Closed, ReachedFrom, ReachedBySome, BlobsOf;
    var g := TreeGraph(trees);
    ClosureIsExact(g, roots, t);
    forall r | r in roots ensures !Unreadable(trees, r) {
      if Unreadable(trees, r) {
        var h :| h !in trees && Reaches(g, r, h);
        ClosedContainsReached(g, t, r, h);
      }
    }
  }

  lemma NoRoots(j: State)
    requires Valid(j)
    ensures Roots(j, {}) == {}
  {
  }

  lemma RootsInclude(j: State, live: set<Ulid>, id: Ulid)
    requires Valid(j) && id in live
    ensures RootOf(j, id) <= Roots(j, live)
  {
  }

  lemma RootsStep(j: State, done: set<Ulid>, id: Ulid)
    requires Valid(j)
    ensures Roots(j, done + {id}) == Roots(j, done) + RootOf(j, id)
  {
  }

  /** A checkpoint as the journal hands it out, next to the index it came from. */
  method GetIndexed(journal: Journal, id: Ulid) returns (r: Option<Checkpoint>)
    requires Valid(journal.Value())
    ensures r == if id in journal.index then Some(journal.db[Seq(journal.index[id])].checkpoint) else None
  {
    LogMembers(journal.Value());
    FreshIdNotIndexed(journal.Value(), id);
    var got := journal.Get(id);
    r := got.value;
  }

  ghost function RootOf(j: State, id: Ulid): set<Hash>
    requires IndexInverse(j.db, j.index)
  {
    if id in j.index then {j.db[Seq(j.index[id])].checkpoint.rootTree} else {}
  }

  /** One round of `mark_live_objects`: a live id that is no longer in the journal is skipped. */
  method MarkCheckpoint(
    id: Ulid, journal: Journal, store: S.Store, ghost trees: map<Hash, Tree>, ghost roots: set<Hash>,
    liveTrees: set<Hash>, liveBlobs: set<Hash>)
    returns (ok: bool, liveTrees': set<Hash>, liveBlobs': set<Hash>)
    requires Valid(journal.Value())
    requires trees == Trees(store.codec, store.Value())
    requires MarkedAll(trees, roots, liveTrees, liveBlobs, Present(store.Value()))
    modifies store`cache
    ensures SameObjects(store.codec, old(store.Value()), store.Value())
    ensures ok ==> MarkedAll(trees, roots + RootOf(journal.Value(), id), liveTrees', liveBlobs', Present(store.Value()))
    ensures !ok ==> exists r :: r in RootOf(journal.Value(), id) && Unreadable(trees, r)
  {
    var checkpoint := GetIndexed(journal, id);
    hide Trees, TreeGraph, BlobsOf, MarkedAll, MarkedFrom, Unreadable, IndexInverse;
    ok, liveTrees', liveBlobs' := true, liveTrees, liveBlobs;
    if checkpoint.Some? {
      var root := checkpoint.value.rootTree;
      ghost var present := Present(store.Value());
      assert root in RootOf(journal.Value(), id);
      ok, liveTrees', liveBlobs' := MarkTree(store, trees, root, liveTrees, liveBlobs);
      if ok { MarkedAllStep(trees, roots, liveTrees, liveBlobs, present, root, liveTrees', liveBlobs'); }
    } else {
      assert roots + RootOf(journal.Value(), id) == roots;
    }
  }

  /** `mark_live_objects`. */
  method MarkLiveObjects(live: set<Ulid>, journal: Journal, store: S.Store)
    returns (ok: bool, liveTrees: set<Hash>, liveBlobs: set<Hash>)
    requires Valid(journal.Value())
    modifies store`cache
    ensures SameObjects(store.codec, old(store.Value()), store.Value())
    ensures var trees, roots := Trees(store.codec, old(store.Value())), Roots(journal.Value(), live);
            (ok <==> forall r :: r in roots ==> !Unreadable(trees, r))
            && (ok ==> MarkedAll(trees, roots, liveTrees, liveBlobs, Present(store.Value())))
  {
    ghost var trees, j := Trees(store.codec, store.Value()), journal.Value();
    NoRoots(j);
    MarkedAllStarts(trees, Present(store.Value()));
    liveTrees, liveBlobs := {}, {};
    ghost var done: set<Ulid> := {};
    var rest := live;
    while rest != {}
      invariant done + rest == live
      invariant SameObjects(store.codec, old(store.Value()), store.Value())
      invariant MarkedAll(trees, Roots(j, done), liveTrees, liveBlobs, Present(store.Value()))
      decreases |rest|
    {
      hide Trees, TreeGraph, BlobsOf, MarkedAll, Unreadable, Roots, RootOf;
      var id :| id in rest;
      RootsStep(j, done, id);
      RootsInclude(j, live, id);
      ok, liveTrees, liveBlobs := MarkCheckpoint(id, journal, store, trees, Roots(j, done), liveTrees, liveBlobs);
      if !ok { return; }
      rest, done := rest - {id}, done + {id};
    }
    ok := true;
    assert done == live;
    hide *;
    MarkedAllMeans(trees, Roots(j, live), liveTrees, liveBlobs, Present(store.Value()));
  }

  // ---------------------------------------------------------------- sweeping

  /** The checkpoints of `log` whose ids are in `ids`, in order. */
  function Keep(log: seq<Checkpoint>, ids: set<Ulid>): seq<Checkpoint> {
    if log == [] then []
    else
      var init, last := Keep(log[..|log| - 1], ids), log[|log| - 1];
      if last.id in ids then init + [last] else init
  }

  lemma KeepSnoc(init: seq<Checkpoint>, last: Checkpoint, ids: set<Ulid>)
    ensures Keep(init + [last], ids) == if last.id in ids then Keep(init, ids) + [last] else Keep(init, ids)
  {
    assert (init + [last])[..|init|] == init;
  }

  lemma WithoutSnoc(init: seq<Checkpoint>, last: Checkpoint, id: Ulid)
    ensures Without(init + [last], id) == if last.id == id then Without(init, id) else Without(init, id) + [last]
  {
    assert (init + [last])[..|init|] == init;
  }

  lemma {:induction false} KeepWithout(log: seq<Checkpoint>, ids: set<Ulid>, id: Ulid)
    requires id in ids
    ensures Without(Keep(log, ids), id) == Keep(log, ids - {id})
  {
    if log != [] {
      var init, last := log[..|log| - 1], log[|log| - 1];
      assert log == init + [last];
      KeepWithout(init, ids, id);
      hide Keep, Without;
      KeepSnoc(init, last, ids);
      KeepSnoc(init, last, ids - {id});
      WithoutSnoc(Keep(init, ids), last, id);
    }
  }

  lemma {:induction false} KeepAll(log: seq<Checkpoint>, ids: set<Ulid>)
    requires Ids(log) <= ids
    ensures Keep(log, ids) == log
  {
    if log != [] {
      var init, last := log[..|log| - 1], log[|log| - 1];
      assert log == init + [last] && last.id in Ids(log);
      assert Ids(init) <= Ids(log);
      KeepAll(init, ids);
      KeepSnoc(init, last, ids);
    }
  }

  lemma {:induction false} KeepMembers(log: seq<Checkpoint>, ids: set<Ulid>)
    ensures forall cp :: cp in Keep(log, ids) <==> cp in log && cp.id in ids
  {
    if log != [] {
      KeepMembers(log[..|log| - 1], ids);
      assert forall cp :: cp in log <==> cp in log[..|log| - 1] || cp == log[|log| - 1];
    }
  }

  method DeleteIndexed(journal: Journal, id: Ulid)
    requires Valid(journal.Value()) && id in journal.index
    modifies journal
    ensures Valid(journal.Value())
    ensures Log(journal.Value()) == Without(old(Log(journal.Value())), id)
    ensures journal.index == old(journal.index) - {id}
    ensures |journal.index| == old(|journal.index|) - 1
  {
    hide IndexInverse, Log, Without, Seqs;
    DeleteShrinks(journal.index, id);
    journal.Delete(id);
  }

  lemma LessOne(live: set<Ulid>, rest: set<Ulid>, id: Ulid)
    ensures live + (rest - {id}) == if id in live then live + rest else live + rest - {id}
  {
  }

  /** Deletes every checkpoint outside `live`. */
  method SweepCheckpoints(live: set<Ulid>, journal: Journal) returns (deleted: nat)
    requires Valid(journal.Value())
    modifies journal
    ensures Valid(journal.Value())
    ensures Log(journal.Value()) == Keep(old(Log(journal.Value())), live)
    ensures |journal.index| + deleted == old(|journal.index|)
  {
    ghost var log := Log(journal.Value());
    var rest := journal.index.Keys;
    deleted := 0;
    assert Log(journal.Value()) == Keep(log, live + rest) by {
      IdsOfLog(journal.Value());
      KeepAll(log, live + rest);
    }
    while rest != {}
      invariant Valid(journal.Value())
      invariant rest <= journal.index.Keys
      invariant Log(journal.Value()) == Keep(log, live + rest)
      invariant |journal.index| + deleted == old(|journal.index|)
      decreases |rest|
    {
      hide IndexInverse, Readable, Log, Keep, Ids, Without, Seqs, Valid;
      var id :| id in rest;
      if id !in live {
        KeepWithout(log, live + rest, id);
        LessOne(live, rest, id);
        DeleteIndexed(journal, id);
        deleted := deleted + 1;
      } else {
        LessOne(live, rest, id);
      }
      rest := rest - {id};
    }
    assert live + {} == live;
  }

  lemma DeleteShrinks(m: map<Ulid, nat>, id: Ulid)
    requires id in m
    ensures |m - {id}| == |m| - 1
  {
    assert (m - {id}).Keys == m.Keys - {id};
    assert |(m - {id}).Keys| == |m - {id}| && |m.Keys| == |m|;
  }

  lemma IdsOfLog(j: State)
    requires Valid(j)
    ensures Ids(Log(j)) == j.index.Keys
  {
    LogMembers(j);
    forall id | id in j.index ensures id in Ids(Log(j)) {
      assert j.db[Seq(j.index[id])].checkpoint in Log(j);
    }
  }

  /** Deletes every tree file outside `live`. */
  method SweepTrees(live: set<Hash>, store: S.Store) returns (deleted: nat)
    modifies store`disk
    ensures store.disk == map h | h in old(store.disk) && h in live :: old(store.disk)[h]
    ensures |store.disk| + deleted == old(|store.disk|)
  {
    var rest := store.disk.Keys;
    ghost var before := store.disk;
    deleted := 0;
    while rest != {}
      invariant rest <= before.Keys
      invariant store.disk == map h | h in before && (h in live || h in rest) :: before[h]
      invariant |store.disk| + deleted == |before|
      decreases |rest|
    {
      var h :| h in rest;
      if h !in live {
        assert store.disk.Keys == (store.disk - {h}).Keys + {h};
        assert |store.disk.Keys| == |store.disk| && |(store.disk - {h}).Keys| == |store.disk - {h}|;
        store.disk := store.disk - {h};
        deleted := deleted + 1;
      }
      rest := rest - {h};
    }
  }

  /** Deletes every blob file outside `live`. */
  method SweepBlobs(live: set<Hash>, store: S.Store) returns (deleted: nat)
    modifies store`blobs
    ensures store.blobs == map h | h in old(store.blobs) && h in live :: old(store.blobs)[h]
    ensures |store.blobs| + deleted == old(|store.blobs|)
  {
    var rest := store.blobs.Keys;
    ghost var before := store.blobs;
    deleted := 0;
    while rest != {}
      invariant rest <= before.Keys
      invariant store.blobs == map h | h in before && (h in live || h in rest) :: before[h]
      invariant |store.blobs| + deleted == |before|
      decreases |rest|
    {
      var h :| h in rest;
      if h !in live {
        assert store.blobs.Keys == (store.blobs - {h}).Keys + {h};
        assert |store.blobs.Keys| == |store.blobs| && |(store.blobs - {h}).Keys| == |store.blobs - {h}|;
        store.blobs := store.blobs - {h};
        deleted := deleted + 1;
      }
      rest := rest - {h};
    }
  }

  // ---------------------------------------------------------------- collecting

  datatype Metrics = Metrics(checkpointsDeleted: nat, treesDeleted: nat, blobsDeleted: nat)

  /** The journal keeps exactly the live checkpoints, in order. */
  ghost predicate JournalSwept(live: set<Ulid>, j: State, j': State)
    requires Valid(j)
  {
    Valid(j') && Log(j') == Keep(Log(j), live)
  }

  /** Files outside the marked sets are gone; the cache holds no more than what was readable. */
  ghost predicate StoreSwept(codec: S.Codec, marked: set<Hash>, blobs: set<Hash>, s: S.State, s': S.State) {
    && s'.disk == (map h | h in s.disk && h in marked :: s.disk[h])
    && s'.blobs == (map b | b in s.blobs && b in blobs :: s.blobs[b])
    && s'.blobCache == s.blobCache
    && s.cache.Keys <= s'.cache.Keys
    && (forall h :: h in s'.cache ==> S.Lookup(codec, s, h) == Ok(s'.cache[h]))
  }

  ghost predicate Counted(j: State, s: S.State, j': State, s': S.State, m: Metrics) {
    && |j'.index| + m.checkpointsDeleted == |j.index|
    && |s'.disk| + m.treesDeleted == |s.disk|
    && |s'.blobs| + m.blobsDeleted == |s.blobs|
  }

  /** A successful collection, as a relation between the states before and after it. */
  ghost predicate Collected(codec: S.Codec, live: set<Ulid>, j: State, s: S.State, j': State, s': S.State, m: Metrics)
    requires Valid(j)
  {
    var trees := Trees(codec, s);
    var marked := LiveTrees(trees, Roots(j, live));
    && marked <= trees.Keys
    && JournalSwept(live, j, j')
    && StoreSwept(codec, marked, BlobsOf(trees, marked, Present(s)), s, s')
    && Counted(j, s, j', s', m)
  }

  /** Only the files outside the two sets are gone. */
  ghost predicate FilesSwept(trees: set<Hash>, blobs: set<Hash>, s: S.State, s': S.State) {
    && s'.disk == (map h | h in s.disk && h in trees :: s.disk[h])
    && s'.blobs == (map b | b in s.blobs && b in blobs :: s.blobs[b])
    && s'.cache == s.cache && s'.blobCache == s.blobCache
  }

  /** `sweep_dead_objects`. */
  method SweepDeadObjects(live: set<Ulid>, liveTrees: set<Hash>, liveBlobs: set<Hash>, journal: Journal, store: S.Store)
    returns (m: Metrics)
    requires Valid(journal.Value())
    modifies journal, store`disk, store`blobs
    ensures JournalSwept(live, old(journal.Value()), journal.Value())
    ensures store.disk == map h | h in old(store.disk) && h in liveTrees :: old(store.disk)[h]
    ensures store.blobs == map b | b in old(store.blobs) && b in liveBlobs :: old(store.blobs)[b]
    ensures FilesSwept(liveTrees, liveBlobs, old(store.Value()), store.Value())
    ensures Counted(old(journal.Value()), old(store.Value()), journal.Value(), store.Value(), m)
  {
    hide IndexInverse, Seqs, Log, Keep;
    var checkpoints := SweepCheckpoints(live, journal);
    var trees := SweepTrees(liveTrees, store);
    var blobs := SweepBlobs(liveBlobs, store);
    m := Metrics(checkpoints, trees, blobs);
  }

  lemma CachedLookups(codec: S.Codec, s: S.State, s': S.State)
    requires SameObjects(codec, s, s')
    ensures forall h :: h in s'.cache ==> S.Lookup(codec, s, h) == Ok(s'.cache[h])
  {
    forall h | h in s'.cache ensures S.Lookup(codec, s, h) == Ok(s'.cache[h]) {
      LookupIsTrees(codec, s', h);
      LookupIsTrees(codec, s, h);
    }
  }

  lemma AssembleCollected(
    codec: S.Codec, live: set<Ulid>, j: State, s: S.State, mid: S.State, j': State, s': S.State,
    liveTrees: set<Hash>, liveBlobs: set<Hash>, m: Metrics)
    requires Valid(j) && SameObjects(codec, s, mid)
    requires MarkedAll(Trees(codec, s), Roots(j, live), liveTrees, liveBlobs, Present(s))
    requires JournalSwept(live, j, j')
    requires FilesSwept(liveTrees, liveBlobs, mid, s')
    requires Counted(j, mid, j', s', m)
    ensures Collected(codec, live, j, s, j', s', m)
  {
    hide Trees, BlobsOf, IndexInverse, Seqs, Roots, LiveTrees, MarkedAll, Log, S.Lookup;
    CachedLookups(codec, s, mid);
    MarkedAllMeans(Trees(codec, s), Roots(j, live), liveTrees, liveBlobs, Present(s));
    MarkedAllBlobs(Trees(codec, s), Roots(j, live), liveTrees, liveBlobs, Present(s));
  }

  /** `collect`: an unreadable tree below a live checkpoint stops it before anything is deleted. */
  method Collect(
    policy: Policy, journal: Journal, store: S.Store, pins: set<Ulid>, workspaces: Option<set<Ulid>>, nowMs: nat)
    returns (metrics: Option<Metrics>, ghost live: set<Ulid>)
    requires Valid(journal.Value())
    modifies journal, store
    ensures live == LiveIds(policy, pins, if workspaces.Some? then workspaces.value else {}, nowMs,
                            Log(old(journal.Value())))
    ensures metrics.Some? <==> forall r :: r in Roots(old(journal.Value()), live) ==>
              !Unreadable(Trees(store.codec, old(store.Value())), r)
    ensures metrics.None? ==> journal.Value() == old(journal.Value())
    ensures metrics.None? ==> SameObjects(store.codec, old(store.Value()), store.Value())
    ensures metrics.Some? ==> Collected(store.codec, live, old(journal.Value()), old(store.Value()),
                                        journal.Value(), store.Value(), metrics.value)
    ensures metrics.Some? ==>
              && |journal.index| + metrics.value.checkpointsDeleted == old(|journal.index|)
              && |store.disk| + metrics.value.treesDeleted == old(|store.disk|)
              && |store.blobs| + metrics.value.blobsDeleted == old(|store.blobs|)
    ensures metrics.Some? ==>
              Valid(journal.Value())
              && KeepsRetained(policy, pins, if workspaces.Some? then workspaces.value else {}, nowMs,
                               Log(old(journal.Value())), Log(journal.Value()))
  {
    ghost var j, s := journal.Value(), store.Value();
    var liveIds := MarkLiveCheckpoints(policy, journal, pins, workspaces, nowMs);
    live := liveIds;
    hide *;
    ValidParts(j);
    assert j.index == journal.index && s.disk == store.disk && s.blobs == store.blobs;
    var ok, liveTrees, liveBlobs := MarkLiveObjects(liveIds, journal, store);
    if !ok { return None, live; }
    ghost var mid := store.Value();
    var m := SweepDeadObjects(liveIds, liveTrees, liveBlobs, journal, store);
    AssembleCollected(store.codec, live, j, s, mid, journal.Value(), store.Value(), liveTrees, liveBlobs, m);
    CountsAddUp(store.codec, live, j, s, journal.Value(), store.Value(), m);
    SurvivesExactly(policy, pins, if workspaces.Some? then workspaces.value else {}, nowMs, store.codec, live, j, s,
                    journal.Value(), store.Value(), m);
    metrics := Some(m);
  }

  lemma CountsAddUp(codec: S.Codec, live: set<Ulid>, j: State, s: S.State, j': State, s': S.State, m: Metrics)
    requires Valid(j) && Collected(codec, live, j, s, j', s', m)
    ensures |j'.index| + m.checkpointsDeleted == |j.index|
    ensures |s'.disk| + m.treesDeleted == |s.disk|
    ensures |s'.blobs| + m.blobsDeleted == |s.blobs|
  {
    hide JournalSwept, StoreSwept, Trees, LiveTrees, BlobsOf, Roots, Valid;
  }

  /** A checkpoint of the log survives a collection exactly when the policy retains it. */
  lemma SurvivesExactly(
    policy: Policy, pins: set<Ulid>, workspaces: set<Ulid>, nowMs: nat,
    codec: S.Codec, live: set<Ulid>, j: State, s: S.State, j': State, s': S.State, m: Metrics)
    requires Valid(j) && live == LiveIds(policy, pins, workspaces, nowMs, Log(j))
    requires Collected(codec, live, j, s, j', s', m)
    ensures Valid(j') && KeepsRetained(policy, pins, workspaces, nowMs, Log(j), Log(j'))
  {
    hide *;
    ValidParts(j);
    ValidParts(j');
    CollectedParts(codec, live, j, s, j', s', m);
    CollectIsExact(codec, live, j, s, j', s', m);
    forall cp | cp in Log(j)
      ensures cp.id in live <==> Retained(policy, pins, workspaces, nowMs, Log(j), cp)
    {
      LiveExactly(policy, pins, workspaces, nowMs, j, cp);
    }
    LeftIsRetained(policy, pins, workspaces, nowMs, Log(j), Log(j'), live);
  }

  lemma LeftIsRetained(policy: Policy, pins: set<Ulid>, workspaces: set<Ulid>, nowMs: nat,
                       log: seq<Checkpoint>, left: seq<Checkpoint>, live: set<Ulid>)
    requires forall cp :: cp in left <==> cp in log && cp.id in live
    requires forall cp :: cp in log ==> (cp.id in live <==> Retained(policy, pins, workspaces, nowMs, log, cp))
    ensures KeepsRetained(policy, pins, workspaces, nowMs, log, left)
  {
    hide Retained;
  }

  lemma MarkedAllBlobs(trees: map<Hash, Tree>, roots: set<Hash>, t: set<Hash>, b: set<Hash>, present: set<Hash>)
    requires MarkedAll(trees, roots, t, b, present)
    ensures b == BlobsOf(trees, t, present)
  {
  }

  // ---------------------------------------------------------------- what collecting guarantees

  /** After a sweep the marked trees read as before, and nothing else became readable. */
  lemma SweptLookup(codec: S.Codec, marked: set<Hash>, blobs: set<Hash>, s: S.State, s': S.State, h: Hash)
    requires StoreSwept(codec, marked, blobs, s, s')
    ensures h in marked ==> S.Lookup(codec, s', h) == S.Lookup(codec, s, h)
    ensures S.Lookup(codec, s', h).Ok? ==> S.Lookup(codec, s', h) == S.Lookup(codec, s, h)
  {
    if h in s.cache { assert h in s'.cache; }
  }

  lemma RootIsMarked(trees: map<Hash, Tree>, j: State, live: set<Ulid>, cp: Checkpoint, h: Hash)
    requires Valid(j) && cp in Log(j) && cp.id in live
    requires Reaches(TreeGraph(trees), cp.rootTree, h)
    ensures h in LiveTrees(trees, Roots(j, live))
  {
    hide Reaches, TreeGraph, ReachedFrom;
    LogMembers(j);
    assert cp.rootTree in Roots(j, live);
    assert ReachedBySome(TreeGraph(trees), Roots(j, live), h);
    ReachedFromMembers(TreeGraph(trees), Roots(j, live));
  }

  /** Cutting the cache off shows what the files alone give. */
  function FromFiles(s: S.State): S.State {
    s.(cache := map[], blobCache := {})
  }

  /**
   Safety: every live checkpoint of the journal survives, and with it every tree reached from
   its root and every blob of those trees.  Their files are still there with the same bytes, and
   the trees read as before with the cache and from the files alone.
   */
  lemma CollectIsSafe(
    codec: S.Codec, live: set<Ulid>, j: State, s: S.State, j': State, s': S.State, m: Metrics,
    cp: Checkpoint, h: Hash, b: Hash)
    requires Valid(j) && Collected(codec, live, j, s, j', s', m)
    requires cp in Log(j) && cp.id in live
    requires Reaches(TreeGraph(Trees(codec, s)), cp.rootTree, h)
    ensures cp in Log(j')
    ensures S.Lookup(codec, s', h).Ok? && S.Lookup(codec, s', h) == S.Lookup(codec, s, h)
    ensures h in s.disk ==> h in s'.disk && s'.disk[h] == s.disk[h]
    ensures S.Lookup(codec, FromFiles(s'), h) == S.Lookup(codec, FromFiles(s), h)
    ensures b in FileBlobs(S.Lookup(codec, s, h).value) && b in s.blobs ==> b in s'.blobs && s'.blobs[b] == s.blobs[b]
    ensures b in FileBlobs(S.Lookup(codec, s, h).value) ==> S.BlobContent(codec, s', b) == S.BlobContent(codec, s, b)
  {
    var trees := Trees(codec, s);
    var marked := LiveTrees(trees, Roots(j, live));
    var blobs := BlobsOf(trees, marked, Present(s));
    RootIsMarked(trees, j, live, cp, h);
    KeepMembers(Log(j), live);
    CollectedParts(codec, live, j, s, j', s', m);
    assert h in marked && h in trees by { assert marked <= trees.Keys; }
    LookupIsTrees(codec, s, h);
    hide *;
    SweptLookup(codec, marked, blobs, s, s', h);
    SweptFromFiles(codec, marked, blobs, s, s', h);
    SweptBlob(codec, trees, marked, s, s', h, b);
  }

  lemma SweptBlob(codec: S.Codec, trees: map<Hash, Tree>, marked: set<Hash>, s: S.State, s': S.State, h: Hash, b: Hash)
    requires StoreSwept(codec, marked, BlobsOf(trees, marked, Present(s)), s, s') && h in marked && h in trees
    ensures b in FileBlobs(trees[h]) && b in s.blobs ==> b in s'.blobs && s'.blobs[b] == s.blobs[b]
    ensures b in FileBlobs(trees[h]) ==> S.BlobContent(codec, s', b) == S.BlobContent(codec, s, b)
  {
    hide FileBlobs;
    assert b in FileBlobs(trees[h]) && b in Present(s) ==> b in BlobsOf(trees, marked, Present(s));
  }

  lemma SweptFromFiles(codec: S.Codec, marked: set<Hash>, blobs: set<Hash>, s: S.State, s': S.State, h: Hash)
    requires StoreSwept(codec, marked, blobs, s, s') && h in marked
    ensures h in s.disk ==> h in s'.disk && s'.disk[h] == s.disk[h]
    ensures S.Lookup(codec, FromFiles(s'), h) == S.Lookup(codec, FromFiles(s), h)
  {
  }

  /**
   What the sweep does to the blob cache, which it leaves alone: every cached blob still has its
   file exactly when it had one and some live tree needs it.
   */
  lemma CacheBackedExactly(codec: S.Codec, live: set<Ulid>, j: State, s: S.State, j': State, s': S.State, m: Metrics)
    requires Valid(j) && Collected(codec, live, j, s, j', s', m)
    ensures S.CacheBacked(s') <==> S.CacheBacked(s) && forall b :: b in s.blobCache ==> BlobNeeded(codec, live, j, s, b)
    ensures S.BlobsSound(codec, s) ==> S.BlobsSound(codec, s')
  {
    hide LiveTrees, Trees, Roots, S.Lookup, JournalSwept, Counted;
    var trees := Trees(codec, s);
    var marked := LiveTrees(trees, Roots(j, live));
    forall b | b in s.blobCache ensures b in BlobsOf(trees, marked, Present(s)) <==> BlobNeeded(codec, live, j, s, b) {}
  }

  /** Some live tree refers to the blob. */
  ghost predicate BlobNeeded(codec: S.Codec, live: set<Ulid>, j: State, s: S.State, b: Hash)
    requires Valid(j)
  {
    var trees := Trees(codec, s);
    exists h :: h in LiveTrees(trees, Roots(j, live)) && h in trees && b in FileBlobs(trees[h])
  }

  /** Exactness: precisely the live checkpoints survive, and precisely the stored trees they reach. */
  lemma CollectIsExact(codec: S.Codec, live: set<Ulid>, j: State, s: S.State, j': State, s': S.State, m: Metrics)
    requires Valid(j) && Collected(codec, live, j, s, j', s', m)
    ensures forall cp :: cp in Log(j') <==> cp in Log(j) && cp.id in live
    ensures forall h :: h in s'.disk <==> h in s.disk && Needed(codec, live, j, s, h)
  {
    KeepMembers(Log(j), live);
    forall h | h in s.disk ensures h in s'.disk <==> Needed(codec, live, j, s, h) {
      MarkedIsNeeded(codec, live, j, s, h);
    }
  }

  /** Some live checkpoint of the journal reaches `h`. */
  ghost predicate Needed(codec: S.Codec, live: set<Ulid>, j: State, s: S.State, h: Hash)
    requires Valid(j)
  {
    exists cp :: cp in Log(j) && cp.id in live && Reaches(TreeGraph(Trees(codec, s)), cp.rootTree, h)
  }

  lemma MarkedIsNeeded(codec: S.Codec, live: set<Ulid>, j: State, s: S.State, h: Hash)
    requires Valid(j)
    ensures h in LiveTrees(Trees(codec, s), Roots(j, live)) <==> Needed(codec, live, j, s, h)
  {
    hide Reaches, ReachedFrom, TreeGraph, Trees;
    var g, roots := TreeGraph(Trees(codec, s)), Roots(j, live);
    ReachedFromMembers(g, roots);
    if ReachedBySome(g, roots, h) {
      LogMembers(j);
      var r :| r in roots && Reaches(g, r, h);
      var id :| id in live && id in j.index && j.db[Seq(j.index[id])].checkpoint.rootTree == r;
      assert j.db[Seq(j.index[id])].checkpoint in Log(j);
    }
    if Needed(codec, live, j, s, h) {
      var cp :| cp in Log(j) && cp.id in live && Reaches(g, cp.rootTree, h);
      RootIsMarked(Trees(codec, s), j, live, cp, h);
    }
  }

  // ---------------------------------------------------------------- what recent readers see

  lemma {:induction false} KeepSuffix(log: seq<Checkpoint>, ids: set<Ulid>, k: nat)
    requires Ids(Suffix(log, k)) <= ids
    ensures Suffix(Keep(log, ids), k) == Suffix(log, k)
  {
    if log != [] && k > 0 {
      var init, last := log[..|log| - 1], log[|log| - 1];
      assert log == init + [last];
      KeepSnoc(init, last, ids);
      assert Suffix(log, k) == Suffix(init, k - 1) + [last];
      assert last in Suffix(log, k) && last.id in Ids(Suffix(log, k));
      forall cp | cp in Suffix(init, k - 1) ensures cp.id in ids { assert cp in Suffix(log, k); }
      KeepSuffix(init, ids, k - 1);
      SuffixSnoc(Keep(init, ids), last, k);
    } else if log != [] {
      assert Suffix(log, 0) == [];
    }
  }

  lemma SuffixSnoc(init: seq<Checkpoint>, last: Checkpoint, k: nat)
    requires k > 0
    ensures Suffix(init + [last], k) == Suffix(init, k - 1) + [last]
  {
  }

  lemma SuffixOfSuffix(log: seq<Checkpoint>, k: nat, n: nat)
    requires k <= n
    ensures forall cp :: cp in Suffix(log, k) ==> cp in Suffix(log, n)
  {
    var short, long := Suffix(log, k), Suffix(log, n);
    forall i | 0 <= i < |short| ensures short[i] in long {
      assert short[i] == long[|long| - |short| + i];
    }
  }

  /** The most recent checkpoints, up to the dense count, are what they were. */
  lemma RecentUnchanged(
    codec: S.Codec, policy: Policy, pins: set<Ulid>, ws: set<Ulid>, nowMs: nat,
    j: State, s: S.State, j': State, s': S.State, m: Metrics, k: nat)
    requires Valid(j) && Collected(codec, LiveIds(policy, pins, ws, nowMs, Log(j)), j, s, j', s', m)
    requires k <= policy.retainDenseCount
    ensures Suffix(Log(j'), k) == Suffix(Log(j), k)
    ensures k > 0 ==> forall r :: Last(Log(j'), r) <==> Last(Log(j), r)
  {
    var log, live := Log(j), LiveIds(policy, pins, ws, nowMs, Log(j));
    assert Ids(Suffix(log, policy.retainDenseCount)) <= live;
    assert Log(j') == Keep(log, live);
    hide *;
    RecentKept(log, live, policy.retainDenseCount, k, Log(j'));
  }

  lemma RecentKept(log: seq<Checkpoint>, live: set<Ulid>, n: nat, k: nat, log': seq<Checkpoint>)
    requires Ids(Suffix(log, n)) <= live && k <= n && log' == Keep(log, live)
    ensures Suffix(log', k) == Suffix(log, k)
    ensures k > 0 ==> forall r :: Last(log', r) <==> Last(log, r)
  {
    SuffixOfSuffix(log, k, n);
    KeepSuffix(log, live, k);
    hide Keep, Suffix, Last;
    if k > 0 {
      LastOfSuffix(log, k);
      LastOfSuffix(log', k);
    }
  }

  lemma LastOfSuffix(log: seq<Checkpoint>, k: nat)
    requires k > 0
    ensures forall r :: Last(log, r) <==> Last(Suffix(log, k), r)
  {
  }

  // ---------------------------------------------------------------- collecting twice

  lemma RootsOfLog(j: State, live: set<Ulid>)
    requires Valid(j)
    ensures Roots(j, live) == set cp | cp in Log(j) && cp.id in live :: cp.rootTree
  {
    LogMembers(j);
    hide Log;
    forall r | r in Roots(j, live) ensures exists cp :: cp in Log(j) && cp.id in live && cp.rootTree == r {
      var id :| id in live && id in j.index && j.db[Seq(j.index[id])].checkpoint.rootTree == r;
      assert j.db[Seq(j.index[id])].checkpoint in Log(j);
    }
  }

  /** With the clock and the pins unchanged, every survivor is live again. */
  lemma SurvivorsLive(policy: Policy, pins: set<Ulid>, ws: set<Ulid>, nowMs: nat, log: seq<Checkpoint>,
      log': seq<Checkpoint>)
    requires log' == Keep(log, LiveIds(policy, pins, ws, nowMs, log))
    ensures Ids(log') <= LiveIds(policy, pins, ws, nowMs, log')
  {
    var live := LiveIds(policy, pins, ws, nowMs, log);
    KeepMembers(log, live);
    KeepSuffix(log, live, policy.retainDenseCount);
    hide Keep, Suffix;
  }

  lemma SurvivingRoots(live: set<Ulid>, live': set<Ulid>, j: State, j': State)
    requires Valid(j) && JournalSwept(live, j, j') && Ids(Log(j')) <= live'
    ensures Roots(j', live') == Roots(j, live)
  {
    RootsOfLog(j, live);
    RootsOfLog(j', live');
    KeepMembers(Log(j), live);
    hide Log, Keep, Roots, IndexInverse;
    assert forall cp :: cp in Log(j') ==> cp.id in Ids(Log(j'));
  }

  lemma SurvivingGraph(
    codec: S.Codec, live: set<Ulid>, j: State, s: S.State, j': State, s': S.State, m: Metrics)
    requires Valid(j) && Collected(codec, live, j, s, j', s', m)
    ensures var roots := Roots(j, live);
            LiveTrees(Trees(codec, s'), roots) == LiveTrees(Trees(codec, s), roots) <= Trees(codec, s').Keys
  {
    var trees, trees', roots := Trees(codec, s), Trees(codec, s'), Roots(j, live);
    var marked := LiveTrees(trees, roots);
    hide Trees, TreeGraph, LiveTrees, Roots, IndexInverse, Log, S.Lookup, JournalSwept;
    forall h | h in marked
      ensures h in trees' && Successors(TreeGraph(trees'), h) == Successors(TreeGraph(trees), h)
    {
      SweptLookup(codec, marked, BlobsOf(trees, marked, Present(s)), s, s', h);
      LookupIsTrees(codec, s, h);
      LookupIsTrees(codec, s', h);
      GraphSuccessors(trees, h);
      GraphSuccessors(trees', h);
    }
    LiveTreesAgree(trees, trees', roots);
  }

  lemma LiveTreesAgree(trees: map<Hash, Tree>, trees': map<Hash, Tree>, roots: set<Hash>)
    requires forall h :: h in LiveTrees(trees, roots) ==>
      Successors(TreeGraph(trees'), h) == Successors(TreeGraph(trees), h)
    ensures LiveTrees(trees', roots) == LiveTrees(trees, roots)
  {
    hide ReachedFrom, TreeGraph, Successors;
    SameReach(TreeGraph(trees), TreeGraph(trees'), roots);
  }

  /** A second collection never meets an unreadable tree. */
  lemma SecondCollectSucceeds(
    codec: S.Codec, policy: Policy, pins: set<Ulid>, ws: set<Ulid>, nowMs: nat,
    j: State, s: S.State, j': State, s': S.State, m: Metrics)
    requires Valid(j) && Collected(codec, LiveIds(policy, pins, ws, nowMs, Log(j)), j, s, j', s', m)
    ensures var trees', roots' := Trees(codec, s'), Roots(j', LiveIds(policy, pins, ws, nowMs, Log(j')));
            && LiveTrees(trees', roots')
               == LiveTrees(Trees(codec, s), Roots(j, LiveIds(policy, pins, ws, nowMs, Log(j))))
            && forall r :: r in roots' ==> !Unreadable(trees', r)
  {
    var live, live' := LiveIds(policy, pins, ws, nowMs, Log(j)), LiveIds(policy, pins, ws, nowMs, Log(j'));
    SurvivorsLive(policy, pins, ws, nowMs, Log(j), Log(j'));
    SurvivingRoots(live, live', j, j');
    SurvivingGraph(codec, live, j, s, j', s', m);
    var trees', roots' := Trees(codec, s'), Roots(j', live');
    assert LiveTrees(trees', roots') <= trees'.Keys;
    hide *;
    forall r | r in roots' ensures !Unreadable(trees', r) { LiveRootReadable(trees', roots', r); }
  }

  /** And it deletes no checkpoint and no tree. */
  lemma CollectTwice(
    codec: S.Codec, policy: Policy, pins: set<Ulid>, ws: set<Ulid>, nowMs: nat,
    j: State, s: S.State, j': State, s': S.State, m: Metrics, j'': State, s'': S.State, m': Metrics)
    requires Valid(j) && Collected(codec, LiveIds(policy, pins, ws, nowMs, Log(j)), j, s, j', s', m)
    requires Valid(j') && Collected(codec, LiveIds(policy, pins, ws, nowMs, Log(j')), j', s', j'', s'', m')
    ensures Log(j'') == Log(j') && m'.checkpointsDeleted == 0
    ensures s''.disk == s'.disk && m'.treesDeleted == 0
  {
    hide *;
    ValidParts(j);
    ValidParts(j');
    ValidParts(j'');
    var live, live' := LiveIds(policy, pins, ws, nowMs, Log(j)), LiveIds(policy, pins, ws, nowMs, Log(j'));
    CollectedParts(codec, live, j, s, j', s', m);
    CollectedParts(codec, live', j', s', j'', s'', m');
    SurvivorsLive(policy, pins, ws, nowMs, Log(j), Log(j'));
    SecondCollectSucceeds(codec, policy, pins, ws, nowMs, j, s, j', s', m);
    SweptAgain(live', j', j'');
    var trees, trees' := Trees(codec, s), Trees(codec, s');
    var marked, marked' := LiveTrees(trees, Roots(j, live)), LiveTrees(trees', Roots(j', live'));
    FilesSweptAgain(codec, marked, BlobsOf(trees, marked, Present(s)), BlobsOf(trees', marked', Present(s')),
                    s, s', s'');
  }

  lemma ValidParts(j: State)
    ensures Valid(j) ==> Readable(j.db) && IndexInverse(j.db, j.index)
  {
  }

  lemma CollectedParts(codec: S.Codec, live: set<Ulid>, j: State, s: S.State, j': State, s': S.State, m: Metrics)
    requires Valid(j) && Collected(codec, live, j, s, j', s', m)
    ensures Valid(j') && Log(j') == Keep(Log(j), live) && JournalSwept(live, j, j')
    ensures var trees := Trees(codec, s);
            var marked := LiveTrees(trees, Roots(j, live));
            StoreSwept(codec, marked, BlobsOf(trees, marked, Present(s)), s, s')
    ensures |j'.index| + m.checkpointsDeleted == |j.index|
    ensures |s'.disk| + m.treesDeleted == |s.disk|
  {
    hide Trees, LiveTrees, Roots, BlobsOf, Log, IndexInverse, Readable, Seqs;
  }

  lemma SweptAgain(live: set<Ulid>, j: State, j': State)
    requires Valid(j) && JournalSwept(live, j, j') && Ids(Log(j)) <= live
    ensures Log(j') == Log(j) && |j'.index| == |j.index|
  {
    KeepAll(Log(j), live);
    IdsOfLog(j);
    IdsOfLog(j');
    assert |j.index.Keys| == |j.index| && |j'.index.Keys| == |j'.index|;
  }

  lemma FilesSweptAgain(
    codec: S.Codec, marked: set<Hash>, b: set<Hash>, b': set<Hash>, s: S.State, s': S.State, s'': S.State)
    requires StoreSwept(codec, marked, b, s, s') && StoreSwept(codec, marked, b', s', s'')
    ensures s''.disk == s'.disk
  {
  }

  lemma LiveRootReadable(trees: map<Hash, Tree>, roots: set<Hash>, r: Hash)
    requires LiveTrees(trees, roots) <= trees.Keys && r in roots
    ensures !Unreadable(trees, r)
  {
    hide TreeGraph, Reaches, ReachedFrom;
    ReachedFromMembers(TreeGraph(trees), roots);
    forall h | Reaches(TreeGraph(trees), r, h) ensures h in trees {
      assert ReachedBySome(TreeGraph(trees), roots, h);
    }
  }
}
