/**
 The seed tree under the collector: publishing compares against it, but marking starts from
 checkpoints only, so a collection may delete it.
 */
module SeedTree {
  import opened Objects
  import opened JournalLog
  import opened GarbageCollection
  import opened Materialize
  import opened PublishRange
  import opened Reachability
  import S = ObjectStore

  /** After a collection the seed tree reads from the files exactly when a live checkpoint reaches it. */
  lemma SeedSurvivesExactly(
    codec: S.Codec, live: set<Ulid>, j: State, s: S.State, j': State, s': S.State, m: GarbageCollection.Metrics,
    seed: Hash)
    requires Valid(j) && Collected(codec, live, j, s, j', s', m)
    requires S.Lookup(codec, FromFiles(s), seed).Ok?
    ensures S.Lookup(codec, FromFiles(s'), seed) ==
            if Needed(codec, live, j, s, seed) then S.Lookup(codec, FromFiles(s), seed) else Err
  {
    CollectIsExact(codec, live, j, s, j', s', m);
    hide Needed, LiveTrees, Trees, JournalSwept, Counted;
    assert seed in s'.disk ==> s'.disk[seed] == s.disk[seed];
  }

  /** What every publish theorem asks of the seed holds after a collection exactly under that condition. */
  lemma SeedSoundAfterCollect(
    codec: S.Codec, live: set<Ulid>, j: State, s: S.State, j': State, s': S.State, m: GarbageCollection.Metrics,
    env: Env, env': Env, w: Jj, seedTree: Tree)
    requires Valid(j) && Collected(codec, live, j, s, j', s', m)
    requires env.codec == codec == env'.codec && env.store == FromFiles(s) && env'.store == FromFiles(s')
    requires SeedSound(env, w, seedTree)
    ensures SeedSound(env', w, seedTree) <==> w.seed.None? || Needed(codec, live, j, s, w.seedTree.value)
  {
    hide Collected, S.Lookup, Needed, TreeOfCommit, Converted;
    if w.seed.Some? { SeedSurvivesExactly(codec, live, j, s, j', s', m, w.seedTree.value); }
  }

  /**
   A live root checkpoint that could be converted is still published on the seed commit, by a process
   that opens the store afresh, exactly when some live checkpoint reaches the seed tree.
   */
  lemma RootIsPublishedExactly(
    codec: S.Codec, live: set<Ulid>, j: State, s: S.State, j': State, s': S.State, m: GarbageCollection.Metrics,
    env: Env, w: Jj, cp: Checkpoint, seed: Hash, seedTree: Tree, t: Tree)
    requires Valid(j) && Collected(codec, live, j, s, j', s', m)
    requires env.codec == codec && env.store == FromFiles(s')
    requires w.seed.Some? && TreeOfCommit(w, w.seed.value).Some? && w.seedTree == Some(seed)
    requires S.Lookup(codec, FromFiles(s), seed) == Ok(seedTree)
    requires cp in Log(j) && cp.id in live && cp.parent.None? && S.Lookup(codec, FromFiles(s), cp.rootTree) == Ok(t)
    requires ConversionSucceeds(env, t, DiffPaths(env.utf8, seedTree, t), TreeOfCommit(w, w.seed.value))
    ensures Published(env, None, w, cp, None).Some? <==> Needed(codec, live, j, s, seed)
  {
    hide *;
    RootReads(codec, live, j, s, j', s', m, cp);
    SeedSurvivesExactly(codec, live, j, s, j', s', m, seed);
    RootNeedsSeed(env, w, cp, t);
  }

  /** A checkpoint without a published parent is compared with the seed tree, and fails with it. */
  lemma RootNeedsSeed(env: Env, w: Jj, cp: Checkpoint, t: Tree)
    requires w.seed.Some? && TreeOfCommit(w, w.seed.value).Some?
    requires !(cp.parent.Some? && cp.parent.value in w.forward)
    requires S.Lookup(env.codec, env.store, cp.rootTree) == Ok(t)
    ensures Published(env, None, w, cp, None).Some? <==>
            w.seedTree.Some? &&
            var seedTree := S.Lookup(env.codec, env.store, w.seedTree.value);
            seedTree.Ok?
            && ConversionSucceeds(env, t, DiffPaths(env.utf8, seedTree.value, t), TreeOfCommit(w, w.seed.value))
  {
    hide S.Lookup, ConversionSucceeds, DiffPaths, ConversionOf, TreeOfCommit;
  }

  lemma RootReads(
    codec: S.Codec, live: set<Ulid>, j: State, s: S.State, j': State, s': S.State, m: GarbageCollection.Metrics,
    cp: Checkpoint)
    requires Valid(j) && Collected(codec, live, j, s, j', s', m) && cp in Log(j) && cp.id in live
    ensures S.Lookup(codec, FromFiles(s'), cp.rootTree) == S.Lookup(codec, FromFiles(s), cp.rootTree)
  {
    hide *;
    ReachesItself(TreeGraph(Trees(codec, s)), cp.rootTree);
    CollectIsSafe(codec, live, j, s, j', s', m, cp, cp.rootTree, cp.rootTree);
  }

  // ---------------------------------------------------------------- an input that loses the seed tree

  /** The roots reach nothing but the one flat tree. */
  lemma OnlyTheRoot(trees: map<Hash, Tree>, roots: set<Hash>, root: Hash)
    requires roots <= {root} && root in trees && Flat(trees[root])
    ensures LiveTrees(trees, roots) <= {root}
    ensures forall r :: r in roots ==> !Unreadable(trees, r)
  {
    var g := TreeGraph(trees);
    assert Closed(g, {root}) by { assert Subtrees(trees[root]) == {}; }
    ReachedFromLeast(g, roots, {root});
    forall h | root in roots && Reaches(g, root, h) ensures h in trees { ClosedContainsReached(g, {root}, root, h); }
  }

  lemma RootsOfOne(j: State, live: set<Ulid>, cp: Checkpoint)
    requires Valid(j) && Log(j) == [cp]
    ensures Roots(j, live) <= {cp.rootTree}
  {
    RootsOfLog(j, live);
  }

  /** The store after initialisation recorded an empty seed tree and a first checkpoint's tree was stored. */
  method SeededStore(codec: S.Codec, t: Tree) returns (store: S.Store, seed: Hash, root: Hash)
    requires codec.name(map[]) != codec.name(t)
    ensures fresh(store) && store.codec == codec && seed == codec.name(map[]) && root == codec.name(t)
    ensures store.Value() == S.State(map[seed := codec.write(map[]), root := codec.write(t)],
                                     map[seed := map[], root := t], map[], {})
  {
    store := new S.Store(codec);
    seed := store.WriteTree(map[]);
    root := store.WriteTree(t);
  }

  /**
   A repository initialised before its first checkpoint records the empty tree as its seed.  No
   checkpoint refers to it, and the first collection deletes it, whatever the policy.
   */
  method EmptySeedIsCollected(codec: S.Codec, policy: Policy, nowMs: nat, id: Ulid, t: Tree, touched: seq<Path>)
    returns (metrics: Option<GarbageCollection.Metrics>, store: S.Store, ghost before: S.State)
    requires Flat(t) && codec.name(map[]) != codec.name(t) && codec.read(codec.write(map[])) == Ok(map[])
    ensures store.codec == codec && metrics.Some?
    ensures S.Lookup(codec, FromFiles(before), codec.name(map[])) == Ok(map[])
    ensures S.Lookup(codec, FromFiles(store.Value()), codec.name(map[])) == Err
  {
    var seed, root;
    store, seed, root := SeededStore(codec, t);
    var cp := Checkpoint(id, None, root, touched);
    var journal := FirstCheckpoint(cp);
    before := store.Value();
    ghost var j := journal.Value();
    assert root in Trees(codec, before) && Trees(codec, before)[root] == t;
    ghost var live;
    metrics, live := CollectFirst(journal, store, policy, nowMs, cp);
    assert seed !in store.disk;
  }

  method FirstCheckpoint(cp: Checkpoint) returns (journal: Journal)
    ensures fresh(journal) && Valid(journal.Value()) && Log(journal.Value()) == [cp]
  {
    journal := new Journal(EMPTY);
    EmptyIsValid();
    var seqNo := journal.Append(cp);
    assert [] + [cp] == [cp];
  }

  lemma EmptyIsValid()
    ensures Valid(EMPTY) && Log(EMPTY) == []
  {
    assert Seqs(EMPTY.db) == {};
  }

  method CollectFirst(journal: Journal, store: S.Store, policy: Policy, nowMs: nat, cp: Checkpoint)
    returns (metrics: Option<GarbageCollection.Metrics>, ghost live: set<Ulid>)
    requires Valid(journal.Value()) && Log(journal.Value()) == [cp]
    requires cp.rootTree in Trees(store.codec, store.Value())
    requires Flat(Trees(store.codec, store.Value())[cp.rootTree])
    modifies journal, store
    ensures metrics.Some? && store.disk.Keys <= {cp.rootTree}
  {
    ghost var j, s := journal.Value(), store.Value();
    metrics, live := Collect(policy, journal, store, {}, None, nowMs);
    RootsOfOne(j, live, cp);
    OnlyTheRoot(Trees(store.codec, s), Roots(j, live), cp.rootTree);
    hide Trees, Roots, Unreadable, LiveTrees, Log;
    assert metrics.Some?;
  }
}
