/**
 What a collection keeps, path by path: every checkpoint left in the journal reads as before at
 every path, and no file is left that none of them leads to.
 */
module LiveContents {
  import opened Objects
  import opened JournalLog
  import opened GarbageCollection
  import opened Reachability
  import S = ObjectStore

  // ---------------------------------------------------------------- following a path

  /** The entry that a list of names leads to, one tree after the other. */
  function EntryAt(codec: S.Codec, s: S.State, root: Hash, names: seq<Path>): Option<Entry>
    decreases |names|
  {
    if names == [] then None
    else match S.Lookup(codec, s, root)
         case Err => None
         case Ok(t) =>
           if names[0] !in t then None
           else if |names| == 1 then Some(t[names[0]])
           else if t[names[0]].kind == Subtree then EntryAt(codec, s, t[names[0]].hash, names[1..])
           else None
  }

  /** The tree that a list of names leads to: the root itself, or the one a subtree entry names. */
  ghost predicate LeadsToTree(codec: S.Codec, s: S.State, root: Hash, names: seq<Path>, h: Hash) {
    if names == [] then h == root
    else var e := EntryAt(codec, s, root, names); e.Some? && e.value.kind == Subtree && e.value.hash == h
  }

  /** The names lead to a file or link with this blob. */
  ghost predicate LeadsToBlob(codec: S.Codec, s: S.State, root: Hash, names: seq<Path>, b: Hash) {
    var e := EntryAt(codec, s, root, names); e.Some? && e.value.kind != Subtree && e.value.hash == b
  }

  /** What reading the file at a list of names gives. */
  function ContentAt(codec: S.Codec, s: S.State, root: Hash, names: seq<Path>): Result<Bytes> {
    var e := EntryAt(codec, s, root, names);
    if e.Some? && e.value.kind != Subtree then S.BlobContent(codec, s, e.value.hash) else Err
  }

  lemma {:induction false} EntryInReachedTree(codec: S.Codec, s: S.State, root: Hash, names: seq<Path>)
    returns (h: Hash, n: Path)
    requires EntryAt(codec, s, root, names).Some?
    ensures Reaches(TreeGraph(Trees(codec, s)), root, h)
    ensures h in Trees(codec, s) && n in Trees(codec, s)[h]
    ensures Trees(codec, s)[h][n] == EntryAt(codec, s, root, names).value
    decreases |names|
  {
    LookupIsTrees(codec, s, root);
    hide Trees, S.Lookup, TreeGraph, Reaches;
    if |names| == 1 {
      ReachesItself(TreeGraph(Trees(codec, s)), root);
      h, n := root, names[0];
    } else {
      var child := Trees(codec, s)[root][names[0]].hash;
      h, n := EntryInReachedTree(codec, s, child, names[1..]);
      assert child in Subtrees(Trees(codec, s)[root]);
      ChildReached(Trees(codec, s), root, child, h);
    }
  }

  lemma {:induction false} EntryBelow(codec: S.Codec, s: S.State, root: Hash, names: seq<Path>, h: Hash, n: Path)
    requires LeadsToTree(codec, s, root, names, h) && S.Lookup(codec, s, h).Ok? && n in S.Lookup(codec, s, h).value
    ensures EntryAt(codec, s, root, names + [n]) == Some(S.Lookup(codec, s, h).value[n])
    decreases |names|
  {
    hide S.Lookup;
    if names != [] {
      assert (names + [n])[0] == names[0] && (names + [n])[1..] == names[1..] + [n];
      EntryBelow(codec, s, S.Lookup(codec, s, root).value[names[0]].hash, names[1..], h, n);
    }
  }

  lemma {:induction false} WalkHasNames(codec: S.Codec, s: S.State, w: seq<Hash>) returns (names: seq<Path>)
    requires Walk(TreeGraph(Trees(codec, s)), w)
    ensures LeadsToTree(codec, s, w[0], names, w[|w| - 1])
    decreases |w|
  {
    if |w| == 1 {
      names := [];
    } else {
      var rest, root := w[1..], w[0];
      assert Walk(TreeGraph(Trees(codec, s)), rest) by {
        forall i | 0 <= i < |rest| - 1 ensures rest[i + 1] in Successors(TreeGraph(Trees(codec, s)), rest[i]) {
          assert w[i + 2] in Successors(TreeGraph(Trees(codec, s)), w[i + 1]);
        }
      }
      var later := WalkHasNames(codec, s, rest);
      assert w[0 + 1] in Successors(TreeGraph(Trees(codec, s)), w[0]);
      GraphSuccessors(Trees(codec, s), root);
      LookupIsTrees(codec, s, root);
      hide Trees, S.Lookup, TreeGraph;
      var n :| n in Trees(codec, s)[root] && Trees(codec, s)[root][n].kind.Subtree?
               && Trees(codec, s)[root][n].hash == w[1];
      names := [n] + later;
      assert names[1..] == later;
    }
  }

  /** Reaching a tree is being led to it by some list of names. */
  lemma ReachedByNames(codec: S.Codec, s: S.State, root: Hash, h: Hash)
    ensures Reaches(TreeGraph(Trees(codec, s)), root, h) <==> exists names :: LeadsToTree(codec, s, root, names, h)
  {
    var g := TreeGraph(Trees(codec, s));
    if Reaches(g, root, h) {
      var w :| WalkBetween(g, w, root, h);
      var names := WalkHasNames(codec, s, w);
    }
    if names :| LeadsToTree(codec, s, root, names, h) {
      hide Trees, S.Lookup, TreeGraph, Reaches;
      if names == [] {
        ReachesItself(g, root);
      } else {
        var at, n := EntryInReachedTree(codec, s, root, names);
        GraphSuccessors(Trees(codec, s), at);
        ReachesStep(g, root, at, h);
      }
    }
  }

  // ---------------------------------------------------------------- what stays

  /** Every cached tree can be read from its file. */
  ghost predicate CacheAgrees(codec: S.Codec, s: S.State) {
    forall h :: h in s.cache ==> S.Lookup(codec, FromFiles(s), h) == Ok(s.cache[h])
  }

  lemma FilesAgree(codec: S.Codec, s: S.State, h: Hash)
    requires CacheAgrees(codec, s)
    ensures S.Lookup(codec, FromFiles(s), h) == S.Lookup(codec, s, h)
  {
  }

  lemma EntryInTree(codec: S.Codec, s: S.State, h: Hash, t: Tree, names: seq<Path>)
    requires names != [] && S.Lookup(codec, s, h) == Ok(t)
    ensures EntryAt(codec, s, h, names) ==
            if names[0] !in t then None
            else if |names| == 1 then Some(t[names[0]])
            else if t[names[0]].kind == Subtree then EntryAt(codec, s, t[names[0]].hash, names[1..])
            else None
  {
    hide S.Lookup;
  }

  lemma ReadsStay(
    codec: S.Codec, live: set<Ulid>, j: State, s: S.State, j': State, s': S.State, m: Metrics, cp: Checkpoint, h: Hash)
    returns (t: Tree)
    requires Valid(j) && Collected(codec, live, j, s, j', s', m) && cp in Log(j) && cp.id in live
    requires Reaches(TreeGraph(Trees(codec, s)), cp.rootTree, h)
    ensures S.Lookup(codec, s, h) == Ok(t) == S.Lookup(codec, s', h)
    ensures CacheAgrees(codec, s) ==> S.Lookup(codec, FromFiles(s'), h) == Ok(t)
    ensures Successors(TreeGraph(Trees(codec, s)), h) == Subtrees(t)
  {
    CollectIsSafe(codec, live, j, s, j', s', m, cp, h, h);
    LookupIsTrees(codec, s, h);
    GraphSuccessors(Trees(codec, s), h);
    hide Collected, Trees, TreeGraph, Reaches, S.Lookup, Log, Valid, FromFiles, CacheAgrees;
    t := Trees(codec, s)[h];
    if CacheAgrees(codec, s) { FilesAgree(codec, s, h); }
  }

  lemma {:induction false} EntriesStay(
    codec: S.Codec, live: set<Ulid>, j: State, s: S.State, j': State, s': S.State, m: Metrics, cp: Checkpoint,
    h: Hash, names: seq<Path>)
    requires Valid(j) && Collected(codec, live, j, s, j', s', m) && cp in Log(j) && cp.id in live
    requires Reaches(TreeGraph(Trees(codec, s)), cp.rootTree, h)
    ensures EntryAt(codec, s', h, names) == EntryAt(codec, s, h, names)
    ensures CacheAgrees(codec, s) ==> EntryAt(codec, FromFiles(s'), h, names) == EntryAt(codec, s, h, names)
    decreases |names|
  {
    if names != [] {
      hide *;
      var t := ReadsStay(codec, live, j, s, j', s', m, cp, h);
      EntryInTree(codec, s, h, t, names);
      EntryInTree(codec, s', h, t, names);
      if CacheAgrees(codec, s) { EntryInTree(codec, FromFiles(s'), h, t, names); }
      if names[0] in t && t[names[0]].kind == Subtree {
        var child := t[names[0]].hash;
        SubtreeListed(t, names[0]);
        ReachesStep(TreeGraph(Trees(codec, s)), cp.rootTree, h, child);
        EntriesStay(codec, live, j, s, j', s', m, cp, child, names[1..]);
      }
    }
  }

  lemma SubtreeListed(t: Tree, n: Path)
    requires n in t && t[n].kind == Subtree
    ensures t[n].hash in Subtrees(t)
  {
  }

  lemma BlobStays(
    codec: S.Codec, live: set<Ulid>, j: State, s: S.State, j': State, s': S.State, m: Metrics, cp: Checkpoint,
    names: seq<Path>, b: Hash)
    requires Valid(j) && Collected(codec, live, j, s, j', s', m) && cp in Log(j) && cp.id in live
    requires LeadsToBlob(codec, s, cp.rootTree, names, b)
    ensures S.BlobContent(codec, s', b) == S.BlobContent(codec, s, b)
    ensures BlobNeeded(codec, live, j, s, b)
  {
    var h, n := EntryInReachedTree(codec, s, cp.rootTree, names);
    LookupIsTrees(codec, s, h);
    hide Collected, Trees, TreeGraph, Reaches, S.Lookup, Log, EntryAt;
    assert Trees(codec, s)[h][n].hash == b && b in FileBlobs(Trees(codec, s)[h]);
    CollectIsSafe(codec, live, j, s, j', s', m, cp, h, b);
    RootIsMarked(Trees(codec, s), j, live, cp, h);
  }

  /**
   After a collection every checkpoint that is left in the journal reads as before at every path: the
   same entries and contents, through the cache and from the files alone.
   */
  lemma CheckpointsReadAsBefore(
    codec: S.Codec, live: set<Ulid>, j: State, s: S.State, j': State, s': S.State, m: Metrics, cp: Checkpoint,
    names: seq<Path>)
    requires Valid(j) && Collected(codec, live, j, s, j', s', m)
    requires Valid(j') && cp in Log(j')
    ensures EntryAt(codec, s', cp.rootTree, names) == EntryAt(codec, s, cp.rootTree, names)
    ensures ContentAt(codec, s', cp.rootTree, names) == ContentAt(codec, s, cp.rootTree, names)
    ensures CacheAgrees(codec, s) ==>
              && EntryAt(codec, FromFiles(s'), cp.rootTree, names) == EntryAt(codec, s, cp.rootTree, names)
              && ContentAt(codec, FromFiles(s'), cp.rootTree, names) == ContentAt(codec, s, cp.rootTree, names)
  {
    hide Collected, Trees, TreeGraph, S.Lookup, Log, Valid, EntryAt, CacheAgrees;
    CollectIsExact(codec, live, j, s, j', s', m);
    ReachesItself(TreeGraph(Trees(codec, s)), cp.rootTree);
    EntriesStay(codec, live, j, s, j', s', m, cp, cp.rootTree, names);
    var e := EntryAt(codec, s, cp.rootTree, names);
    if e.Some? && e.value.kind != Subtree { BlobStays(codec, live, j, s, j', s', m, cp, names, e.value.hash); }
  }

  // ---------------------------------------------------------------- what goes

  /** Some checkpoint in the journal leads to the tree. */
  ghost predicate TreeInUse(codec: S.Codec, j: State, s: S.State, h: Hash)
    requires Valid(j)
  {
    exists cp, names :: cp in Log(j) && LeadsToTree(codec, s, cp.rootTree, names, h)
  }

  ghost predicate BlobInUse(codec: S.Codec, j: State, s: S.State, b: Hash)
    requires Valid(j)
  {
    exists cp, names :: cp in Log(j) && LeadsToBlob(codec, s, cp.rootTree, names, b)
  }

  lemma TreeInUseExactly(
    codec: S.Codec, live: set<Ulid>, j: State, s: S.State, j': State, s': S.State, m: Metrics, h: Hash)
    requires Valid(j) && Collected(codec, live, j, s, j', s', m) && Valid(j')
    ensures Needed(codec, live, j, s, h) <==> TreeInUse(codec, j', s, h)
  {
    hide Collected, Trees, TreeGraph, Reaches, S.Lookup, Log, LeadsToTree;
    CollectIsExact(codec, live, j, s, j', s', m);
    if Needed(codec, live, j, s, h) {
      var cp :| cp in Log(j) && cp.id in live && Reaches(TreeGraph(Trees(codec, s)), cp.rootTree, h);
      ReachedByNames(codec, s, cp.rootTree, h);
    }
    if TreeInUse(codec, j', s, h) {
      var cp, names :| cp in Log(j') && LeadsToTree(codec, s, cp.rootTree, names, h);
      ReachedByNames(codec, s, cp.rootTree, h);
    }
  }

  lemma BlobInUseExactly(
    codec: S.Codec, live: set<Ulid>, j: State, s: S.State, j': State, s': S.State, m: Metrics, b: Hash)
    requires Valid(j) && Collected(codec, live, j, s, j', s', m) && Valid(j')
    ensures BlobNeeded(codec, live, j, s, b) <==> BlobInUse(codec, j', s, b)
  {
    hide Collected, Trees, TreeGraph, Reaches, S.Lookup, Log, EntryAt, LiveTrees, Roots;
    CollectIsExact(codec, live, j, s, j', s', m);
    if BlobNeeded(codec, live, j, s, b) {
      var trees := Trees(codec, s);
      var h :| h in LiveTrees(trees, Roots(j, live)) && h in trees && b in FileBlobs(trees[h]);
      MarkedIsNeeded(codec, live, j, s, h);
      TreeInUseExactly(codec, live, j, s, j', s', m, h);
      var cp, names :| cp in Log(j') && LeadsToTree(codec, s, cp.rootTree, names, h);
      LookupIsTrees(codec, s, h);
      var n :| n in trees[h] && !trees[h][n].kind.Subtree? && trees[h][n].hash == b;
      EntryBelow(codec, s, cp.rootTree, names, h, n);
      assert LeadsToBlob(codec, s, cp.rootTree, names + [n], b);
    }
    if BlobInUse(codec, j', s, b) {
      var cp, names :| cp in Log(j') && LeadsToBlob(codec, s, cp.rootTree, names, b);
      BlobStays(codec, live, j, s, j', s', m, cp, names, b);
    }
  }

  lemma SweptBlobsExactly(
    codec: S.Codec, live: set<Ulid>, j: State, s: S.State, j': State, s': S.State, m: Metrics, b: Hash)
    requires Valid(j) && Collected(codec, live, j, s, j', s', m)
    ensures b in s'.blobs <==> b in s.blobs && BlobNeeded(codec, live, j, s, b)
  {
    hide Trees, LiveTrees, Roots, JournalSwept, Counted, S.Lookup;
    var trees := Trees(codec, s);
    assert b in Present(s) ==>
      (b in BlobsOf(trees, LiveTrees(trees, Roots(j, live)), Present(s)) <==> BlobNeeded(codec, live, j, s, b));
  }

  /** The tree and blob files left are exactly those that a checkpoint left in the journal leads to. */
  lemma NothingUnusedIsLeft(
    codec: S.Codec, live: set<Ulid>, j: State, s: S.State, j': State, s': S.State, m: Metrics)
    requires Valid(j) && Collected(codec, live, j, s, j', s', m) && Valid(j')
    ensures forall h :: h in s'.disk <==> h in s.disk && TreeInUse(codec, j', s, h)
    ensures forall b :: b in s'.blobs <==> b in s.blobs && BlobInUse(codec, j', s, b)
  {
    hide *;
    CollectIsExact(codec, live, j, s, j', s', m);
    forall h ensures Needed(codec, live, j, s, h) <==> TreeInUse(codec, j', s, h) {
      TreeInUseExactly(codec, live, j, s, j', s', m, h);
    }
    forall b ensures b in s'.blobs <==> b in s.blobs && BlobInUse(codec, j', s, b) {
      BlobInUseExactly(codec, live, j, s, j', s', m, b);
      SweptBlobsExactly(codec, live, j, s, j', s', m, b);
    }
  }

  /** Collecting succeeds exactly when every live checkpoint can be read along every list of names. */
  lemma MarksExactlyReadable(codec: S.Codec, live: set<Ulid>, j: State, s: S.State)
    requires Valid(j)
    ensures (forall r :: r in Roots(j, live) ==> !Unreadable(Trees(codec, s), r)) <==>
            forall cp, names, h :: cp in Log(j) && cp.id in live && LeadsToTree(codec, s, cp.rootTree, names, h) ==>
              S.Lookup(codec, s, h).Ok?
  {
    RootsOfLog(j, live);
    hide Trees, TreeGraph, Reaches, S.Lookup, Log, LeadsToTree, Roots, Valid;
    if forall r :: r in Roots(j, live) ==> !Unreadable(Trees(codec, s), r) {
      forall cp, names, h | cp in Log(j) && cp.id in live && LeadsToTree(codec, s, cp.rootTree, names, h)
        ensures S.Lookup(codec, s, h).Ok?
      {
        ReachedByNames(codec, s, cp.rootTree, h);
        LookupIsTrees(codec, s, h);
        assert cp.rootTree in Roots(j, live);
      }
    }
    if r :| r in Roots(j, live) && Unreadable(Trees(codec, s), r) {
      var cp :| cp in Log(j) && cp.id in live && cp.rootTree == r;
      var h :| h !in Trees(codec, s) && Reaches(TreeGraph(Trees(codec, s)), r, h);
      ReachedByNames(codec, s, r, h);
      var names :| LeadsToTree(codec, s, r, names, h);
      LookupIsTrees(codec, s, h);
    }
  }
}
