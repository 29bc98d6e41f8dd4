/**
 One store under the collector and the incremental update: the sweep deletes blob files but
 leaves the blob cache alone, and the update does not write a blob that the cache reports.
 */
module SharedStore {
  import opened Objects
  import opened PathMapFile
  import opened TreeDiff
  import opened JournalLog
  import opened GarbageCollection
  import opened Incremental
  import Reachability
  import S = ObjectStore

  /** A blob that was written and then swept. */
  method SweptStore(codec: S.Codec, content: Bytes) returns (store: S.Store)
    ensures fresh(store) && store.codec == codec
    ensures store.Value() == S.State(map[], map[], map[], {codec.blobName(content)})
  {
    store := new S.Store(codec);
    var hash := codec.blobName(content);
    var written := store.WriteBlob(hash, content);
    var deleted := SweepBlobs({}, store);
    assert store.blobs == map[] && store.blobCache == {hash};
  }

  lemma OneEntry(m: Tree, path: Path, e: Entry)
    requires Find(m, path) == Some(e) && forall p :: p != path ==> Find(m, p) == None
    ensures m == map[path := e]
  {
    forall p ensures Find(m, p) == Find(map[path := e], p) {}
    SameFinds(m, map[path := e]);
  }

  /** A file whose blob was written, swept and then reconciled again: the new entry cannot be read. */
  method SweptBlobIsReused(codec: S.Codec, root: Hash, path: Path, permissions: Permissions, content: Bytes)
    returns (m: PathMap, store: S.Store)
    ensures store.codec == codec
    ensures m.entries == map[path := FileEntry(StatMode(permissions), codec.blobName(content))]
    ensures S.HasBlob(store.Value(), codec.blobName(content))
    ensures !BlobsRead(codec, store.Value(), m.entries)
  {
    store := SweptStore(codec, content);
    var hash := codec.blobName(content);
    assert S.StaleBlob(codec, store.Value(), hash);
    m := new PathMap(root, map[]);
    hide S.StaleBlob, S.OnlyNewBlobs, FileEntry, StatMode, S.BlobContent, S.HasBlob;
    ReconcileFile(m, path, permissions, content, store);
    OneEntry(m.entries, path, FileEntry(StatMode(permissions), hash));
    EntryHash(permissions, hash);
    assert path in m.entries;
  }

  lemma EntryHash(permissions: Permissions, hash: Hash)
    ensures FileEntry(StatMode(permissions), hash).hash == hash
  {
  }

  lemma StaleAfterCollect(
    codec: S.Codec, live: set<Ulid>, j: State, s: S.State, j': State, s': S.State, metrics: Metrics, h: Hash)
    requires Valid(j) && Collected(codec, live, j, s, j', s', metrics)
    requires S.CacheBacked(s) && S.BlobsSound(codec, s)
    ensures S.StaleBlob(codec, s', h) <==> h in s.blobCache && !BlobNeeded(codec, live, j, s, h)
  {
    hide LiveTrees, Trees, Roots, S.Lookup, JournalSwept, Counted;
    var trees := Trees(codec, s);
    assert h in Present(s) ==>
      (h in BlobsOf(trees, LiveTrees(trees, Roots(j, live)), Present(s)) <==> BlobNeeded(codec, live, j, s, h));
  }

  lemma LiveBaseStillReads(
    codec: S.Codec, live: set<Ulid>, j: State, s: S.State, j': State, s': S.State, metrics: Metrics, cp: Checkpoint,
        base: Tree)
    requires Valid(j) && Collected(codec, live, j, s, j', s', metrics)
    requires cp in Log(j) && cp.id in live && S.Lookup(codec, s, cp.rootTree) == Ok(base)
    requires (forall p :: p in base ==> base[p].kind != Subtree) && BlobsRead(codec, s, base)
    ensures BlobsRead(codec, s', base)
  {
    hide Collected;
    forall p | p in base ensures S.BlobContent(codec, s', base[p].hash).Ok? {
      Reachability.ReachesItself(TreeGraph(Trees(codec, s)), cp.rootTree);
      CollectIsSafe(codec, live, j, s, j', s', metrics, cp, cp.rootTree, base[p].hash);
      assert base[p].hash in FileBlobs(base);
    }
  }

  /**
   An update on top of a live checkpoint, after a collection, leaves a tree whose blobs can all be
   read exactly when it uses no cached blob that no live tree needed.
   */
  lemma UpdateAfterCollectReadsExactly(
    codec: S.Codec, live: set<Ulid>, j: State, s: S.State, j': State, s': S.State, metrics: Metrics, cp: Checkpoint,
    base: Tree, s'': S.State, tree: Tree)
    requires Valid(j) && Collected(codec, live, j, s, j', s', metrics)
    requires S.CacheBacked(s) && S.BlobsSound(codec, s)
    requires cp in Log(j) && cp.id in live && S.Lookup(codec, s, cp.rootTree) == Ok(base)
    requires (forall p :: p in base ==> base[p].kind != Subtree) && BlobsRead(codec, s, base)
    requires S.BlobsAdded(codec, s', s'') && BlobsKnown(s'', base, tree)
    ensures BlobsRead(codec, s'', tree) <==>
            forall p :: p in tree && tree[p].hash in s.blobCache ==> BlobNeeded(codec, live, j, s, tree[p].hash)
  {
    hide *;
    LiveBaseStillReads(codec, live, j, s, j', s', metrics, cp, base);
    ReadsExactly(codec, s', s'', base, tree);
    NoneStaleAfterCollect(codec, live, j, s, j', s', metrics, tree);
  }

  lemma NoneStaleAfterCollect(
    codec: S.Codec, live: set<Ulid>, j: State, s: S.State, j': State, s': S.State, metrics: Metrics, tree: Tree)
    requires Valid(j) && Collected(codec, live, j, s, j', s', metrics)
    requires S.CacheBacked(s) && S.BlobsSound(codec, s)
    ensures NoneStale(codec, s', tree) <==>
            forall p :: p in tree && tree[p].hash in s.blobCache ==> BlobNeeded(codec, live, j, s, tree[p].hash)
  {
    hide Collected, S.StaleBlob, BlobNeeded, S.CacheBacked;
    forall p | p in tree
      ensures S.StaleBlob(codec, s', tree[p].hash) <==>
              tree[p].hash in s.blobCache && !BlobNeeded(codec, live, j, s, tree[p].hash)
    {
      StaleAfterCollect(codec, live, j, s, j', s', metrics, tree[p].hash);
    }
  }

  /** Without a sweep in between nothing that counts as present is unreadable. */
  lemma BackedBlobsRead(codec: S.Codec, s: S.State, s': S.State, base: Tree, tree: Tree)
    requires S.CacheBacked(s) && S.BlobsSound(codec, s) && BlobsRead(codec, s, base)
    requires S.BlobsAdded(codec, s, s') && BlobsKnown(s', base, tree)
    ensures BlobsRead(codec, s', tree)
  {
    ReadsExactly(codec, s, s', base, tree);
    forall p | p in tree ensures !S.StaleBlob(codec, s, tree[p].hash) {
      S.BackedIsNeverStale(codec, s, s', tree[p].hash);
    }
  }

  lemma FailedCollectKeepsBlobs(codec: S.Codec, s: S.State, s': S.State, base: Tree)
    requires SameObjects(codec, s, s') && S.CacheBacked(s) && S.BlobsSound(codec, s) && BlobsRead(codec, s, base)
    ensures S.CacheBacked(s') && S.BlobsSound(codec, s') && BlobsRead(codec, s', base)
  {
  }

  /**
   A collection and then an update of a live checkpoint's tree, on one store.  After a failed
   collection every blob of the new tree can be read; after a successful one exactly when the tree
   uses no cached blob that no live tree needed.
   */
  method CollectThenUpdate(
    policy: Policy, journal: Journal, store: S.Store, pins: set<Ulid>, workspaces: Option<set<Ulid>>, nowMs: nat,
    cp: Checkpoint, base: PathMap, dirty: seq<Path>, files: Files, utf8: Bytes -> bool)
    returns (metrics: Option<Metrics>, r: Result<(Tree, Hash)>, newMap: PathMap, ghost live: set<Ulid>)
    requires Valid(journal.Value())
    requires S.CacheBacked(store.Value()) && S.BlobsSound(store.codec, store.Value())
    requires cp in Log(journal.Value()) && S.Lookup(store.codec, store.Value(), cp.rootTree) == Ok(base.entries)
    requires cp.id in LiveIds(policy, pins, if workspaces.Some? then workspaces.value else {}, nowMs,
                              Log(journal.Value()))
    requires forall p :: p in base.entries ==> base.entries[p].kind != Subtree
    requires BlobsRead(store.codec, store.Value(), base.entries)
    modifies journal, store
    ensures live == LiveIds(policy, pins, if workspaces.Some? then workspaces.value else {}, nowMs,
                            Log(old(journal.Value())))
    ensures metrics.None? && r.Ok? ==> BlobsRead(store.codec, store.Value(), r.value.0)
    ensures metrics.Some? && r.Ok? ==>
              (BlobsRead(store.codec, store.Value(), r.value.0) <==>
               forall p :: p in r.value.0 && r.value.0[p].hash in old(store.blobCache) ==>
                 BlobNeeded(store.codec, live, old(journal.Value()), old(store.Value()), r.value.0[p].hash))
  {
    ghost var j, s := journal.Value(), store.Value();
    assert s.blobCache == store.blobCache;
    hide *;
    metrics, live := Collect(policy, journal, store, pins, workspaces, nowMs);
    ghost var swept := store.Value();
    r, newMap := IncrementalUpdate(base, dirty, files, store, utf8);
    if r.Ok? {
      if metrics.Some? {
        UpdateAfterCollectReadsExactly(store.codec, live, j, s, journal.Value(), swept, metrics.value, cp, base.entries,
                                       store.Value(), r.value.0);
      } else {
        FailedCollectKeepsBlobs(store.codec, s, swept, base.entries);
        BackedBlobsRead(store.codec, swept, store.Value(), base.entries, r.value.0);
      }
    }
  }
}
