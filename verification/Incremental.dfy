/**
 The incremental tree update: only dirty paths are looked at, and the result is compared
 with a full scan of the working copy.
 */
module Incremental {
  import opened Objects
  import opened PathMapFile
  import opened TreeDiff
  import opened TreeCodec
  import S = ObjectStore

  // ---------------------------------------------------------------- paths

  function Ascii(s: string): Bytes {
    seq(|s|, i requires 0 <= i < |s| => s[i] as int % 0x100)
  }

  predicate StartsWith(p: Path, prefix: Bytes) {
    prefix <= p
  }

  const IGNORED: seq<Bytes> := [
    Ascii(".tl"), Ascii(".git"), Ascii(".jj"), Ascii(".svn"), Ascii(".hg"),
    Ascii("target"), Ascii("node_modules"), Ascii(".idea"), Ascii(".vscode"),
    Ascii("__pycache__"), Ascii(".pytest_cache"), Ascii("dist"), Ascii("build")]

  const SLASH: Byte := 47
  const BACKSLASH: Byte := 92
  const DOT: Byte := 46

  predicate ShouldIgnore(p: Path) {
    exists d :: d in IGNORED && (p == d || StartsWith(p, d + [SLASH]))
  }

  /** The path up to its first slash. */
  function FirstComponent(p: Path): Path {
    if p == [] || p[0] == SLASH then [] else [p[0]] + FirstComponent(p[1..])
  }

  lemma {:induction false} FirstComponentIs(p: Path, name: Bytes)
    requires SLASH !in name
    ensures FirstComponent(p) == name <==> p == name || name + [SLASH] <= p
  {
    if p != [] && p[0] != SLASH {
      if name != [] && name[0] == p[0] {
        FirstComponentIs(p[1..], name[1..]);
        assert name == [name[0]] + name[1..] && p == [p[0]] + p[1..];
        assert name + [SLASH] == [name[0]] + (name[1..] + [SLASH]);
      } else if name != [] {
        assert (name + [SLASH])[0] == name[0];
      }
    } else if name != [] {
      assert (name + [SLASH])[0] == name[0];
    }
  }

  /** Ignored is exactly what lies in, or is, one of these at the top of the working copy. */
  lemma IgnoredExactly(p: Path)
    ensures ShouldIgnore(p) <==> FirstComponent(p) in [
              Ascii(".tl"), Ascii(".git"), Ascii(".jj"), Ascii(".svn"), Ascii(".hg"),
              Ascii("target"), Ascii("node_modules"), Ascii(".idea"), Ascii(".vscode"),
              Ascii("__pycache__"), Ascii(".pytest_cache"), Ascii("dist"), Ascii("build")]
  {
    forall d | d in IGNORED ensures FirstComponent(p) == d <==> p == d || StartsWith(p, d + [SLASH]) {
      assert SLASH !in d;
      FirstComponentIs(p, d);
    }
    hide Ascii, FirstComponent;
    if ShouldIgnore(p) {
      var d :| d in IGNORED && (p == d || StartsWith(p, d + [SLASH]));
    }
  }

  /** Some component of `p`, between slashes, is `..`. */
  predicate HasParentDir(p: Path, atStart: bool) {
    if |p| < 2 then false
    else if atStart && p[0] == DOT && p[1] == DOT && (|p| == 2 || p[2] == SLASH) then true
    else HasParentDir(p[1..], p[0] == SLASH)
  }

  function ForwardSlashes(p: Path): Path {
    seq(|p|, i requires 0 <= i < |p| => if p[i] == BACKSLASH then SLASH else p[i])
  }

  /** `normalize_path`: rejects absolute paths and `..`, drops one `./`, turns backslashes around. */
  function NormalizePath(p: Path): Result<Path> {
    if StartsWith(p, [SLASH]) || HasParentDir(p, true) then Err
    else Ok(ForwardSlashes(if StartsWith(p, [DOT, SLASH]) then p[2..] else p))
  }

  /** The two bytes from `i` on are a whole component. */
  predicate ParentDirAt(p: Path, i: nat) {
    && i + 2 <= |p| && p[i] == DOT && p[i + 1] == DOT
    && (i == 0 || p[i - 1] == SLASH) && (i + 2 == |p| || p[i + 2] == SLASH)
  }

  lemma {:induction false} HasParentDirExactly(p: Path, atStart: bool)
    ensures HasParentDir(p, atStart) <==> exists i: nat :: ParentDirAt(p, i) && (i == 0 ==> atStart)
  {
    if |p| >= 2 {
      HasParentDirExactly(p[1..], p[0] == SLASH);
      if i: nat :| ParentDirAt(p[1..], i) && (i == 0 ==> p[0] == SLASH) { assert ParentDirAt(p, i + 1); }
      if i: nat :| ParentDirAt(p, i) && (i == 0 ==> atStart) {
        if i > 0 { assert ParentDirAt(p[1..], i - 1); }
      }
      assert HasParentDir(p, atStart) && !HasParentDir(p[1..], p[0] == SLASH) ==> ParentDirAt(p, 0);
    }
  }

  /** Accepted are the relative paths without a `..` component; one `./` goes, every backslash is turned around. */
  lemma NormalizedExactly(p: Path, q: Path, kept: Path)
    requires if [DOT, SLASH] <= p then p == [DOT, SLASH] + kept else p == kept
    ensures NormalizePath(p) == Ok(q) <==>
            && !([SLASH] <= p) && (forall i: nat :: !ParentDirAt(p, i))
            && |q| == |kept|
            && forall k :: 0 <= k < |q| ==> q[k] == if kept[k] == BACKSLASH then SLASH else kept[k]
  {
    HasParentDirExactly(p, true);
    hide HasParentDir;
    if [DOT, SLASH] <= p { assert p[2..] == kept; }
    if |q| == |kept| && forall k :: 0 <= k < |q| ==> q[k] == if kept[k] == BACKSLASH then SLASH else kept[k] {
      assert q == ForwardSlashes(kept);
    }
  }

  /** The set of paths that is reconciled. */
  function Normalized(dirty: seq<Path>): set<Path> {
    set p | p in dirty && !ShouldIgnore(p) && NormalizePath(p).Ok? :: NormalizePath(p).value
  }

  method NormalizeDirtyPaths(dirty: seq<Path>) returns (normalized: set<Path>)
    ensures normalized == Normalized(dirty)
  {
    normalized := {};
    for i := 0 to |dirty|
      invariant normalized == Normalized(dirty[..i])
    {
      assert dirty[..i + 1] == dirty[..i] + [dirty[i]];
      if !ShouldIgnore(dirty[i]) {
        var n := NormalizePath(dirty[i]);
        if n.Ok? { normalized := normalized + {n.value}; }
      }
    }
    assert dirty[..|dirty|] == dirty;
  }

  // ---------------------------------------------------------------- the working copy

  type Permissions = n: nat | n < 0x1000

  /** What `symlink_metadata` and reading find at a path that exists. */
  datatype Node =
    | Regular(permissions: Permissions, content: Bytes)
    | Link(target: Bytes)
    | Directory
    | Special
    | Denied
    | Failing

  type Files = map<Path, Node>

  /** The `st_mode` of a regular file: its type bits and its permissions. */
  function StatMode(permissions: Permissions): U32 {
    0x8000 + permissions
  }

  /** The entry that a scan records for a node, if any. */
  function Scanned(blobName: Bytes -> Hash, node: Node): Option<Entry> {
    match node
    case Regular(permissions, content) => Some(FileEntry(StatMode(permissions), blobName(content)))
    case Link(target) => Some(SymlinkEntry(blobName(target)))
    case _ => None
  }

  /** A full scan: every file and link outside the ignored directories. */
  function FullScan(blobName: Bytes -> Hash, files: Files): Tree {
    map p | p in files && !ShouldIgnore(p) && Scanned(blobName, files[p]).Some?
      :: Scanned(blobName, files[p]).value
  }

  // ---------------------------------------------------------------- reconciling

  /** What happens to the entry of one dirty path. */
  function Outcome(blobName: Bytes -> Hash, entry: Option<Entry>, node: Option<Node>): Result<Option<Entry>> {
    match node
    case None => Ok(None)
    case Some(Failing) => Err
    case Some(Denied) => Ok(entry)
    case Some(Directory) => Ok(entry)
    case Some(Special) => Ok(entry)
    case Some(Regular(permissions, content)) =>
      var hash, mode := blobName(content), StatMode(permissions);
      if entry.Some? && entry.value.hash == hash && entry.value.mode == mode then Ok(entry)
      else Ok(Some(FileEntry(mode, hash)))
    case Some(Link(target)) =>
      var hash := blobName(target);
      if entry.Some? && entry.value.hash == hash then Ok(entry) else Ok(Some(SymlinkEntry(hash)))
  }

  /** Every entry's blob can be read. */
  ghost predicate BlobsRead(codec: S.Codec, s: S.State, m: Tree) {
    forall p :: p in m ==> S.BlobContent(codec, s, m[p].hash).Ok?
  }

  /** The blobs of reconciled entries count as present; the others are the base's. */
  ghost predicate BlobsKnown(s: S.State, base: Tree, m: Tree) {
    forall p :: p in m && Find(m, p) != Find(base, p) ==> S.HasBlob(s, m[p].hash)
  }

  /** `reconcile_file`. */
  method ReconcileFile(m: PathMap, path: Path, permissions: Permissions, content: Bytes, store: S.Store)
    modifies m`entries, store`blobs, store`blobCache
    ensures Ok(Find(m.entries, path)) ==
            Outcome(store.codec.blobName, Find(old(m.entries), path), Some(Regular(permissions, content)))
    ensures forall p :: p != path ==> Find(m.entries, p) == Find(old(m.entries), p)
    ensures S.OnlyNewBlobs(store.codec, old(store.Value()), store.Value())
    ensures var hash := store.codec.blobName(content);
            && S.HasBlob(store.Value(), hash)
            && (!S.HasBlob(old(store.Value()), hash) ==> S.BlobContent(store.codec, store.Value(), hash) == Ok(content))
            && (S.BlobContent(store.codec, store.Value(), hash).Ok? <==>
                !S.StaleBlob(store.codec, old(store.Value()), hash))
  {
    var mode := StatMode(permissions);
    var hash := store.codec.blobName(content);
    if !(hash in store.blobCache || hash in store.blobs) {
      var written := store.WriteBlob(hash, content);
    }
    S.PresentReadsExactly(store.codec, old(store.Value()), store.Value(), hash);
    var existing := m.Get(path);
    if existing.Some? {
      if existing.value.hash == hash && existing.value.mode == mode { return; }
    }
    m.Update(path, Some(FileEntry(mode, hash)));
  }

  /** `reconcile_symlink`. */
  method ReconcileSymlink(m: PathMap, path: Path, target: Bytes, store: S.Store)
    modifies m`entries, store`blobs, store`blobCache
    ensures Ok(Find(m.entries, path)) == Outcome(store.codec.blobName, Find(old(m.entries), path), Some(Link(target)))
    ensures forall p :: p != path ==> Find(m.entries, p) == Find(old(m.entries), p)
    ensures S.OnlyNewBlobs(store.codec, old(store.Value()), store.Value())
    ensures var hash := store.codec.blobName(target);
            Find(m.entries, path) != Find(old(m.entries), path) ==>
              && S.HasBlob(store.Value(), hash)
              && (!S.HasBlob(old(store.Value()), hash) ==>
                    S.BlobContent(store.codec, store.Value(), hash) == Ok(target))
              && (S.BlobContent(store.codec, store.Value(), hash).Ok? <==>
                  !S.StaleBlob(store.codec, old(store.Value()), hash))
  {
    var hash := store.codec.blobName(target);
    var existing := m.Get(path);
    if existing.Some? {
      if existing.value.hash == hash { return; }
    }
    if !(hash in store.blobCache || hash in store.blobs) {
      var written := store.WriteBlob(hash, target);
    }
    S.PresentReadsExactly(store.codec, old(store.Value()), store.Value(), hash);
    m.Update(path, Some(SymlinkEntry(hash)));
  }

  /** `reconcile_path`. */
  method ReconcilePath(m: PathMap, path: Path, files: Files, store: S.Store) returns (r: Result<()>)
    modifies m`entries, store`blobs, store`blobCache
    ensures match Outcome(store.codec.blobName, Find(old(m.entries), path), Find(files, path))
            case Err => r.Err?
            case Ok(e) => r.Ok? && Find(m.entries, path) == e
    ensures forall p :: p != path ==> Find(m.entries, p) == Find(old(m.entries), p)
    ensures S.OnlyNewBlobs(store.codec, old(store.Value()), store.Value())
    ensures Find(m.entries, path) != Find(old(m.entries), path) && path in m.entries ==>
              S.HasBlob(store.Value(), m.entries[path].hash)
  {
    r := Ok(());
    if path !in files {
      m.Update(path, None);
      return;
    }
    match files[path] {
      case Failing => r := Err;
      case Denied =>
      case Directory =>
      case Special =>
      case Link(target) => ReconcileSymlink(m, path, target, store);
      case Regular(permissions, content) => ReconcileFile(m, path, permissions, content, store);
    }
  }

  /** The map that results from reconciling `paths`, whatever the order. */
  ghost predicate Reconciled(blobName: Bytes -> Hash, base: Tree, paths: set<Path>, files: Files, m: Tree) {
    forall p ::
      if p in paths then Ok(Find(m, p)) == Outcome(blobName, Find(base, p), Find(files, p))
      else Find(m, p) == Find(base, p)
  }

  ghost predicate AllUtf8(utf8: Bytes -> bool, m: Tree) {
    forall p :: p in m ==> utf8(p)
  }

  /** `build_tree_from_map`: a path that is not UTF-8 is an error. */
  method BuildTree(m: PathMap, utf8: Bytes -> bool) returns (tree: Result<Tree>)
    ensures tree == if AllUtf8(utf8, m.entries) then Ok(m.entries) else Err
  {
    var entries: Tree := map[];
    var rest := m.entries.Keys;
    while rest != {}
      invariant rest <= m.entries.Keys
      invariant entries == map p | p in m.entries && p !in rest :: m.entries[p]
      invariant AllUtf8(utf8, entries)
      decreases |rest|
    {
      var p :| p in rest;
      if !utf8(p) { return Err; }
      entries := entries[p := m.entries[p]];
      rest := rest - {p};
    }
    assert entries == m.entries;
    tree := Ok(entries);
  }

  lemma ReconciledStep(
    blobName: Bytes -> Hash, base: Tree, done: set<Path>, files: Files, m: Tree, p: Path, m': Tree)
    requires Reconciled(blobName, base, done, files, m) && p !in done
    requires Ok(Find(m', p)) == Outcome(blobName, Find(m, p), Find(files, p))
    requires forall q :: q != p ==> Find(m', q) == Find(m, q)
    ensures Reconciled(blobName, base, done + {p}, files, m')
  {
    hide Outcome;
  }

  lemma OutcomeFails(blobName: Bytes -> Hash, entry: Option<Entry>, node: Option<Node>)
    ensures Outcome(blobName, entry, node).Err? <==> node == Some(Failing)
  {
  }

  lemma BlobsKnownStep(codec: S.Codec, s0: S.State, s: S.State, s': S.State, base: Tree, m: Tree, p: Path, m': Tree)
    requires S.OnlyNewBlobs(codec, s0, s) && S.OnlyNewBlobs(codec, s, s') && BlobsKnown(s, base, m)
    requires forall q :: q != p ==> Find(m', q) == Find(m, q)
    requires p in m' && Find(m', p) != Find(m, p) ==> S.HasBlob(s', m'[p].hash)
    ensures S.OnlyNewBlobs(codec, s0, s') && BlobsKnown(s', base, m')
  {
    forall q | q in m' && Find(m', q) != Find(base, q) ensures S.HasBlob(s', m'[q].hash) {
      if q != p { assert Find(m', q) == Find(m, q); }
    }
  }

  /** The loop of `incremental_update` over the normalised paths, in any order. */
  method ReconcileAll(m: PathMap, paths: set<Path>, files: Files, store: S.Store) returns (r: Result<()>)
    modifies m`entries, store`blobs, store`blobCache
    ensures r.Err? <==> exists p :: p in paths && Find(files, p) == Some(Failing)
    ensures r.Ok? ==> Reconciled(store.codec.blobName, old(m.entries), paths, files, m.entries)
    ensures S.OnlyNewBlobs(store.codec, old(store.Value()), store.Value())
    ensures r.Ok? ==> BlobsKnown(store.Value(), old(m.entries), m.entries)
  {
    ghost var base, s0 := m.entries, store.Value();
    ghost var done: set<Path> := {};
    var rest := paths;
    while rest != {}
      invariant done + rest == paths && done !! rest
      invariant Reconciled(store.codec.blobName, base, done, files, m.entries)
      invariant forall p :: p in done ==> Find(files, p) != Some(Failing)
      invariant S.OnlyNewBlobs(store.codec, s0, store.Value()) && BlobsKnown(store.Value(), base, m.entries)
      decreases |rest|
    {
      hide Reconciled, BlobsKnown, S.OnlyNewBlobs, Outcome, Find;
      var p :| p in rest;
      ghost var before, s := m.entries, store.Value();
      OutcomeFails(store.codec.blobName, Find(before, p), Find(files, p));
      r := ReconcilePath(m, p, files, store);
      BlobsKnownStep(store.codec, s0, s, store.Value(), base, before, p, m.entries);
      if r.Err? { return; }
      ReconciledStep(store.codec.blobName, base, done, files, before, p, m.entries);
      rest, done := rest - {p}, done + {p};
    }
    assert done == paths;
    r := Ok(());
  }

  /**
   `incremental_update`.  When the base's blobs could be read, those of the new tree can exactly
   when none of them counted as present without being readable.
   */
  method IncrementalUpdate(base: PathMap, dirty: seq<Path>, files: Files, store: S.Store, utf8: Bytes -> bool)
    returns (r: Result<(Tree, Hash)>, newMap: PathMap)
    modifies store
    ensures base.entries == old(base.entries) && fresh(newMap)
    ensures r.Err? <==> (exists p :: p in Normalized(dirty) && Find(files, p) == Some(Failing))
                        || !AllUtf8(utf8, newMap.entries)
    ensures r.Ok? ==>
      var (tree, hash) := r.value;
      && newMap.entries == tree
      && Reconciled(store.codec.blobName, base.entries, Normalized(dirty), files, tree)
      && hash == store.codec.name(tree) && hash in store.disk
      && (BlobsRead(store.codec, old(store.Value()), base.entries) ==>
            (BlobsRead(store.codec, store.Value(), tree) <==> NoneStale(store.codec, old(store.Value()), tree)))
      && BlobsKnown(store.Value(), base.entries, tree)
    ensures S.BlobsAdded(store.codec, old(store.Value()), store.Value())
  {
    hide Normalized, Reconciled, S.AfterWrite, BlobsRead, NoneStale, BlobsKnown, S.BlobsAdded, AllUtf8;
    var normalized := NormalizeDirtyPaths(dirty);
    newMap := new PathMap(base.rootTree, base.entries);
    ghost var s0 := store.Value();
    var reconciled := ReconcileAll(newMap, normalized, files, store);
    ghost var s := store.Value();
    if reconciled.Err? { return Err, newMap; }
    var tree := BuildTree(newMap, utf8);
    if tree.Err? { return Err, newMap; }
    var hash := store.WriteTree(tree.value);
    WriteKeepsBlobs(store.codec, s, tree.value);
    ReadsExactly(store.codec, s0, s, base.entries, tree.value);
    SameBlobs(store.codec, s0, s, store.Value(), base.entries, tree.value);
    r := Ok((tree.value, hash));
  }

  ghost predicate NoneStale(codec: S.Codec, s: S.State, m: Tree) {
    forall p :: p in m ==> !S.StaleBlob(codec, s, m[p].hash)
  }

  /** The blob half of the store. */
  function FilesOfBlobs(s: S.State): S.State {
    s.(disk := map[], cache := map[])
  }

  /** Nothing about blobs changes with the trees. */
  lemma SameBlobs(codec: S.Codec, s0: S.State, s: S.State, s': S.State, base: Tree, m: Tree)
    requires FilesOfBlobs(s) == FilesOfBlobs(s')
    ensures BlobsRead(codec, s, m) <==> BlobsRead(codec, s', m)
    ensures S.BlobsAdded(codec, s0, s) <==> S.BlobsAdded(codec, s0, s')
    ensures BlobsKnown(s, base, m) <==> BlobsKnown(s', base, m)
  {
    assert s.blobs == s'.blobs && s.blobCache == s'.blobCache;
  }

  lemma ReadsExactly(codec: S.Codec, s: S.State, s': S.State, base: Tree, m: Tree)
    requires S.BlobsAdded(codec, s, s') && BlobsKnown(s', base, m)
    ensures BlobsRead(codec, s, base) ==> (BlobsRead(codec, s', m) <==> NoneStale(codec, s, m))
  {
    forall p | p in m && BlobsRead(codec, s, base)
      ensures S.BlobContent(codec, s', m[p].hash).Ok? <==> !S.StaleBlob(codec, s, m[p].hash)
    {
      if Find(m, p) == Find(base, p) { assert S.BlobContent(codec, s, base[p].hash).Ok?; }
      S.PresentReadsExactly(codec, s, s', m[p].hash);
    }
  }

  lemma WriteKeepsBlobs(codec: S.Codec, s: S.State, tree: Tree)
    ensures var s' := S.AfterWrite(codec, s, tree);
            FilesOfBlobs(s') == FilesOfBlobs(s) && codec.name(tree) in s'.disk
  {
  }

  // ---------------------------------------------------------------- against the full scan

  /** A file or link entry as the constructors make it. */
  predicate Made(e: Entry) {
    e == FileEntry(e.mode, e.hash) || e == SymlinkEntry(e.hash)
  }

  ghost predicate Constructed(m: Tree) {
    forall p :: p in m ==> Made(m[p])
  }

  ghost predicate AgreesOff(blobName: Bytes -> Hash, base: Tree, paths: set<Path>, files: Files) {
    forall p :: p !in paths ==> Find(base, p) == Find(FullScan(blobName, files), p)
  }

  /**
   The guards under which one path is left wrong: an unreadable file, directory or special
   file where the base has an entry; a link whose target hashes like the entry it replaces;
   a path inside an ignored directory that the ignore test did not see before normalisation.
   */
  predicate Stuck(blobName: Bytes -> Hash, entry: Option<Entry>, files: Files, p: Path) {
    match Find<Node>(files, p)
    case None => false
    case Some(Regular(_, _)) => ShouldIgnore(p)
    case Some(Link(target)) =>
      ShouldIgnore(p) ||
      (entry.Some? && entry.value.hash == blobName(target) && entry.value.kind != Symlink)
    case Some(_) => entry.Some?
  }

  lemma KeptFileIsRight(e: Entry, permissions: Permissions, h: Hash)
    requires Made(e)
    requires e.hash == h && e.mode == StatMode(permissions)
    ensures e == FileEntry(StatMode(permissions), h)
  {
  }

  lemma PathIsRightIff(blobName: Bytes -> Hash, entry: Option<Entry>, files: Files, p: Path)
    requires Find(files, p) != Some(Failing)
    requires entry.Some? ==> Made(entry.value)
    ensures Outcome(blobName, entry, Find(files, p)) == Ok(Find(FullScan(blobName, files), p))
            <==> !Stuck(blobName, entry, files, p)
  {
    hide ShouldIgnore;
    if p in files && files[p].Regular? && entry.Some? && entry.value.hash == blobName(files[p].content)
       && entry.value.mode == StatMode(files[p].permissions) {
      KeptFileIsRight(entry.value, files[p].permissions, entry.value.hash);
    }
  }

  /**
   The incremental result is the full scan exactly when no dirty path meets one of the guards,
   in whatever order the dirty paths were reconciled.
   */
  lemma RefinesFullScanExactly(blobName: Bytes -> Hash, base: Tree, paths: set<Path>, files: Files, m: Tree)
    requires Constructed(base) && AgreesOff(blobName, base, paths, files)
    requires forall p :: p in paths ==> Find(files, p) != Some(Failing)
    requires Reconciled(blobName, base, paths, files, m)
    ensures m == FullScan(blobName, files) <==> forall p :: p in paths ==> !Stuck(blobName, Find(base, p), files, p)
  {
    hide FullScan, Outcome, Stuck;
    var scan := FullScan(blobName, files);
    forall p | p in paths
      ensures Find(m, p) == Find(scan, p) <==> !Stuck(blobName, Find(base, p), files, p)
    {
      PathIsRightIff(blobName, Find(base, p), files, p);
    }
    if forall p :: p in paths ==> !Stuck(blobName, Find(base, p), files, p) {
      forall p ensures Find(m, p) == Find(scan, p) { }
      SameFinds(m, scan);
    }
  }

  // ---------------------------------------------------------------- over runs

  /** One update: the paths it reconciles, and the working copy it finds. */
  datatype Update = Update(paths: set<Path>, files: Files)

  /** The update looks at every path outside the ignored directories that changed since `before`, and can read it. */
  ghost predicate Looks(before: Files, u: Update) {
    && (forall p :: !ShouldIgnore(p) && Find(before, p) != Find(u.files, p) ==> p in u.paths)
    && (forall p :: p in u.paths ==> Find(u.files, p) != Some(Failing))
  }

  /** One of its paths meets a guard, given what a scan recorded there before. */
  ghost predicate MeetsGuard(blobName: Bytes -> Hash, before: Files, u: Update) {
    exists p :: p in u.paths && Stuck(blobName, Find(FullScan(blobName, before), p), u.files, p)
  }

  /** `maps` are the results of the updates, one after the other. */
  ghost predicate Updates(blobName: Bytes -> Hash, m: Tree, updates: seq<Update>, maps: seq<Tree>)
    decreases |updates|
  {
    if updates == [] then maps == []
    else maps != [] && Reconciled(blobName, m, updates[0].paths, updates[0].files, maps[0])
         && Updates(blobName, maps[0], updates[1..], maps[1..])
  }

  ghost predicate LooksAlong(before: Files, updates: seq<Update>)
    decreases |updates|
  {
    updates == [] || (Looks(before, updates[0]) && LooksAlong(updates[0].files, updates[1..]))
  }

  ghost predicate NoGuardAlong(blobName: Bytes -> Hash, before: Files, updates: seq<Update>)
    decreases |updates|
  {
    updates == [] ||
    (!MeetsGuard(blobName, before, updates[0]) && NoGuardAlong(blobName, updates[0].files, updates[1..]))
  }

  /** Each map is the full scan of the working copy its update found. */
  ghost predicate ScansAlong(blobName: Bytes -> Hash, updates: seq<Update>, maps: seq<Tree>)
    requires |maps| == |updates|
    decreases |updates|
  {
    updates == [] ||
    (maps[0] == FullScan(blobName, updates[0].files) && ScansAlong(blobName, updates[1..], maps[1..]))
  }

  lemma {:induction false} UpdatesHaveMaps(blobName: Bytes -> Hash, m: Tree, updates: seq<Update>, maps: seq<Tree>)
    requires Updates(blobName, m, updates, maps)
    ensures |maps| == |updates|
    decreases |updates|
  {
    if updates != [] { UpdatesHaveMaps(blobName, maps[0], updates[1..], maps[1..]); }
  }

  lemma ScanIsConstructed(blobName: Bytes -> Hash, files: Files)
    ensures Constructed(FullScan(blobName, files))
  {
    hide ShouldIgnore;
  }

  lemma UnchangedScansAlike(blobName: Bytes -> Hash, before: Files, u: Update)
    requires Looks(before, u)
    ensures AgreesOff(blobName, FullScan(blobName, before), u.paths, u.files)
  {
    hide ShouldIgnore, Scanned;
    forall p | p !in u.paths ensures Find(FullScan(blobName, before), p) == Find(FullScan(blobName, u.files), p) {
      assert ShouldIgnore(p) || Find(before, p) == Find(u.files, p);
    }
  }

  /**
   Any number of updates, each on top of the one before and looking at whatever changed since: all
   their maps are full scans exactly when no update meets a guard.
   */
  lemma {:induction false} RunRefinesFullScansExactly(
    blobName: Bytes -> Hash, before: Files, updates: seq<Update>, maps: seq<Tree>)
    requires Updates(blobName, FullScan(blobName, before), updates, maps) && LooksAlong(before, updates)
    ensures |maps| == |updates|
    ensures ScansAlong(blobName, updates, maps) <==> NoGuardAlong(blobName, before, updates)
    decreases |updates|
  {
    UpdatesHaveMaps(blobName, FullScan(blobName, before), updates, maps);
    if updates != [] {
      var u := updates[0];
      ScanIsConstructed(blobName, before);
      UnchangedScansAlike(blobName, before, u);
      hide FullScan, Stuck, Reconciled, Constructed, AgreesOff;
      RefinesFullScanExactly(blobName, FullScan(blobName, before), u.paths, u.files, maps[0]);
      if maps[0] == FullScan(blobName, u.files) {
        RunRefinesFullScansExactly(blobName, u.files, updates[1..], maps[1..]);
      }
    }
  }

  lemma MadeIsCanonical(e: Entry)
    requires Made(e)
    ensures Canonical(e) && e.kind != Subtree
  {
    ConstructorsAreCanonical(e.mode, e.hash);
  }

  lemma OutcomeIsMade(blobName: Bytes -> Hash, entry: Option<Entry>, node: Option<Node>)
    requires entry.Some? ==> Made(entry.value)
    ensures var r := Outcome(blobName, entry, node); r.Ok? && r.value.Some? ==> Made(r.value.value)
  {
  }

  /**
   Updates keep every entry as the constructors make it, so that the tree survives its file
   format, and free of subtree entries, so that it can be published incrementally.
   */
  lemma UpdateKeepsConstructed(blobName: Bytes -> Hash, base: Tree, paths: set<Path>, files: Files, m: Tree)
    requires Constructed(base) && Reconciled(blobName, base, paths, files, m)
    ensures Constructed(m)
    ensures forall p :: p in m ==> Canonical(m[p]) && m[p].kind != Subtree
  {
    hide Made, Outcome, Canonical;
    forall p | p in m ensures Made(m[p]) && Canonical(m[p]) && m[p].kind != Subtree {
      assert Find(m, p) == Some(m[p]);
      OutcomeIsMade(blobName, Find(base, p), Find(files, p));
      MadeIsCanonical(m[p]);
    }
  }

  /** The order and repetition of dirty paths do not matter. */
  lemma OrderDoesNotMatter(blobName: Bytes -> Hash, base: Tree, dirty: seq<Path>, dirty': seq<Path>, files: Files,
      m: Tree, m': Tree)
    requires forall p :: p in dirty <==> p in dirty'
    requires Reconciled(blobName, base, Normalized(dirty), files, m)
    requires Reconciled(blobName, base, Normalized(dirty'), files, m')
    ensures m == m'
  {
    hide NormalizePath, ShouldIgnore, Outcome;
    assert Normalized(dirty) == Normalized(dirty');
    hide Normalized;
    forall p ensures Find(m, p) == Find(m', p) { }
    SameFinds(m, m');
  }

  /** A file replaced by a link whose target has the same bytes keeps its file entry. */
  lemma SymlinkSwapIsMissed(blobName: Bytes -> Hash, bytes: Bytes)
    ensures var p := Ascii("a");
            var base: Tree := map[p := FileEntry(StatMode(0x1A4), blobName(bytes))];
            var files: Files := map[p := Link(bytes)];
            Reconciled(blobName, base, {p}, files, base) && base != FullScan(blobName, files)
  {
    var p := Ascii("a");
    var base: Tree := map[p := FileEntry(StatMode(0x1A4), blobName(bytes))];
    var files: Files := map[p := Link(bytes)];
    if p in FullScan(blobName, files) { assert FullScan(blobName, files)[p].kind == Symlink; }
  }

  /** A file replaced by a directory keeps its entry. */
  lemma DirectoryIsMissed(blobName: Bytes -> Hash, bytes: Bytes)
    ensures var p := Ascii("a");
            var base: Tree := map[p := FileEntry(StatMode(0x1A4), blobName(bytes))];
            var files: Files := map[p := Directory];
            Reconciled(blobName, base, {p}, files, base) && base != FullScan(blobName, files)
  {
    var p := Ascii("a");
    var base: Tree := map[p := FileEntry(StatMode(0x1A4), blobName(bytes))];
    assert Find(base, p).Some? && Find(FullScan(blobName, map[p := Directory]), p).None?;
  }

  lemma SecondSlashIsNotIgnored(p: Path)
    requires |p| >= 2 && p[1] == SLASH
    ensures !ShouldIgnore(p)
  {
    assert forall i :: 0 <= i < |IGNORED| ==> |IGNORED[i]| >= 2 && IGNORED[i][1] != SLASH;
    forall d | d in IGNORED ensures p != d && !StartsWith(p, d + [SLASH]) {
      assert (d + [SLASH])[1] == d[1];
    }
  }

  /** The ignore test lets any ignored path through behind `./`, and then the prefix is dropped. */
  lemma IgnoredPathSlipsThrough(p: Path)
    requires ShouldIgnore(p) && !HasParentDir(p, true) && BACKSLASH !in p
    ensures p in Normalized([[DOT, SLASH] + p])
  {
    hide ShouldIgnore;
    var dirty: Path := [DOT, SLASH] + p;
    SecondSlashIsNotIgnored(dirty);
    assert dirty[1..] == [SLASH] + p && dirty[1..][1..] == p;
    assert dirty[2..] == p && ForwardSlashes(p) == p;
    assert !HasParentDir(dirty[1..], false) && !HasParentDir(dirty, true);
    assert !StartsWith(dirty, [SLASH]) by { assert dirty[0] != SLASH; }
    assert StartsWith(dirty, [DOT, SLASH]);
    assert dirty in [dirty];
  }
}
