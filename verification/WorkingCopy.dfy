/**
 From the working copy to jj: what a published commit holds at each path, said in terms of the
 files alone.
 */
module WorkingCopy {
  import opened Objects
  import opened TreeDiff
  import opened Incremental
  import opened Materialize
  import opened PublishRange
  import S = ObjectStore

  /** What jj should hold for a node: its content's blob, executable if owner, group or others may execute it. */
  function ValueFor(blobName: Bytes -> Hash, node: Node): Option<TreeValue> {
    match node
    case Regular(permissions, content) =>
      Some(FileValue(blobName(content),
                     permissions / 64 % 2 == 1 || permissions / 8 % 2 == 1 || permissions % 2 == 1))
    case Link(target) => Some(SymlinkValue(blobName(target)))
    case _ => None
  }

  /** What jj should hold at a path: nothing inside the ignored directories. */
  function Expected(blobName: Bytes -> Hash, files: Files, p: Path): Option<TreeValue> {
    if p !in files || ShouldIgnore(p) then None else ValueFor(blobName, files[p])
  }

  /** Protected is exactly what lies inside one of these directories. */
  lemma ProtectedExactly(p: Path)
    ensures Protected(p) <==>
            Ascii(".tl/") <= p || Ascii(".git/") <= p || Ascii(".jj/") <= p
    ensures Protected(p) ==> ShouldIgnore(p)
  {
    assert Ascii(".tl/") == TL_DIR && Ascii(".git/") == GIT_DIR && Ascii(".jj/") == JJ_DIR;
    assert IGNORED[0] == Ascii(".tl") && IGNORED[1] == Ascii(".git") && IGNORED[2] == Ascii(".jj");
    assert Ascii(".tl") + [SLASH] == TL_DIR && Ascii(".git") + [SLASH] == GIT_DIR && Ascii(".jj") + [SLASH] == JJ_DIR;
  }

  /** The type bits of a file's mode lie above its permissions. */
  lemma StatModeDigits(permissions: Permissions)
    ensures StatMode(permissions) % 2 == permissions % 2
    ensures StatMode(permissions) / 8 % 2 == permissions / 8 % 2
    ensures StatMode(permissions) / 64 % 2 == permissions / 64 % 2
  {
    assert (0x8000 + permissions) / 8 == 0x1000 + permissions / 8;
    assert (0x8000 + permissions) / 64 == 0x200 + permissions / 64;
  }

  lemma ExecutableBits(permissions: Permissions, h: Hash)
    ensures HasExecBit(StatMode(permissions)) <==>
            permissions / 64 % 2 == 1 || permissions / 8 % 2 == 1 || permissions % 2 == 1
    ensures ValueOf(FileEntry(StatMode(permissions), h)) ==
            FileValue(h, permissions / 64 % 2 == 1 || permissions / 8 % 2 == 1 || permissions % 2 == 1)
  {
    StatModeDigits(permissions);
    hide StatMode;
    assert !HasExecBit(MODE_FILE);
  }

  lemma ScannedValue(blobName: Bytes -> Hash, node: Node)
    ensures match Scanned(blobName, node)
            case None => ValueFor(blobName, node) == None
            case Some(e) => e.kind != Subtree && ValueFor(blobName, node) == Some(ValueOf(e))
  {
    if node.Regular? {
      hide HasExecBit;
      ExecutableBits(node.permissions, blobName(node.content));
    }
  }

  /** The full conversion of the full scan is the working copy, path by path. */
  lemma ScanConverts(blobName: Bytes -> Hash, files: Files, p: Path)
    ensures Find(Converted(FullScan(blobName, files)), p) == Expected(blobName, files, p)
  {
    ProtectedExactly(p);
    if p in files { ScannedValue(blobName, files[p]); }
    hide ShouldIgnore, Protected, Scanned, ValueOf, ValueFor;
    assert p in Converted(FullScan(blobName, files)) <==> Publishable(FullScan(blobName, files), p);
  }

  /** So a commit soundly mapped to a checkpoint of a scan holds exactly that working copy. */
  lemma CommitHoldsWorkingCopy(
    w: Jj, treeOf: map<Ulid, Tree>, id: Ulid, blobName: Bytes -> Hash, files: Files, p: Path)
    requires MappingSound(w, treeOf) && id in w.forward && treeOf[id] == FullScan(blobName, files)
    ensures w.commits[w.forward[id]].tree.Some?
    ensures Find(w.commits[w.forward[id]].tree.value, p) == Expected(blobName, files, p)
  {
    hide Expected, Converted, FullScan;
    ScanConverts(blobName, files, p);
  }

  // ---------------------------------------------------------------- when the conversion succeeds

  /** The contents of the node that a blob holds. */
  function Stored(node: Node): Option<Bytes> {
    match node
    case Regular(_, content) => Some(content)
    case Link(target) => Some(target)
    case _ => None
  }

  /** Every file and link outside the ignored directories has its blob in the store. */
  ghost predicate AllStored(env: Env, files: Files) {
    forall p :: p in files && !ShouldIgnore(p) && Stored(files[p]).Some? ==>
      S.BlobContent(env.codec, env.store, env.codec.blobName(Stored(files[p]).value)) == Ok(Stored(files[p]).value)
  }

  /** jj can represent the path and, if it is a link, its target. */
  predicate Representable(env: Env, p: Path, node: Node) {
    env.utf8(p) && env.validPath(p) && (node.Link? ==> env.utf8(node.target))
  }

  lemma EntryConvertsExactly(env: Env, p: Path, node: Node)
    requires Scanned(env.codec.blobName, node).Some? && !ShouldIgnore(p)
    requires S.BlobContent(env.codec, env.store, env.codec.blobName(Stored(node).value)) == Ok(Stored(node).value)
    ensures EntryConverts(env, p, Scanned(env.codec.blobName, node).value) <==> Representable(env, p, node)
  {
    ProtectedExactly(p);
    hide ShouldIgnore, Protected, HasExecBit;
  }

  /** Once the blobs are stored, the conversion fails exactly on a path or link target that jj cannot represent. */
  lemma ScanConvertsExactly(env: Env, files: Files)
    requires AllStored(env, files)
    ensures var scan := FullScan(env.codec.blobName, files);
            AllConvertible(env, scan, scan.Keys) <==>
            forall p :: p in files && !ShouldIgnore(p) && Stored(files[p]).Some? ==> Representable(env, p, files[p])
  {
    var scan := FullScan(env.codec.blobName, files);
    forall p | p in files && !ShouldIgnore(p) && Stored(files[p]).Some?
      ensures p in scan && (EntryConverts(env, p, scan[p]) <==> Representable(env, p, files[p]))
    {
      EntryConvertsExactly(env, p, files[p]);
    }
    hide ShouldIgnore, Representable, EntryConverts;
  }
}
