/**
 Publishing: checkpoint trees become jj trees, fully or incrementally from a parent's tree,
 and a range of checkpoints becomes a chain of commits.  A jj tree is a flat map from path
 to value, and writing a file to jj returns its Git blob id.
 */
module Materialize {
  import opened Objects
  import opened TreeDiff
  import S = ObjectStore

  datatype TreeValue = FileValue(id: Hash, executable: bool) | SymlinkValue(id: Hash)

  type JjTree = map<Path, TreeValue>

  /** What conversion needs from outside: TL's store, Git's objects, and jj's path and text checks. */
  datatype Env = Env(
    codec: S.Codec,
    store: S.State,
    gitObjects: set<Hash>,
    validPath: Path -> bool,
    utf8: Bytes -> bool)

  const TL_DIR: Bytes := [46, 116, 108, 47]        // ".tl/"
  const GIT_DIR: Bytes := [46, 103, 105, 116, 47]  // ".git/"
  const JJ_DIR: Bytes := [46, 106, 106, 47]        // ".jj/"

  predicate Protected(p: Path) {
    TL_DIR <= p || GIT_DIR <= p || JJ_DIR <= p
  }

  // ---------------------------------------------------------------- one entry

  /** The value an entry stands for, independent of where its object is found. */
  function ValueOf(e: Entry): TreeValue {
    if e.kind == Symlink then SymlinkValue(e.hash)
    else FileValue(e.hash, e.kind == ExecutableFile || HasExecBit(e.mode))
  }

  /** Reading the blob fails when it is missing or does not hash to its name. */
  predicate Convertible(env: Env, p: Path, e: Entry) {
    env.validPath(p) &&
    match e.kind
    case Subtree => true
    case Symlink =>
      var content := S.BlobContent(env.codec, env.store, e.hash);
      content.Ok? && env.utf8(content.value)
    case _ => e.hash in env.gitObjects || S.BlobContent(env.codec, env.store, e.hash).Ok?
  }

  /** The entry's tree value; none for a subtree entry, which jj builds by itself. */
  method ConvertEntry(env: Env, p: Path, e: Entry) returns (r: Result<Option<TreeValue>>)
    ensures r.Ok? <==> Convertible(env, p, e)
    ensures r.Ok? ==> r.value == if e.kind == Subtree then None else Some(ValueOf(e))
  {
    if !env.validPath(p) { return Err; }
    match e.kind
    case Subtree =>
      r := Ok(None);
    case Symlink =>
      var content := S.BlobContent(env.codec, env.store, e.hash);
      if content.Err? || !env.utf8(content.value) { return Err; }
      r := Ok(Some(SymlinkValue(env.codec.blobName(content.value))));
    case _ =>
      var id;
      if e.hash in env.gitObjects {
        id := e.hash;
      } else {
        var content := S.BlobContent(env.codec, env.store, e.hash);
        if content.Err? { return Err; }
        id := env.codec.blobName(content.value);
      }
      r := Ok(Some(FileValue(id, e.kind == ExecutableFile || HasExecBit(e.mode))));
  }

  // ---------------------------------------------------------------- full conversion

  predicate Publishable(t: Tree, p: Path) {
    p in t && !Protected(p) && t[p].kind != Subtree
  }

  /** The full conversion of a tree. */
  function Converted(t: Tree): JjTree {
    map p | p in t && Publishable(t, p) :: ValueOf(t[p])
  }

  /**
   Entry by entry: a link becomes a link, a subtree entry nothing, and every other entry a file,
   executable if its kind says so or its mode lets owner, group or others execute it.
   */
  lemma ConvertedExactly(t: Tree, p: Path, v: TreeValue)
    ensures Find(Converted(t), p) == Some(v) <==>
            && p in t && !Protected(p) && t[p].hash == v.id
            && match v
               case SymlinkValue(_) => t[p].kind == Symlink
               case FileValue(_, executable) =>
                 && (t[p].kind == File || t[p].kind == ExecutableFile)
                 && (executable <==> t[p].kind == ExecutableFile || t[p].mode / 64 % 2 == 1 || t[p].mode / 8 % 2 == 1
                                     || t[p].mode % 2 == 1)
  {
    hide Protected;
    assert p in Converted(t) <==> Publishable(t, p);
  }

  /** Every path must be UTF-8, even a protected one. */
  predicate EntryConverts(env: Env, p: Path, e: Entry) {
    env.utf8(p) && (Protected(p) || Convertible(env, p, e))
  }

  ghost predicate AllConvertible(env: Env, t: Tree, paths: set<Path>) {
    forall p :: p in paths && p in t ==> EntryConverts(env, p, t[p])
  }

  /** `convert_tree_to_jj`. */
  method ConvertTree(env: Env, t: Tree) returns (r: Result<JjTree>)
    ensures r.Ok? <==> AllConvertible(env, t, t.Keys)
    ensures r.Ok? ==> r.value == Converted(t)
  {
    var builder: JjTree := map[];
    var rest := t.Keys;
    while rest != {}
      invariant rest <= t.Keys
      invariant AllConvertible(env, t, t.Keys - rest)
      invariant builder == map p | p in t && p !in rest && Publishable(t, p) :: ValueOf(t[p])
      decreases |rest|
    {
      hide Protected, Convertible, ValueOf;
      var p :| p in rest;
      if !env.utf8(p) { return Err; }
      if !Protected(p) {
        var value := ConvertEntry(env, p, t[p]);
        if value.Err? { return Err; }
        if value.value.Some? { builder := builder[p := value.value.value]; }
      }
      rest := rest - {p};
    }
    assert t.Keys - rest == t.Keys;
    return Ok(builder);
  }

  /** The value one path ends up with, given what the base had there. */
  function Patched(base: JjTree, t: Tree, touched: set<Path>, p: Path): Option<TreeValue> {
    if p !in touched || Protected(p) then Find(base, p)
    else if p !in t then None
    else if t[p].kind == Subtree then Find(base, p)
    else Some(ValueOf(t[p]))
  }

  ghost predicate IsPatched(base: JjTree, t: Tree, touched: set<Path>, r: JjTree) {
    forall p :: Find(r, p) == Patched(base, t, touched, p)
  }

  function PathSet(paths: seq<Path>): set<Path> {
    set p | p in paths
  }

  /** Removals need a valid path too. */
  ghost predicate PatchConvertible(env: Env, t: Tree, touched: set<Path>) {
    forall p :: p in touched && !Protected(p) ==> if p in t then Convertible(env, p, t[p]) else env.validPath(p)
  }

  /** `convert_tree_to_jj_incremental`. */
  method ConvertIncremental(env: Env, t: Tree, touched: seq<Path>, parent: Option<JjTree>) returns (r: Result<JjTree>)
    ensures r.Ok? <==> ConversionSucceeds(env, t, PathSet(touched), parent)
    ensures r.Ok? ==> IsConversion(t, PathSet(touched), parent, r.value)
  {
    if parent.None? || touched == [] {
      assert touched != [] ==> touched[0] in PathSet(touched);
      r := ConvertTree(env, t);
      return;
    }
    assert touched[0] in PathSet(touched);
    var builder := parent.value;
    assert PathSet(touched[..0]) == {};
    for i := 0 to |touched|
      invariant PatchConvertible(env, t, PathSet(touched[..i]))
      invariant IsPatched(parent.value, t, PathSet(touched[..i]), builder)
    {
      hide IsPatched, PatchConvertible;
      var p := touched[i];
      ghost var before := builder;
      PathSetStep(touched, i);
      if Protected(p) {
        PatchStep(env, parent.value, t, PathSet(touched[..i]), p, before, builder);
        continue;
      }
      if p in t {
        var value := ConvertEntry(env, p, t[p]);
        if value.Err? {
          NotPatchConvertible(env, t, PathSet(touched), p);
          return Err;
        }
        if value.value.None? {
          PatchStep(env, parent.value, t, PathSet(touched[..i]), p, before, builder);
          continue;
        }
        builder := builder[p := value.value.value];
      } else {
        if !env.validPath(p) {
          NotPatchConvertible(env, t, PathSet(touched), p);
          return Err;
        }
        builder := builder - {p};
      }
      PatchStep(env, parent.value, t, PathSet(touched[..i]), p, before, builder);
    }
    assert touched[..|touched|] == touched;
    return Ok(builder);
  }

  lemma PathSetStep(touched: seq<Path>, i: nat)
    requires i < |touched|
    ensures touched[i] in PathSet(touched)
    ensures PathSet(touched[..i + 1]) == PathSet(touched[..i]) + {touched[i]}
  {
    assert touched[..i + 1] == touched[..i] + [touched[i]];
  }

  lemma NotPatchConvertible(env: Env, t: Tree, touched: set<Path>, p: Path)
    requires p in touched && !Protected(p)
    requires if p in t then !Convertible(env, p, t[p]) else !env.validPath(p)
    ensures !PatchConvertible(env, t, touched)
  {
  }

  lemma PatchStep(env: Env, base: JjTree, t: Tree, done: set<Path>, p: Path, before: JjTree, after: JjTree)
    requires IsPatched(base, t, done, before) && PatchConvertible(env, t, done)
    requires !Protected(p) ==> if p in t then Convertible(env, p, t[p]) else env.validPath(p)
    requires after == if Protected(p) then before
                      else if p !in t then before - {p}
                      else if t[p].kind == Subtree then before
                      else before[p := ValueOf(t[p])]
    ensures IsPatched(base, t, done + {p}, after) && PatchConvertible(env, t, done + {p})
  {
    hide Convertible, Protected;
    forall q ensures Find(after, q) == Patched(base, t, done + {p}, q) {
      assert Find(before, q) == Patched(base, t, done, q);
    }
  }

  ghost predicate ConversionSucceeds(env: Env, t: Tree, touched: set<Path>, parent: Option<JjTree>) {
    if parent.None? || touched == {} then AllConvertible(env, t, t.Keys) else PatchConvertible(env, t, touched)
  }

  /** Without a parent tree or without touched paths the conversion is full. */
  ghost predicate IsConversion(t: Tree, touched: set<Path>, parent: Option<JjTree>, r: JjTree) {
    if parent.None? || touched == {} then r == Converted(t) else IsPatched(parent.value, t, touched, r)
  }

  // ---------------------------------------------------------------- when it equals the full conversion

  /** Where nothing is processed the parent must already be right. */
  ghost predicate Adequate(t: Tree, touched: set<Path>, parent: Option<JjTree>) {
    parent.Some? && touched != {} ==>
      forall p :: p !in touched || Protected(p) || (p in t && t[p].kind == Subtree) ==>
        Find(parent.value, p) == Find(Converted(t), p)
  }

  /** The incremental result is the full conversion exactly when the base is adequate. */
  lemma IncrementalIsFullExactly(t: Tree, touched: set<Path>, parent: Option<JjTree>, r: JjTree)
    requires IsConversion(t, touched, parent, r)
    ensures r == Converted(t) <==> Adequate(t, touched, parent)
  {
    if parent.Some? && touched != {} {
      hide Protected;
      var full := Converted(t);
      forall p ensures p in full <==> Publishable(t, p) { }
      if Adequate(t, touched, parent) {
        forall p ensures Find(r, p) == Find(full, p) {
          assert Find(r, p) == Patched(parent.value, t, touched, p);
        }
        SameFinds(r, full);
      }
      if r == full {
        forall p | p !in touched || Protected(p) || (p in t && t[p].kind == Subtree)
          ensures Find(parent.value, p) == Find(full, p)
        {
          assert Find(r, p) == Patched(parent.value, t, touched, p);
        }
      }
    }
  }

  ghost predicate Covers(touched: set<Path>, old_: Tree, new_: Tree) {
    forall p :: Find(old_, p) != Find(new_, p) ==> p in touched
  }

  /** Trees made of files and links only, as the incremental update builds them. */
  ghost predicate Flat(t: Tree) {
    forall p :: p in t ==> t[p].kind != Subtree
  }

  /** Starting from the full conversion of `old_`, a covering set gives the full conversion of `new_`. */
  lemma CoveringIsAdequate(old_: Tree, new_: Tree, touched: set<Path>)
    requires Flat(new_) && Covers(touched, old_, new_)
    ensures Adequate(new_, touched, Some(Converted(old_)))
  {
    hide Protected;
    var before, full := Converted(old_), Converted(new_);
    forall p | p !in touched || Protected(p) ensures Find(before, p) == Find(full, p) {
      assert Find(old_, p) == Find(new_, p) || Protected(p);
      assert p in before <==> Publishable(old_, p);
      assert p in full <==> Publishable(new_, p);
    }
  }

  /** A subtree entry that replaces a file leaves the file in the incremental result, without an error. */
  lemma SubtreeEntryIsNotRemoved(env: Env, h: Hash)
    requires env.utf8([97]) && env.validPath([97])
    ensures var p: Path := [97];
            var old_: Tree := map[p := FileEntry(MODE_FILE, h)];
            var new_: Tree := map[p := SubtreeEntry(h)];
            Covers({p}, old_, new_) && IsConversion(new_, {p}, Some(Converted(old_)), Converted(old_))
            && Converted(old_) != Converted(new_)
            && ConversionSucceeds(env, new_, {p}, Some(Converted(old_))) && ConversionSucceeds(env, new_, {p}, None)
  {
    var p: Path := [97];
    var old_: Tree := map[p := FileEntry(MODE_FILE, h)];
    var new_: Tree := map[p := SubtreeEntry(h)];
    assert Publishable(old_, p);
    assert p in Converted(old_) && p !in Converted(new_);
  }

  /** The paths of `keys` that are UTF-8, behind those listed before. */
  method Listed(utf8: Bytes -> bool, keys: set<Path>, before: seq<Path>) returns (paths: seq<Path>)
    ensures PathSet(paths) == PathSet(before) + set p | p in keys && utf8(p)
  {
    paths := before;
    var rest := keys;
    while rest != {}
      invariant rest <= keys
      invariant PathSet(paths) == PathSet(before) + set p | p in keys - rest && utf8(p)
      decreases |rest|
    {
      var p :| p in rest;
      if utf8(p) {
        assert PathSet(paths + [p]) == PathSet(paths) + {p};
        paths := paths + [p];
      }
      rest := rest - {p};
    }
  }

  /** The differing paths of two trees; one that is not UTF-8 is passed over. */
  function DiffPaths(utf8: Bytes -> bool, old_: Tree, new_: Tree): set<Path> {
    set p | p in Touched(DiffOf(old_, new_)) && utf8(p)
  }

  /** `compute_tree_diff_paths` lists the added, then the removed, then the modified paths. */
  method ComputeTreeDiffPaths(utf8: Bytes -> bool, old_: Tree, new_: Tree) returns (paths: seq<Path>)
    ensures PathSet(paths) == DiffPaths(utf8, old_, new_)
  {
    var d := Compare(old_, new_);
    assert PathSet([]) == {};
    paths := Listed(utf8, d.added.Keys, []);
    paths := Listed(utf8, d.removed.Keys, paths);
    paths := Listed(utf8, d.modified.Keys, paths);
  }

  /** The list holds only changed paths, and covers the change exactly when they are all UTF-8. */
  lemma DiffPathsCoverExactly(utf8: Bytes -> bool, old_: Tree, new_: Tree)
    ensures Covers(DiffPaths(utf8, old_, new_), old_, new_) <==>
            forall p :: Find(old_, p) != Find(new_, p) ==> utf8(p)
    ensures forall p :: p in DiffPaths(utf8, old_, new_) ==> Find(old_, p) != Find(new_, p)
  {
    TouchedExactly(old_, new_);
  }
}
