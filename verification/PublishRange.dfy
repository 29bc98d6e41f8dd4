/**
 Publishing a range of checkpoints as a chain of commits: each commit builds on the one
 before it, and every published checkpoint is mapped to its commit.
 */
module PublishRange {
  import opened Objects
  import opened TreeDiff
  import opened Materialize
  import S = ObjectStore

  type CommitId = nat

  const ROOT_COMMIT: CommitId := 0

  /** A commit whose tree is conflicted has no single tree. */
  datatype Commit = Commit(parents: seq<CommitId>, tree: Option<JjTree>)

  /** jj's commits, and the mapping database with the seed recorded at initialisation. */
  datatype Jj = Jj(
    commits: map<CommitId, Commit>,
    next: CommitId,
    forward: map<Ulid, CommitId>,
    reverse: map<CommitId, Ulid>,
    seed: Option<CommitId>,
    seedTree: Option<Hash>)

  function TreeOfCommit(w: Jj, c: CommitId): Option<JjTree> {
    if c in w.commits then w.commits[c].tree else None
  }

  /** The seed commit if there is one, and the root commit if not. */
  function Anchor(w: Jj): CommitId {
    if w.seed.Some? then w.seed.value else ROOT_COMMIT
  }

  /** Where a checkpoint's commit belongs: on the one just made, on its published parent's, or on the anchor. */
  function ParentCommit(w: Jj, cp: Checkpoint, last: Option<CommitId>): CommitId {
    if last.Some? then last.value
    else if cp.parent.Some? && cp.parent.value in w.forward then w.forward[cp.parent.value]
    else Anchor(w)
  }

  datatype Base = Base(parent: CommitId, tree: Option<JjTree>, trueParent: bool)

  /** `determine_parents`: the last commit of this batch, a published parent, the seed, or the root. */
  function DetermineParents(w: Jj, cp: Checkpoint, last: Option<CommitId>): Base {
    if last.Some? then Base(last.value, TreeOfCommit(w, last.value), true)
    else if cp.parent.Some? && cp.parent.value in w.forward then
      var c := w.forward[cp.parent.value];
      Base(c, TreeOfCommit(w, c), true)
    else if w.seed.Some? then Base(w.seed.value, TreeOfCommit(w, w.seed.value), false)
    else Base(ROOT_COMMIT, None, false)
  }

  /** The paths to process: the checkpoint's own, the accumulated ones, or a diff against the seed tree. */
  function PathsToProcess(
    env: Env, w: Jj, cp: Checkpoint, base: Base, accumulated: Option<seq<Path>>, t: Tree): Result<set<Path>>
  {
    if base.trueParent then Ok(PathSet(cp.touchedPaths))
    else if accumulated.Some? then Ok(PathSet(accumulated.value))
    else if base.tree.Some? then
      if w.seedTree.None? then Err
      else match S.Lookup(env.codec, env.store, w.seedTree.value)
           case Err => Err
           case Ok(seedTree) => Ok(DiffPaths(env.utf8, seedTree, t))
    else Ok({})
  }

  function ConversionOf(t: Tree, touched: set<Path>, parent: Option<JjTree>): JjTree {
    if parent.None? || touched == {} then Converted(t)
    else map p | p in parent.value.Keys + t.Keys && Patched(parent.value, t, touched, p).Some?
           :: Patched(parent.value, t, touched, p).value
  }

  lemma ConversionIsUnique(t: Tree, touched: set<Path>, parent: Option<JjTree>, r: JjTree)
    ensures IsConversion(t, touched, parent, r) <==> r == ConversionOf(t, touched, parent)
  {
    if !(parent.None? || touched == {}) {
      var m := ConversionOf(t, touched, parent);
      hide Protected, ValueOf;
      forall p ensures Find(m, p) == Patched(parent.value, t, touched, p) { }
      if IsConversion(t, touched, parent, r) {
        forall p ensures Find(m, p) == Find(r, p) {
          assert Find(r, p) == Patched(parent.value, t, touched, p);
        }
        SameFinds(m, r);
      }
    }
  }

  /** The repository after one checkpoint is published; nothing when some read or conversion fails. */
  ghost function Published(
    env: Env, accumulated: Option<seq<Path>>, w: Jj, cp: Checkpoint, last: Option<CommitId>): Option<Jj>
  {
    match S.Lookup(env.codec, env.store, cp.rootTree)
    case Err => None
    case Ok(t) =>
      var base := DetermineParents(w, cp, last);
      match PathsToProcess(env, w, cp, base, accumulated, t)
      case Err => None
      case Ok(touched) =>
        if !ConversionSucceeds(env, t, touched, base.tree) then None
        else Some(WithCommit(w, cp, Commit([base.parent], Some(ConversionOf(t, touched, base.tree)))))
  }

  function WithCommit(w: Jj, cp: Checkpoint, commit: Commit): Jj {
    w.(commits := w.commits[w.next := commit],
       next := w.next + 1,
       forward := w.forward[cp.id := w.next],
       reverse := w.reverse[w.next := cp.id])
  }

  /** Publishing stops at the first failure; the commits and mappings made so far stay. */
  ghost function PublishedAll(
    env: Env, accumulated: Option<seq<Path>>, w: Jj, cps: seq<Checkpoint>, last: Option<CommitId>): (Jj, bool)
    decreases |cps|
  {
    if cps == [] then (w, true)
    else match Published(env, accumulated, w, cps[0], last)
         case None => (w, false)
         case Some(w') => PublishedAll(env, accumulated, w', cps[1..], Some(w.next))
  }

  // ---------------------------------------------------------------- the imperative form

  class JjRepo {
    var commits: map<CommitId, Commit>
    var next: CommitId

    /** Writes a commit under a new id. */
    method NewCommit(parents: seq<CommitId>, tree: JjTree) returns (id: CommitId)
      modifies this
      ensures id == old(next) && next == id + 1
      ensures commits == old(commits)[id := Commit(parents, Some(tree))]
    {
      id := next;
      commits := commits[id := Commit(parents, Some(tree))];
      next := next + 1;
    }
  }

  class JjMapping {
    var forward: map<Ulid, CommitId>
    var reverse: map<CommitId, Ulid>
    var seed: Option<CommitId>
    var seedTree: Option<Hash>

    method Set(id: Ulid, commit: CommitId)
      modifies this`forward
      ensures forward == old(forward)[id := commit]
    {
      forward := forward[id := commit];
    }

    method SetReverse(commit: CommitId, id: Ulid)
      modifies this`reverse
      ensures reverse == old(reverse)[commit := id]
    {
      reverse := reverse[commit := id];
    }
  }

  function World(repo: JjRepo, mapping: JjMapping): Jj
    reads repo, mapping
  {
    Jj(repo.commits, repo.next, mapping.forward, mapping.reverse, mapping.seed, mapping.seedTree)
  }

  method ListPaths(
    env: Env, mapping: JjMapping, repo: JjRepo, cp: Checkpoint, base: Base, accumulated: Option<seq<Path>>, t: Tree)
    returns (r: Result<seq<Path>>)
    ensures match PathsToProcess(env, World(repo, mapping), cp, base, accumulated, t)
            case Err => r.Err?
            case Ok(touched) => r.Ok? && PathSet(r.value) == touched
  {
    if base.trueParent { return Ok(cp.touchedPaths); }
    if accumulated.Some? { return Ok(accumulated.value); }
    if base.tree.None? {
      assert PathSet([]) == {};
      return Ok([]);
    }
    if mapping.seedTree.None? { return Err; }
    var seedTree := S.Lookup(env.codec, env.store, mapping.seedTree.value);
    if seedTree.Err? { return Err; }
    var paths := ComputeTreeDiffPaths(env.utf8, seedTree.value, t);
    return Ok(paths);
  }

  /** One round of the expand loop, and the whole of publishing one checkpoint. */
  method PublishOne(
    env: Env, cp: Checkpoint, repo: JjRepo, mapping: JjMapping, accumulated: Option<seq<Path>>, last: Option<CommitId>)
    returns (r: Result<CommitId>)
    modifies repo, mapping
    ensures match old(Published(env, accumulated, World(repo, mapping), cp, last))
            case None => r.Err? && World(repo, mapping) == old(World(repo, mapping))
            case Some(w) => r == Ok(old(repo.next)) && World(repo, mapping) == w
    ensures r.Ok? ==> r.value in repo.commits
                      && repo.commits[r.value].parents == [old(ParentCommit(World(repo, mapping), cp, last))]
  {
    var t := S.Lookup(env.codec, env.store, cp.rootTree);
    if t.Err? { return Err; }
    var base := DetermineParents(World(repo, mapping), cp, last);
    var touched := ListPaths(env, mapping, repo, cp, base, accumulated, t.value);
    if touched.Err? { return Err; }
    var tree := ConvertIncremental(env, t.value, touched.value, base.tree);
    if tree.Err? { return Err; }
    ConversionIsUnique(t.value, PathSet(touched.value), base.tree, tree.value);
    var id := repo.NewCommit([base.parent], tree.value);
    mapping.Set(cp.id, id);
    mapping.SetReverse(id, cp.id);
    r := Ok(id);
  }

  function NewIds(first: CommitId, count: nat): (ids: seq<CommitId>)
    ensures |ids| == count && forall i :: 0 <= i < count ==> ids[i] == first + i
  {
    seq(count, i => first + i)
  }

  /** The expand loop of `publish_range`, inside its one transaction. */
  method ExpandRange(
    env: Env, checkpoints: seq<Checkpoint>, repo: JjRepo, mapping: JjMapping, accumulated: Option<seq<Path>>)
    returns (r: Result<seq<CommitId>>)
    modifies repo, mapping
    ensures var (w, ok) := old(PublishedAll(env, accumulated, World(repo, mapping), checkpoints, None));
            World(repo, mapping) == w && r == if ok then Ok(NewIds(old(repo.next), |checkpoints|)) else Err
  {
    hide Published;
    ghost var w0 := World(repo, mapping);
    var ids: seq<CommitId> := [];
    var last: Option<CommitId> := None;
    for i := 0 to |checkpoints|
      invariant repo.next == w0.next + i && ids == NewIds(w0.next, i)
      invariant last == if i == 0 then None else Some(w0.next + i - 1)
      invariant PublishedAll(env, accumulated, World(repo, mapping), checkpoints[i..], last)
                == PublishedAll(env, accumulated, w0, checkpoints, None)
    {
      ghost var w := World(repo, mapping);
      PublishedNext(env, accumulated, w, checkpoints[i], last);
      assert checkpoints[i..][1..] == checkpoints[i + 1..];
      var id := PublishOne(env, checkpoints[i], repo, mapping, accumulated, last);
      if id.Err? { return Err; }
      last := Some(id.value);
      ids := ids + [id.value];
    }
    return Ok(ids);
  }

  /** `publish_range`: in compact mode only the last checkpoint is published. */
  method PublishCheckpoints(
    env: Env, checkpoints: seq<Checkpoint>, repo: JjRepo, mapping: JjMapping, compact: bool,
        accumulated: Option<seq<Path>>)
    returns (r: Result<seq<CommitId>>)
    modifies repo, mapping
    ensures var todo := if compact && checkpoints != [] then [checkpoints[|checkpoints| - 1]] else checkpoints;
            var (w, ok) := old(PublishedAll(env, accumulated, World(repo, mapping), todo, None));
            World(repo, mapping) == w && r == if ok then Ok(NewIds(old(repo.next), |todo|)) else Err
  {
    hide Published;
    if checkpoints == [] { return Ok([]); }
    if compact {
      var last := checkpoints[|checkpoints| - 1];
      assert [last][1..] == [];
      PublishedNext(env, accumulated, World(repo, mapping), last, None);
      var id := PublishOne(env, last, repo, mapping, accumulated, None);
      if id.Err? { return Err; }
      assert NewIds(id.value, 1) == [id.value];
      return Ok([id.value]);
    }
    r := ExpandRange(env, checkpoints, repo, mapping, accumulated);
  }

  lemma PublishedNext(env: Env, accumulated: Option<seq<Path>>, w: Jj, cp: Checkpoint, last: Option<CommitId>)
    ensures var r := Published(env, accumulated, w, cp, last);
            r.Some? ==> r.value.next == w.next + 1
  {
  }

  // ---------------------------------------------------------------- what a published range is

  /** Every mapped commit carries the full conversion of its checkpoint's tree. */
  ghost predicate MappingSound(w: Jj, treeOf: map<Ulid, Tree>) {
    && (forall c :: c in w.commits ==> c < w.next)
    && (forall id :: id in w.forward ==>
          id in treeOf && w.forward[id] in w.commits && w.commits[w.forward[id]].tree == Some(Converted(treeOf[id])))
  }

  /** The stored trees of the checkpoints, all of them flat. */
  ghost predicate TreesKnown(env: Env, cps: seq<Checkpoint>, treeOf: map<Ulid, Tree>) {
    forall cp :: cp in cps ==>
      cp.id in treeOf && S.Lookup(env.codec, env.store, cp.rootTree) == Ok(treeOf[cp.id]) && Flat(treeOf[cp.id])
  }

  /** The touched paths are missing altogether, or cover the change from `old_` to `new_`. */
  ghost predicate EmptyOrCovers(touched: set<Path>, old_: Tree, new_: Tree) {
    touched == {} || Covers(touched, old_, new_)
  }

  ghost predicate LinkedChain(cps: seq<Checkpoint>, treeOf: map<Ulid, Tree>)
    requires forall cp :: cp in cps ==> cp.id in treeOf
  {
    forall i :: 0 < i < |cps| ==>
      cps[i].parent == Some(cps[i - 1].id)
      && EmptyOrCovers(PathSet(cps[i].touchedPaths), treeOf[cps[i - 1].id], treeOf[cps[i].id])
  }

  /** The first base is adequate for the first checkpoint. */
  ghost predicate FirstIsAdequate(
    env: Env, accumulated: Option<seq<Path>>, w: Jj, cp: Checkpoint, last: Option<CommitId>, t: Tree)
  {
    var base := DetermineParents(w, cp, last);
    var touched := PathsToProcess(env, w, cp, base, accumulated, t);
    touched.Ok? ==> Adequate(t, touched.value, base.tree)
  }

  lemma OneIsRightExactly(
    env: Env, accumulated: Option<seq<Path>>, w: Jj, cp: Checkpoint, last: Option<CommitId>, t: Tree)
    requires S.Lookup(env.codec, env.store, cp.rootTree) == Ok(t)
    requires Published(env, accumulated, w, cp, last).Some?
    ensures var w' := Published(env, accumulated, w, cp, last).value;
            && w'.commits.Keys == w.commits.Keys + {w.next}
            && w'.commits[w.next].parents == [ParentCommit(w, cp, last)]
            && (w'.commits[w.next].tree == Some(Converted(t)) <==> FirstIsAdequate(env, accumulated, w, cp, last, t))
  {
    var base := DetermineParents(w, cp, last);
    var touched := PathsToProcess(env, w, cp, base, accumulated, t).value;
    ConversionIsUnique(t, touched, base.tree, ConversionOf(t, touched, base.tree));
    IncrementalIsFullExactly(t, touched, base.tree, ConversionOf(t, touched, base.tree));
  }

  /** What holds of the repository while a range is being published on top of commit `last`. */
  ghost predicate InStep(w: Jj, treeOf: map<Ulid, Tree>, last: Option<CommitId>, previous: Option<Tree>) {
    && MappingSound(w, treeOf)
    && (last.Some? ==> previous.Some? && TreeOfCommit(w, last.value) == Some(Converted(previous.value)))
  }

  lemma StepKeepsSound(
    env: Env, accumulated: Option<seq<Path>>, w: Jj, cp: Checkpoint, last: Option<CommitId>, treeOf: map<Ulid, Tree>)
    requires MappingSound(w, treeOf) && cp.id in treeOf
    requires S.Lookup(env.codec, env.store, cp.rootTree) == Ok(treeOf[cp.id])
    requires FirstIsAdequate(env, accumulated, w, cp, last, treeOf[cp.id])
    requires Published(env, accumulated, w, cp, last).Some?
    ensures var w' := Published(env, accumulated, w, cp, last).value;
            && InStep(w', treeOf, Some(w.next), Some(treeOf[cp.id]))
            && w'.next == w.next + 1
            && w'.commits[w.next] == Commit([ParentCommit(w, cp, last)], Some(Converted(treeOf[cp.id])))
            && (forall c :: c in w.commits ==> c in w'.commits && w'.commits[c] == w.commits[c])
            && w'.forward == w.forward[cp.id := w.next]
  {
    OneIsRightExactly(env, accumulated, w, cp, last, treeOf[cp.id]);
  }

  /** Inside a linked chain the next checkpoint's base is adequate. */
  lemma NextIsAdequate(
    env: Env, accumulated: Option<seq<Path>>, w: Jj, cp: Checkpoint, last: CommitId, previous: Tree, t: Tree)
    requires TreeOfCommit(w, last) == Some(Converted(previous))
    requires EmptyOrCovers(PathSet(cp.touchedPaths), previous, t) && Flat(t)
    ensures FirstIsAdequate(env, accumulated, w, cp, Some(last), t)
  {
    if PathSet(cp.touchedPaths) != {} { CoveringIsAdequate(previous, t, PathSet(cp.touchedPaths)); }
  }

  ghost predicate CommitIsRight(w: Jj, c: CommitId, parent: CommitId, t: Tree) {
    c in w.commits && w.commits[c] == Commit([parent], Some(Converted(t)))
  }

  /** From `w` on, commit after commit is the right one for its checkpoint; nothing older changed. */
  ghost predicate RightCommits(w: Jj, w': Jj, cps: seq<Checkpoint>, firstParent: CommitId, treeOf: map<Ulid, Tree>) {
    && w.next <= w'.next <= w.next + |cps|
    && (forall c :: c in w.commits ==> c in w'.commits && w'.commits[c] == w.commits[c])
    && (forall i :: 0 <= i < w'.next - w.next ==>
          cps[i].id in treeOf
          && CommitIsRight(w', w.next + i, if i == 0 then firstParent else w.next + i - 1, treeOf[cps[i].id]))
  }

  lemma RightCommitsStep(
    w: Jj, w1: Jj, w': Jj, cps: seq<Checkpoint>, parent: CommitId, treeOf: map<Ulid, Tree>)
    requires cps != [] && cps[0].id in treeOf
    requires w1.next == w.next + 1 && CommitIsRight(w1, w.next, parent, treeOf[cps[0].id])
    requires forall c :: c in w.commits ==> c in w1.commits && w1.commits[c] == w.commits[c]
    requires RightCommits(w1, w', cps[1..], w.next, treeOf)
    ensures RightCommits(w, w', cps, parent, treeOf)
  {
    hide Converted;
    forall i | 0 <= i < w'.next - w.next
      ensures cps[i].id in treeOf
      ensures CommitIsRight(w', w.next + i, if i == 0 then parent else w.next + i - 1, treeOf[cps[i].id])
    {
      if i > 0 {
        assert cps[1..][i - 1] == cps[i];
        assert w1.next + (i - 1) == w.next + i;
      }
    }
  }

  lemma ChainTail(env: Env, cps: seq<Checkpoint>, treeOf: map<Ulid, Tree>)
    requires cps != [] && TreesKnown(env, cps, treeOf) && LinkedChain(cps, treeOf)
    ensures TreesKnown(env, cps[1..], treeOf) && LinkedChain(cps[1..], treeOf)
    ensures |cps| > 1 ==>
      Flat(treeOf[cps[1].id]) && EmptyOrCovers(PathSet(cps[1].touchedPaths), treeOf[cps[0].id], treeOf[cps[1].id])
  {
    hide EmptyOrCovers, Flat, S.Lookup, PathSet;
    var rest := cps[1..];
    forall i | 0 < i < |rest|
      ensures rest[i].parent == Some(rest[i - 1].id)
      ensures EmptyOrCovers(PathSet(rest[i].touchedPaths), treeOf[rest[i - 1].id], treeOf[rest[i].id])
    {
      assert rest[i] == cps[i + 1] && rest[i - 1] == cps[i];
    }
  }

  /**
   Expand mode: when the first base is adequate and the rest is a linked chain, every commit
   holds the full conversion of its checkpoint's tree, commit i builds on commit i - 1, and
   the mapping stays sound.  Earlier commits are untouched, and this holds up to the point
   where a failing read or conversion stops the range.
   */
  lemma {:induction false} RangeIsRight(
    env: Env, accumulated: Option<seq<Path>>, w: Jj, cps: seq<Checkpoint>, last: Option<CommitId>, treeOf: map<Ulid,
        Tree>)
    requires MappingSound(w, treeOf) && TreesKnown(env, cps, treeOf) && LinkedChain(cps, treeOf)
    requires cps != [] ==> FirstIsAdequate(env, accumulated, w, cps[0], last, treeOf[cps[0].id])
    ensures var (w', ok) := PublishedAll(env, accumulated, w, cps, last);
            && MappingSound(w', treeOf)
            && (ok ==> w'.next == w.next + |cps|)
            && (cps != [] ==> RightCommits(w, w', cps, ParentCommit(w, cps[0], last), treeOf))
    decreases |cps|
  {
    if cps != [] {
      hide Published, MappingSound, FirstIsAdequate, Converted, RightCommits, LinkedChain;
      var step := Published(env, accumulated, w, cps[0], last);
      var parent := ParentCommit(w, cps[0], last);
      if step.Some? {
        var w1, rest := step.value, cps[1..];
        StepKeepsSound(env, accumulated, w, cps[0], last, treeOf);
        ChainTail(env, cps, treeOf);
        if rest == [] {
          RightCommitsNone(w1, w1, rest, w.next, treeOf);
        } else {
          NextIsAdequate(env, accumulated, w1, rest[0], w.next, treeOf[cps[0].id], treeOf[rest[0].id]);
        }
        RangeIsRight(env, accumulated, w1, rest, Some(w.next), treeOf);
        RightCommitsStep(w, w1, PublishedAll(env, accumulated, w1, rest, Some(w.next)).0, cps, parent, treeOf);
      } else {
        RightCommitsNone(w, w, cps, parent, treeOf);
      }
    }
  }

  /** Publishing never touches what is there, whether or not the base is adequate. */
  lemma {:induction false} PublishedAllKeeps(
    env: Env, accumulated: Option<seq<Path>>, w: Jj, cps: seq<Checkpoint>, last: Option<CommitId>)
    requires forall c :: c in w.commits ==> c < w.next
    ensures var (w', ok) := PublishedAll(env, accumulated, w, cps, last);
            && w.next <= w'.next
            && (forall c :: c in w'.commits ==> c < w'.next)
            && (forall c :: c in w.commits ==> c in w'.commits && w'.commits[c] == w.commits[c])
    decreases |cps|
  {
    if cps != [] {
      var step := Published(env, accumulated, w, cps[0], last);
      if step.Some? {
        PublishedKeeps(env, accumulated, w, cps[0], last);
        hide Published;
        PublishedAllKeeps(env, accumulated, step.value, cps[1..], Some(w.next));
      }
    }
  }

  lemma PublishedKeeps(env: Env, accumulated: Option<seq<Path>>, w: Jj, cp: Checkpoint, last: Option<CommitId>)
    requires forall c :: c in w.commits ==> c < w.next
    ensures var r := Published(env, accumulated, w, cp, last);
            r.Some? ==>
              && r.value.next == w.next + 1 && w.next in r.value.commits
              && (forall c :: c in r.value.commits ==> c < r.value.next)
              && (forall c :: c in w.commits ==> c in r.value.commits && r.value.commits[c] == w.commits[c])
  {
  }

  /** In a linked chain everything is right exactly when the first base was adequate. */
  lemma RangeIsRightExactly(
    env: Env, accumulated: Option<seq<Path>>, w: Jj, cps: seq<Checkpoint>, last: Option<CommitId>, treeOf: map<Ulid,
        Tree>)
    requires cps != [] && MappingSound(w, treeOf) && TreesKnown(env, cps, treeOf) && LinkedChain(cps, treeOf)
    requires Published(env, accumulated, w, cps[0], last).Some?
    ensures var (w', ok) := PublishedAll(env, accumulated, w, cps, last);
            FirstIsAdequate(env, accumulated, w, cps[0], last, treeOf[cps[0].id]) <==>
            MappingSound(w', treeOf) && RightCommits(w, w', cps, ParentCommit(w, cps[0], last), treeOf)
  {
    var (w', ok) := PublishedAll(env, accumulated, w, cps, last);
    var w1 := Published(env, accumulated, w, cps[0], last).value;
    OneIsRightExactly(env, accumulated, w, cps[0], last, treeOf[cps[0].id]);
    PublishedKeeps(env, accumulated, w, cps[0], last);
    PublishedAllKeeps(env, accumulated, w1, cps[1..], Some(w.next));
    hide Published, FirstIsAdequate, Converted, LinkedChain, ParentCommit, S.Lookup;
    if FirstIsAdequate(env, accumulated, w, cps[0], last, treeOf[cps[0].id]) {
      RangeIsRight(env, accumulated, w, cps, last, treeOf);
    } else {
      assert w'.commits[w.next] == w1.commits[w.next];
      FirstCommit(w, w', cps, ParentCommit(w, cps[0], last), treeOf);
    }
  }

  lemma FirstCommit(w: Jj, w': Jj, cps: seq<Checkpoint>, parent: CommitId, treeOf: map<Ulid, Tree>)
    requires cps != [] && w'.next > w.next
    ensures RightCommits(w, w', cps, parent, treeOf) ==>
            cps[0].id in treeOf && CommitIsRight(w', w.next, parent, treeOf[cps[0].id])
  {
    hide CommitIsRight;
    assert w.next + 0 == w.next;
  }

  lemma RightCommitsNone(w: Jj, w': Jj, cps: seq<Checkpoint>, parent: CommitId, treeOf: map<Ulid, Tree>)
    requires w' == w
    ensures RightCommits(w, w', cps, parent, treeOf)
  {
  }

  // ---------------------------------------------------------------- when the first base is adequate

  /** A published parent, mapped soundly, with touched paths that cover the change from it. */
  lemma PublishedParentIsAdequate(
    env: Env, accumulated: Option<seq<Path>>, w: Jj, cp: Checkpoint, treeOf: map<Ulid, Tree>, t: Tree)
    requires MappingSound(w, treeOf) && Flat(t)
    requires cp.parent.Some? && cp.parent.value in w.forward
    requires EmptyOrCovers(PathSet(cp.touchedPaths), treeOf[cp.parent.value], t)
    ensures FirstIsAdequate(env, accumulated, w, cp, None, t)
  {
    if PathSet(cp.touchedPaths) != {} {
      CoveringIsAdequate(treeOf[cp.parent.value], t, PathSet(cp.touchedPaths));
    }
  }

  /** Where the paths are not processed, the seed tree already converts like the new one. */
  ghost predicate FitsSeed(touched: set<Path>, seedTree: Tree, t: Tree) {
    touched == {} || forall p :: p !in touched ==> Find(Converted(seedTree), p) == Find(Converted(t), p)
  }

  /** The seed commit, if there is one, holds the conversion of the stored seed tree. */
  ghost predicate SeedSound(env: Env, w: Jj, seedTree: Tree) {
    w.seed.Some? ==>
      && TreeOfCommit(w, w.seed.value) == Some(Converted(seedTree))
      && w.seedTree.Some? && S.Lookup(env.codec, env.store, w.seedTree.value) == Ok(seedTree)
  }

  /** What is processed on top of the seed commit. */
  function SeedPaths(env: Env, accumulated: Option<seq<Path>>, seedTree: Tree, t: Tree): set<Path> {
    if accumulated.Some? then PathSet(accumulated.value) else DiffPaths(env.utf8, seedTree, t)
  }

  lemma ProtectedIsDropped(t: Tree, p: Path)
    requires Protected(p)
    ensures Find(Converted(t), p) == None
  {
    assert p in Converted(t) <==> Publishable(t, p);
  }

  /** Without a published parent: right exactly when there is no seed, or the paths fit the seed tree. */
  lemma SeedIsAdequateExactly(
    env: Env, accumulated: Option<seq<Path>>, w: Jj, cp: Checkpoint, seedTree: Tree, t: Tree)
    requires Flat(t) && SeedSound(env, w, seedTree)
    requires !(cp.parent.Some? && cp.parent.value in w.forward)
    ensures FirstIsAdequate(env, accumulated, w, cp, None, t) <==>
            w.seed.None? || FitsSeed(SeedPaths(env, accumulated, seedTree, t), seedTree, t)
  {
    if w.seed.Some? {
      var touched := SeedPaths(env, accumulated, seedTree, t);
      assert FirstIsAdequate(env, accumulated, w, cp, None, t) <==> Adequate(t, touched, Some(Converted(seedTree)));
      hide Converted, SeedPaths, Protected, FirstIsAdequate;
      forall p | Protected(p) ensures Find(Converted(seedTree), p) == Find(Converted(t), p) {
        ProtectedIsDropped(seedTree, p);
        ProtectedIsDropped(t, p);
      }
    }
  }

  /** Paths that cover the change from the seed tree fit it, and so does the diff when its paths are UTF-8. */
  lemma CoveringFitsSeed(touched: set<Path>, seedTree: Tree, t: Tree)
    requires Flat(t) && Covers(touched, seedTree, t)
    ensures FitsSeed(touched, seedTree, t)
  {
    CoveringIsAdequate(seedTree, t, touched);
    hide Converted, Protected;
  }
}
