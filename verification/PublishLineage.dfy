/**
 Commit ancestry mirrors checkpoint ancestry: over any number of publish commands each commit
 builds on its checkpoint's parent, so walking back from a mapped commit visits the commits of
 the checkpoint's ancestors.
 */
module PublishLineage {
  import opened Objects
  import opened Sorting
  import opened Materialize
  import opened PublishRange
  import opened PublishChain
  import S = ObjectStore

  // ---------------------------------------------------------------- the mirror

  /** `c` is the last commit made for the checkpoint before `bound`. */
  ghost predicate IsLatest(w: Jj, id: Ulid, bound: CommitId, c: CommitId) {
    && c in w.reverse && w.reverse[c] == id && c < bound
    && forall d :: d in w.reverse && w.reverse[d] == id && d < bound ==> d <= c
  }

  ghost predicate NoneBefore(w: Jj, id: Ulid, bound: CommitId) {
    forall d :: d in w.reverse && d < bound ==> w.reverse[d] != id
  }

  /**
   The commit's one parent: the commit its checkpoint's parent had when it was made, or, if that
   had none, the anchor.
   */
  ghost predicate BuildsOn(w: Jj, parent: Option<Ulid>, c: CommitId, base: CommitId) {
    && c in w.commits && w.commits[c].parents == [base] && base < c
    && if parent.None? || NoneBefore(w, parent.value, c) then base == Anchor(w) else IsLatest(w, parent.value, c, base)
  }

  ghost predicate Placed(cps: Checkpoints, w: Jj, c: CommitId)
    requires c in w.reverse
  {
    w.reverse[c] in cps && exists base :: BuildsOn(w, cps[w.reverse[c]].parent, c, base)
  }

  /** Both directions of the mapping agree, and every mapped commit is in its place. */
  ghost predicate Mirrored(cps: Checkpoints, w: Jj) {
    && Anchor(w) < w.next && Anchor(w) !in w.reverse
    && (forall c :: c in w.commits ==> c < w.next)
    && (forall id :: id in w.forward ==> IsLatest(w, id, w.next, w.forward[id]))
    && (forall c :: c in w.reverse ==> c < w.next && w.reverse[c] in w.forward && Placed(cps, w, c))
  }

  // ---------------------------------------------------------------- one checkpoint

  /** Everything that publishing one checkpoint does to commits and mapping, trees apart. */
  lemma PublishedPlaces(env: Env, accumulated: Option<seq<Path>>, w: Jj, cp: Checkpoint, last: Option<CommitId>)
    ensures match Published(env, accumulated, w, cp, last)
            case None => true
            case Some(w') =>
              && w'.next == w.next + 1 && Anchor(w') == Anchor(w)
              && w'.commits.Keys == w.commits.Keys + {w.next}
              && (forall c :: c in w.commits && c != w.next ==> w'.commits[c] == w.commits[c])
              && w'.commits[w.next].parents == [ParentCommit(w, cp, last)]
              && w'.forward == w.forward[cp.id := w.next] && w'.reverse == w.reverse[w.next := cp.id]
  {
    hide S.Lookup, ConversionOf, ConversionSucceeds, PathsToProcess, TreeOfCommit;
  }

  /** What came before keeps its place when a later commit is mapped. */
  lemma LaterCommitKeepsPlaces(cps: Checkpoints, w: Jj, w': Jj, id: Ulid, c: CommitId)
    requires w.next !in w.reverse && w'.reverse == w.reverse[w.next := id] && Anchor(w') == Anchor(w)
    requires forall d :: d in w.commits && d != w.next ==> d in w'.commits && w'.commits[d] == w.commits[d]
    requires c in w.reverse && c < w.next && Placed(cps, w, c)
    ensures Placed(cps, w', c)
  {
    var base :| BuildsOn(w, cps[w.reverse[c]].parent, c, base);
    var parent := cps[w.reverse[c]].parent;
    if parent.Some? {
      assert NoneBefore(w, parent.value, c) <==> NoneBefore(w', parent.value, c) by {
        assert forall d :: d < c ==> (d in w.reverse <==> d in w'.reverse);
        assert forall d :: d < c && d in w.reverse ==> w.reverse[d] == w'.reverse[d];
      }
      assert IsLatest(w, parent.value, c, base) ==> IsLatest(w', parent.value, c, base);
    }
    assert BuildsOn(w', parent, c, base);
  }

  lemma NewCommitIsPlaced(cps: Checkpoints, w: Jj, w': Jj, cp: Checkpoint)
    requires Mirrored(cps, w) && cp.id in cps && cps[cp.id] == cp
    requires w'.reverse == w.reverse[w.next := cp.id] && Anchor(w') == Anchor(w)
    requires w.next in w'.commits && w'.commits[w.next].parents == [ParentCommit(w, cp, None)]
    ensures Placed(cps, w', w.next)
  {
    if cp.parent.Some? {
      var p := cp.parent.value;
      if p in w.forward {
        LatestOf(cps, w, p);
        SameLatest(w, w', cp.id, p, w.forward[p]);
      } else {
        UnmappedHasNone(cps, w, p, w.next);
      }
    }
    assert Anchor(w) < w.next;
    hide Mirrored, Anchor;
    assert BuildsOn(w', cp.parent, w.next, ParentCommit(w, cp, None));
  }

  lemma SameLatest(w: Jj, w': Jj, id: Ulid, p: Ulid, c: CommitId)
    requires w'.reverse == w.reverse[w.next := id] && IsLatest(w, p, w.next, c)
    ensures IsLatest(w', p, w.next, c) && !NoneBefore(w', p, w.next)
  {
  }

  /** In a batch the commit just made is the one its parent is mapped to. */
  ghost predicate InLine(w: Jj, cp: Checkpoint, last: Option<CommitId>) {
    last.Some? ==> cp.parent.Some? && cp.parent.value in w.forward && w.forward[cp.parent.value] == last.value
  }

  lemma LaterCommitIsLatest(cps: Checkpoints, w: Jj, w': Jj, cp: Checkpoint, id: Ulid)
    requires Mirrored(cps, w) && w'.forward == w.forward[cp.id := w.next] && w'.next == w.next + 1
    requires w'.reverse == w.reverse[w.next := cp.id] && id in w'.forward
    ensures IsLatest(w', id, w'.next, w'.forward[id])
  {
    hide Placed;
    if id != cp.id { assert IsLatest(w, id, w.next, w.forward[id]); }
  }

  lemma PublishedMirrors(
    env: Env, accumulated: Option<seq<Path>>, cps: Checkpoints, w: Jj, cp: Checkpoint, last: Option<CommitId>)
    requires Mirrored(cps, w) && cp.id in cps && cps[cp.id] == cp && InLine(w, cp, last)
    requires Published(env, accumulated, w, cp, last).Some?
    ensures Mirrored(cps, Published(env, accumulated, w, cp, last).value)
  {
    hide Published, Placed, IsLatest;
    var w' := Published(env, accumulated, w, cp, last).value;
    PublishedPlaces(env, accumulated, w, cp, last);
    NewCommitIsPlaced(cps, w, w', cp);
    forall c | c in w'.reverse ensures c < w'.next && w'.reverse[c] in w'.forward && Placed(cps, w', c) {
      if c != w.next { LaterCommitKeepsPlaces(cps, w, w', cp.id, c); }
    }
    forall id | id in w'.forward ensures IsLatest(w', id, w'.next, w'.forward[id]) {
      LaterCommitIsLatest(cps, w, w', cp, id);
    }
  }

  // ---------------------------------------------------------------- runs

  lemma LinkedRest(cps: Checkpoints, list: seq<Checkpoint>)
    requires list != [] && Known(cps, list) && Linked(list)
    ensures list[0].id in cps && cps[list[0].id] == list[0] && Known(cps, list[1..]) && Linked(list[1..])
    ensures list[1..] != [] ==> list[1..][0].parent == Some(list[0].id)
  {
    var rest := list[1..];
    assert list[0] in list;
    forall i | 0 < i < |rest| ensures rest[i].parent == Some(rest[i - 1].id) {
      assert rest[i] == list[i + 1] && rest[i - 1] == list[i];
    }
  }

  /** A list in which every checkpoint follows its parent keeps the mirror, wherever it stops. */
  lemma {:induction false} ListMirrors(
    env: Env, accumulated: Option<seq<Path>>, cps: Checkpoints, w: Jj, list: seq<Checkpoint>, last: Option<CommitId>)
    requires Mirrored(cps, w) && Known(cps, list) && Linked(list)
    requires list != [] ==> InLine(w, list[0], last)
    ensures Mirrored(cps, PublishedAll(env, accumulated, w, list, last).0)
    decreases |list|
  {
    if list != [] && Published(env, accumulated, w, list[0], last).Some? {
      hide Published, Mirrored, ParentCommit, Known, Linked;
      LinkedRest(cps, list);
      PublishedMirrors(env, accumulated, cps, w, list[0], last);
      PublishedPlaces(env, accumulated, w, list[0], last);
      ListMirrors(env, accumulated, cps, Published(env, accumulated, w, list[0], last).value, list[1..], Some(w.next));
    }
  }

  /** One publish command: its store, the paths accumulated for it, and its list. */
  datatype Command = Command(env: Env, accumulated: Option<seq<Path>>, list: seq<Checkpoint>)

  ghost function AfterCommands(w: Jj, commands: seq<Command>): Jj {
    if commands == [] then w
    else
      var before, last := AfterCommands(w, commands[..|commands| - 1]), commands[|commands| - 1];
      PublishedAll(last.env, last.accumulated, before, last.list, None).0
  }

  /**
   Any number of publish commands, each for a list in which every checkpoint follows its parent, and
   failing wherever they may: every commit builds on the commit its checkpoint's parent had when it
   was made, or on the anchor if it had none, and the mapping leads to the latest commits and back.
   */
  lemma {:induction false} CommandsMirror(cps: Checkpoints, w: Jj, commands: seq<Command>)
    requires Mirrored(cps, w)
    requires forall command :: command in commands ==> Known(cps, command.list) && Linked(command.list)
    ensures Mirrored(cps, AfterCommands(w, commands))
  {
    if commands != [] {
      var init, last := commands[..|commands| - 1], commands[|commands| - 1];
      assert last in commands;
      hide Mirrored;
      CommandsMirror(cps, w, init);
      ListMirrors(last.env, last.accumulated, cps, AfterCommands(w, init), last.list, None);
    }
  }

  /** A mapping that is still empty mirrors everything. */
  lemma NothingPublishedMirrors(cps: Checkpoints, w: Jj)
    requires w.forward == map[] && w.reverse == map[] && Anchor(w) < w.next
    requires forall c :: c in w.commits ==> c < w.next
    ensures Mirrored(cps, w)
  {
  }

  /** The list that the command chooses for a contiguous request is such a list. */
  lemma ChosenListFollows(cps: Checkpoints, published: set<Ulid>, requested: seq<Checkpoint>)
    requires Ordered(cps) && requested != [] && Known(cps, requested) && Linked(requested)
    ensures var list := Sort(OlderOrSame, Collected(cps, published, IdsOf(requested), requested)) + requested;
            Known(cps, list) && Linked(list)
  {
    SmartChainIsSound(cps, published, requested);
  }

  // ---------------------------------------------------------------- walking back

  /** The mapped commits from `c` on, back along first parents. */
  function LineOf(w: Jj, c: CommitId): seq<CommitId>
    decreases c
  {
    if c !in w.reverse then []
    else if c in w.commits && w.commits[c].parents != [] && w.commits[c].parents[0] < c then
      [c] + LineOf(w, w.commits[c].parents[0])
    else [c]
  }

  /** Commits of the checkpoint, of its parent, of that one's parent, and so on. */
  ghost predicate MirrorsAncestry(cps: Checkpoints, w: Jj, line: seq<CommitId>, id: Ulid) {
    && line != [] && (forall i :: 0 <= i < |line| ==> line[i] in w.reverse && w.reverse[line[i]] in cps)
    && w.reverse[line[0]] == id
    && forall i :: 0 < i < |line| ==> cps[w.reverse[line[i - 1]]].parent == Some(w.reverse[line[i]])
  }

  lemma MirrorsCons(cps: Checkpoints, w: Jj, c: CommitId, older: seq<CommitId>)
    requires c in w.reverse && w.reverse[c] in cps
    requires older != [] ==> older[0] in w.reverse && cps[w.reverse[c]].parent == Some(w.reverse[older[0]])
                             && MirrorsAncestry(cps, w, older, w.reverse[older[0]])
    ensures MirrorsAncestry(cps, w, [c] + older, w.reverse[c])
  {
    var line := [c] + older;
    forall i | 0 < i < |line| ensures cps[w.reverse[line[i - 1]]].parent == Some(w.reverse[line[i]]) {
      assert line[i] == older[i - 1];
      if i > 1 { assert line[i - 1] == older[i - 2]; }
    }
  }

  /** Where the walk ends: on the anchor, at a checkpoint whose parent had no commit then. */
  ghost predicate EndsOnAnchor(cps: Checkpoints, w: Jj, oldest: CommitId) {
    && oldest in w.reverse && w.reverse[oldest] in cps
    && oldest in w.commits && w.commits[oldest].parents == [Anchor(w)]
    && var parent := cps[w.reverse[oldest]].parent; parent.None? || NoneBefore(w, parent.value, oldest)
  }

  lemma PlaceOf(cps: Checkpoints, w: Jj, c: CommitId) returns (base: CommitId)
    requires Mirrored(cps, w) && c in w.reverse
    ensures w.reverse[c] in cps && BuildsOn(w, cps[w.reverse[c]].parent, c, base) && Anchor(w) !in w.reverse
  {
    hide BuildsOn, IsLatest, Anchor;
    assert Placed(cps, w, c);
    base :| BuildsOn(w, cps[w.reverse[c]].parent, c, base);
  }

  lemma LineGoesOn(w: Jj, parent: Option<Ulid>, c: CommitId, base: CommitId)
    requires c in w.reverse && BuildsOn(w, parent, c, base)
    ensures base < c && LineOf(w, c) == [c] + LineOf(w, base)
    ensures base !in w.reverse ==> LineOf(w, base) == []
  {
    hide NoneBefore, IsLatest, Anchor;
  }

  /** One step back. */
  lemma StepBack(cps: Checkpoints, w: Jj, c: CommitId) returns (base: CommitId)
    requires Mirrored(cps, w) && c in w.reverse
    ensures w.reverse[c] in cps && base < c && LineOf(w, c) == [c] + LineOf(w, base)
    ensures if base in w.reverse then cps[w.reverse[c]].parent == Some(w.reverse[base])
            else LineOf(w, base) == [] && EndsOnAnchor(cps, w, c)
  {
    hide Mirrored, LineOf, NoneBefore;
    base := PlaceOf(cps, w, c);
    LineGoesOn(w, cps[w.reverse[c]].parent, c, base);
  }

  /**
   Walking back from a mapped commit visits commits of its checkpoint, of that one's parent, and so
   on, and ends on the anchor, at a checkpoint whose parent had no commit then.
   */
  lemma {:induction false} LineMirrorsAncestry(cps: Checkpoints, w: Jj, c: CommitId)
    requires Mirrored(cps, w) && c in w.reverse
    ensures MirrorsAncestry(cps, w, LineOf(w, c), w.reverse[c])
    ensures LineOf(w, c) != [] && LineOf(w, c)[0] == c
    ensures EndsOnAnchor(cps, w, LineOf(w, c)[|LineOf(w, c)| - 1])
    decreases c
  {
    var base := StepBack(cps, w, c);
    hide *;
    var older := LineOf(w, base);
    if base in w.reverse { LineMirrorsAncestry(cps, w, base); }
    MirrorsCons(cps, w, c, older);
  }

  /**
   In particular a checkpoint's commit builds on its parent's commit if that one is older, and on
   the anchor if the parent is absent or not published.
   */
  lemma CommitOfParent(cps: Checkpoints, w: Jj, id: Ulid)
    requires Mirrored(cps, w) && id in w.forward
    ensures id in cps && w.forward[id] in w.commits
    ensures var c, parent := w.forward[id], cps[id].parent;
            && (parent.None? || parent.value !in w.forward ==> w.commits[c].parents == [Anchor(w)])
            && (parent.Some? && parent.value in w.forward && w.forward[parent.value] < c ==>
                  w.commits[c].parents == [w.forward[parent.value]])
  {
    var c := w.forward[id];
    LatestOf(cps, w, id);
    var base := PlaceOf(cps, w, c);
    var parent := cps[id].parent;
    hide Mirrored, Anchor;
    if parent.Some? && parent.value in w.forward {
      LatestOf(cps, w, parent.value);
      BaseIsLatest(w, parent.value, c, base, w.forward[parent.value]);
    } else if parent.Some? {
      UnmappedHasNone(cps, w, parent.value, c);
    }
  }

  lemma BaseIsLatest(w: Jj, parent: Ulid, c: CommitId, base: CommitId, latest: CommitId)
    requires BuildsOn(w, Some(parent), c, base) && IsLatest(w, parent, w.next, latest) && c <= w.next
    ensures latest < c ==> base == latest
  {
    hide Anchor;
  }

  lemma LatestOf(cps: Checkpoints, w: Jj, id: Ulid)
    requires Mirrored(cps, w) && id in w.forward
    ensures IsLatest(w, id, w.next, w.forward[id])
  {
    hide IsLatest, Placed;
  }

  lemma UnmappedHasNone(cps: Checkpoints, w: Jj, id: Ulid, bound: CommitId)
    requires Mirrored(cps, w) && id !in w.forward
    ensures NoneBefore(w, id, bound)
  {
    hide IsLatest, Placed;
  }
}
