/** Counting the commits a bookmark is ahead of and behind its remote. */
module AheadBehind {
  import opened Objects
  import opened Reachability

  type CommitId = nat

  /** The parents of every commit the repository can load. */
  type Commits = map<CommitId, seq<CommitId>>

  function ParentGraph(commits: Commits): Graph<CommitId> {
    map c | c in commits :: set p | p in commits[c]
  }

  /** `a` is `b` or one of its ancestors. */
  ghost predicate IsAncestor(commits: Commits, a: CommitId, b: CommitId) {
    Reaches(ParentGraph(commits), b, a)
  }

  ghost function Ancestors(commits: Commits, c: CommitId): set<CommitId> {
    ReachedFrom(ParentGraph(commits), {c})
  }

  /** Each commit is in the parent list of the one before it. */
  ghost predicate Lineage(commits: Commits, line: seq<CommitId>) {
    line != [] && forall i :: 0 <= i < |line| - 1 ==> line[i] in commits && line[i + 1] in commits[line[i]]
  }

  lemma LineageIsWalk(commits: Commits, line: seq<CommitId>)
    ensures Lineage(commits, line) <==> Walk(ParentGraph(commits), line)
  {
    if Walk(ParentGraph(commits), line) {
      forall i | 0 <= i < |line| - 1 ensures line[i] in commits && line[i + 1] in commits[line[i]] {
        assert line[i + 1] in Successors(ParentGraph(commits), line[i]);
      }
    }
  }

  /** Ancestry is following parents, first ones and others, any number of times. */
  lemma AncestryIsLineage(commits: Commits, a: CommitId, b: CommitId)
    ensures IsAncestor(commits, a, b) <==>
            exists line :: Lineage(commits, line) && line[0] == b && line[|line| - 1] == a
  {
    if line :| Lineage(commits, line) && line[0] == b && line[|line| - 1] == a {
      LineageIsWalk(commits, line);
      assert WalkBetween(ParentGraph(commits), line, b, a);
    }
    if w :| WalkBetween(ParentGraph(commits), w, b, a) { LineageIsWalk(commits, w); }
  }

  lemma AncestorsAreReached(commits: Commits, c: CommitId)
    ensures forall a :: a in Ancestors(commits, c) <==> IsAncestor(commits, a, c)
  {
    ReachedFromMembers(ParentGraph(commits), {c});
    var g := ParentGraph(commits);
    forall a ensures ReachedBySome(g, {c}, a) <==> Reaches(g, c, a) {
      if Reaches(g, c, a) { assert c in {c}; }
    }
  }

  /** One worklist walk; a commit that cannot be loaded is counted but has no parents. */
  method WalkHistory(commits: Commits, start: CommitId) returns (visited: set<CommitId>)
    ensures visited == Ancestors(commits, start)
  {
    ghost var g := ParentGraph(commits);
    ghost var all := Universe(g, {start});
    UniverseClosed(g, {start});
    ReachesItself(g, start);
    visited := {};
    var stack := [start];
    while stack != []
      invariant start in visited || start in stack
      invariant visited <= all && forall c :: c in stack ==> c in all
      invariant forall c :: c in visited || c in stack ==> Reaches(g, start, c)
      invariant forall c, p :: c in visited && p in Successors(g, c) ==> p in visited || p in stack
      decreases all - visited, |stack|
    {
      var commit := stack[|stack| - 1];
      ghost var popped := stack;
      stack := stack[..|stack| - 1];
      assert forall c :: c in popped <==> c in stack || c == commit;
      if commit in visited { continue; }
      visited := visited + {commit};
      if commit in commits {
        var parents := commits[commit];
        for i := 0 to |parents|
          invariant forall c :: c in stack ==> c in all && Reaches(g, start, c)
          invariant forall c :: c in popped ==> c in stack || c == commit
          invariant forall k :: 0 <= k < i ==> parents[k] in visited || parents[k] in stack
        {
          var parent := parents[i];
          assert parent in Successors(g, commit);
          ReachesStep(g, start, commit, parent);
          if parent !in visited { stack := stack + [parent]; }
        }
      }
    }
    assert Closed(g, visited);
    assert start in {start};
    assert forall c :: c in visited ==> ReachedBySome(g, {start}, c);
    ClosureIsExact(g, {start}, visited);
  }

  /** `calculate_ahead_behind`. */
  method CalculateAheadBehind(commits: Commits, local: CommitId, remote: CommitId)
    returns (ahead: nat, behind: nat)
    ensures ahead == |Ancestors(commits, local) - Ancestors(commits, remote)|
    ensures behind == |Ancestors(commits, remote) - Ancestors(commits, local)|
  {
    if local == remote {
      assert Ancestors(commits, local) - Ancestors(commits, remote) == {};
      return 0, 0;
    }
    var localAncestors := WalkHistory(commits, local);
    var remoteAncestors := WalkHistory(commits, remote);
    ahead := |localAncestors - remoteAncestors|;
    behind := |remoteAncestors - localAncestors|;
  }

  /** Nothing ahead means exactly that the remote already contains the local head. */
  lemma NothingAheadIffAncestor(commits: Commits, local: CommitId, remote: CommitId)
    ensures |Ancestors(commits, local) - Ancestors(commits, remote)| == 0
            <==> IsAncestor(commits, local, remote)
  {
    var g := ParentGraph(commits);
    AncestorsAreReached(commits, local);
    AncestorsAreReached(commits, remote);
    var only := Ancestors(commits, local) - Ancestors(commits, remote);
    ReachesItself(g, local);
    if IsAncestor(commits, local, remote) {
      forall a | a in only ensures false { ReachesTransitive(g, remote, local, a); }
      assert only == {};
    } else {
      assert local in only;
    }
  }

  /** The divergence test of `get_remote_branch_updates`, by counts. */
  ghost predicate DivergedByCount(commits: Commits, local: Option<CommitId>, remote: Option<CommitId>) {
    match (local, remote)
    case (Some(l), Some(r)) =>
      l != r && |Ancestors(commits, l) - Ancestors(commits, r)| > 0
      && |Ancestors(commits, r) - Ancestors(commits, l)| > 0
    case _ => false
  }

  /** The divergence test of `get_remote_branch_updates_fast`, by ancestry. */
  ghost predicate DivergedByAncestry(commits: Commits, local: Option<CommitId>, remote: Option<CommitId>) {
    match (local, remote)
    case (Some(l), Some(r)) => l != r && !IsAncestor(commits, l, r) && !IsAncestor(commits, r, l)
    case _ => false
  }

  lemma DivergenceTestsAgree(commits: Commits, local: Option<CommitId>, remote: Option<CommitId>)
    ensures DivergedByCount(commits, local, remote) <==> DivergedByAncestry(commits, local, remote)
  {
    if local.Some? && remote.Some? {
      NothingAheadIffAncestor(commits, local.value, remote.value);
      NothingAheadIffAncestor(commits, remote.value, local.value);
    }
  }
}
