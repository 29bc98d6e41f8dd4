/**
 The publish command's choice of checkpoints: a range by walking parents, the unpublished
 ancestors that go in front of it, and the paths accumulated when that walk gives up.
 */
module PublishChain {
  import opened Objects
  import opened Sorting
  import opened TreeDiff
  import opened Materialize
  import opened PublishRange
  import S = ObjectStore

  const MAX_CHAIN_GAP := 100

  /** The checkpoints the journal can load, by id. */
  type Checkpoints = map<Ulid, Checkpoint>

  /** ULIDs grow from parent to child, so walking parents comes to an end. */
  ghost predicate Ordered(cps: Checkpoints) {
    forall id :: id in cps ==> cps[id].id == id && (cps[id].parent.Some? ==> cps[id].parent.value < id)
  }

  /** Each checkpoint is the parent of the next. */
  ghost predicate Linked(chain: seq<Checkpoint>) {
    forall i :: 0 < i < |chain| ==> chain[i].parent == Some(chain[i - 1].id)
  }

  ghost predicate Known(cps: Checkpoints, chain: seq<Checkpoint>) {
    forall cp :: cp in chain ==> cp.id in cps && cps[cp.id] == cp
  }

  lemma LinkedSnoc(chain: seq<Checkpoint>, cp: Checkpoint)
    requires Linked(chain)
    requires chain != [] ==> cp.parent == Some(chain[|chain| - 1].id)
    ensures Linked(chain + [cp])
  {
  }

  /** Along a linked chain ids grow strictly, so nothing occurs twice. */
  lemma {:induction false} LinkedAscends(cps: Checkpoints, chain: seq<Checkpoint>, i: nat, j: nat)
    requires Ordered(cps) && Known(cps, chain) && Linked(chain) && i < j < |chain|
    ensures chain[i].id < chain[j].id
  {
    assert chain[j] in chain && chain[j].parent == Some(chain[j - 1].id);
    if i < j - 1 { LinkedAscends(cps, chain, i, j - 1); }
  }

  // ---------------------------------------------------------------- ranges

  /** The checkpoints from `start` to `end`, oldest first. */
  function RangeTo(cps: Checkpoints, start: Ulid, end: Ulid): Result<seq<Checkpoint>>
    requires Ordered(cps)
    decreases end
  {
    if end !in cps then Err
    else if end == start then Ok([cps[end]])
    else if cps[end].parent.None? then Err
    else match RangeTo(cps, start, cps[end].parent.value)
         case Err => Err
         case Ok(l) => Ok(l + [cps[end]])
  }

  function Reversed(s: seq<Checkpoint>): seq<Checkpoint> {
    if s == [] then [] else Reversed(s[1..]) + [s[0]]
  }

  lemma {:induction false} ReversedSnoc(s: seq<Checkpoint>, x: Checkpoint)
    ensures Reversed(s + [x]) == [x] + Reversed(s)
  {
    if s != [] {
      assert (s + [x])[1..] == s[1..] + [x];
      ReversedSnoc(s[1..], x);
    }
  }

  /** The loop of `parse_checkpoint_range`, after the two references are resolved. */
  method CheckpointRange(cps: Checkpoints, start: Ulid, end: Ulid) returns (r: Result<seq<Checkpoint>>)
    requires Ordered(cps)
    ensures r == RangeTo(cps, start, end)
  {
    var checkpoints: seq<Checkpoint> := [];
    var current := end;
    assert forall l: seq<Checkpoint> :: l + [] == l;
    while true
      invariant match RangeTo(cps, start, current)
                case Err => RangeTo(cps, start, end).Err?
                case Ok(l) => RangeTo(cps, start, end) == Ok(l + Reversed(checkpoints))
      decreases current
    {
      if current !in cps { return Err; }
      var cp := cps[current];
      ReversedSnoc(checkpoints, cp);
      checkpoints := checkpoints + [cp];
      if current == start { return Ok(Reversed(checkpoints)); }
      if cp.parent.None? { return Err; }
      ghost var older := RangeTo(cps, start, cp.parent.value);
      assert older.Ok? ==> older.value + [cp] + Reversed(checkpoints[..|checkpoints| - 1])
                           == older.value + Reversed(checkpoints);
      current := cp.parent.value;
    }
  }

  ghost predicate ChainBetween(cps: Checkpoints, l: seq<Checkpoint>, start: Ulid, end: Ulid) {
    l != [] && Known(cps, l) && Linked(l) && l[0].id == start && l[|l| - 1].id == end
  }

  /** A range is found exactly when parents lead from `end` back to `start`, and then it is that chain. */
  lemma {:induction false} RangeIsTheChain(cps: Checkpoints, start: Ulid, end: Ulid, l: seq<Checkpoint>)
    requires Ordered(cps)
    ensures RangeTo(cps, start, end) == Ok(l) <==> ChainBetween(cps, l, start, end)
    decreases end
  {
    if end in cps {
      var cp := cps[end];
      if RangeTo(cps, start, end) == Ok(l) && end != start {
        RangeIsTheChain(cps, start, cp.parent.value, l[..|l| - 1]);
        assert l == l[..|l| - 1] + [cp];
      }
      if ChainBetween(cps, l, start, end) {
        assert l[|l| - 1] in l && l[0] in l;
        if |l| == 1 {
          assert l == [cp];
        } else {
          var init := l[..|l| - 1];
          assert l == init + [cp];
          LinkedAscends(cps, l, 0, |l| - 1);
          assert cp.parent == Some(l[|l| - 2].id);
          assert ChainBetween(cps, init, start, cp.parent.value);
          RangeIsTheChain(cps, start, cp.parent.value, init);
        }
      }
    } else if l != [] {
      assert l[|l| - 1] in l;
    }
  }

  // ---------------------------------------------------------------- the unpublished ancestors

  /** The walk back from `current`; nothing when it gives up. */
  function ChainBefore(
    cps: Checkpoints, published: set<Ulid>, included: set<Ulid>, current: Checkpoint,
    depth: nat): Option<seq<Checkpoint>>
    decreases depth
  {
    if depth == 0 then None
    else if current.parent.None? then Some([])
    else
      var p := current.parent.value;
      if p in included || p in published then Some([])
      else if p !in cps then None
      else match ChainBefore(cps, published, included, cps[p], depth - 1)
           case None => None
           case Some(l) => Some(l + [cps[p]])
  }

  /** `find_chain_to_published_ancestor`. */
  method FindChain(cps: Checkpoints, published: set<Ulid>, included: set<Ulid>, checkpoint: Checkpoint, maxDepth: nat)
    returns (chain: seq<Checkpoint>, found: bool)
    ensures match ChainBefore(cps, published, included, checkpoint, maxDepth)
            case None => chain == [] && !found
            case Some(l) => chain == l && found
  {
    chain := [];
    var current := checkpoint;
    var depth := 0;
    assert forall l: seq<Checkpoint> :: l + [] == l;
    while true
      invariant depth <= maxDepth
      invariant match ChainBefore(cps, published, included, current, maxDepth - depth)
                case None => ChainBefore(cps, published, included, checkpoint, maxDepth).None?
                case Some(l) => ChainBefore(cps, published, included, checkpoint, maxDepth)
                                == Some(l + Reversed(chain))
      decreases maxDepth - depth
    {
      if depth >= maxDepth { return [], false; }
      if current.parent.None? { return Reversed(chain), true; }
      var p := current.parent.value;
      if p in included { return Reversed(chain), true; }
      if p in published { return Reversed(chain), true; }
      if p !in cps { return [], false; }
      var parent := cps[p];
      ReversedSnoc(chain, parent);
      ghost var older := ChainBefore(cps, published, included, parent, maxDepth - depth - 1);
      assert older.Some? ==> older.value + [parent] + Reversed(chain) == older.value + Reversed(chain + [parent]);
      chain := chain + [parent];
      current := parent;
      depth := depth + 1;
    }
  }

  /** A checkpoint whose parent needs no publishing, or will be published anyway. */
  predicate Anchored(published: set<Ulid>, included: set<Ulid>, cp: Checkpoint) {
    cp.parent.None? || cp.parent.value in published || cp.parent.value in included
  }

  /** What a successful walk returns. */
  lemma {:induction false} ChainBeforeFacts(
    cps: Checkpoints, published: set<Ulid>, included: set<Ulid>, current: Checkpoint, depth: nat, l: seq<Checkpoint>)
    requires Ordered(cps)
    requires ChainBefore(cps, published, included, current, depth) == Some(l)
    ensures |l| < depth
    ensures Known(cps, l) && Linked(l + [current])
    ensures forall cp :: cp in l ==> cp.id !in published && cp.id !in included
    ensures Anchored(published, included, (l + [current])[0])
    decreases depth
  {
    if l != [] {
      var parent := cps[current.parent.value];
      var init := l[..|l| - 1];
      assert l == init + [parent];
      ChainBeforeFacts(cps, published, included, parent, depth - 1, init);
      LinkedSnoc(init + [parent], current);
      assert (l + [current])[0] == (init + [parent])[0];
    }
  }

  /** A chain of unpublished ancestors that leads to an anchored one, shorter than the bound. */
  ghost predicate AnchoredChain(
    cps: Checkpoints, published: set<Ulid>, included: set<Ulid>, current: Checkpoint, depth: nat, l: seq<Checkpoint>)
  {
    && |l| < depth && Known(cps, l) && Linked(l + [current])
    && (forall cp :: cp in l ==> cp.id !in published && cp.id !in included)
    && Anchored(published, included, (l + [current])[0])
  }

  /** The walk succeeds exactly when there is such a chain, and then returns it; otherwise it gives up. */
  lemma {:induction false} ChainBeforeExactly(
    cps: Checkpoints, published: set<Ulid>, included: set<Ulid>, current: Checkpoint, depth: nat, l: seq<Checkpoint>)
    requires Ordered(cps)
    ensures ChainBefore(cps, published, included, current, depth) == Some(l) <==>
            AnchoredChain(cps, published, included, current, depth, l)
    decreases depth
  {
    if ChainBefore(cps, published, included, current, depth) == Some(l) {
      ChainBeforeFacts(cps, published, included, current, depth, l);
    }
    if AnchoredChain(cps, published, included, current, depth, l) && l != [] {
      var init, parent := l[..|l| - 1], l[|l| - 1];
      assert l == init + [parent] && parent in l;
      LinkedPrefix(l, current);
      assert (l + [current])[0] == (init + [parent])[0];
      ChainBeforeExactly(cps, published, included, parent, depth - 1, init);
    }
  }

  predicate OlderOrSame(x: Checkpoint, y: Checkpoint) {
    x.id <= y.id
  }

  function IdsOf(l: seq<Checkpoint>): set<Ulid> {
    set cp | cp in l :: cp.id
  }

  /** `chain` without the checkpoints already included. */
  function NewOnes(chain: seq<Checkpoint>, included: set<Ulid>): seq<Checkpoint> {
    if chain == [] then []
    else if chain[0].id in included then NewOnes(chain[1..], included)
    else [chain[0]] + NewOnes(chain[1..], included + {chain[0].id})
  }

  /** The ancestors collected for the requested checkpoints from the first on. */
  function Collected(cps: Checkpoints, published: set<Ulid>, included: set<Ulid>,
      requested: seq<Checkpoint>): seq<Checkpoint>
    decreases |requested|
  {
    if requested == [] then []
    else if requested[0].id in published then Collected(cps, published, included, requested[1..])
    else match ChainBefore(cps, published, included, requested[0], MAX_CHAIN_GAP)
         case None => Collected(cps, published, included, requested[1..])
         case Some(l) =>
           var fresh_ := NewOnes(l, included);
           fresh_ + Collected(cps, published, included + IdsOf(fresh_), requested[1..])
  }

  method AddAncestors(chain: seq<Checkpoint>, included: set<Ulid>, ancestors: seq<Checkpoint>)
    returns (included': set<Ulid>, ancestors': seq<Checkpoint>)
    ensures ancestors' == ancestors + NewOnes(chain, included)
    ensures included' == included + IdsOf(NewOnes(chain, included))
  {
    included', ancestors' := included, ancestors;
    ghost var all := NewOnes(chain, included);
    assert IdsOf(all) == IdsOf([]) + IdsOf(NewOnes(chain[0..], included));
    for i := 0 to |chain|
      invariant ancestors' + NewOnes(chain[i..], included') == ancestors + all
      invariant included' + IdsOf(NewOnes(chain[i..], included')) == included + IdsOf(all)
    {
      var rest := chain[i..];
      assert rest[1..] == chain[i + 1..];
      if chain[i].id !in included' {
        var later := NewOnes(rest[1..], included' + {chain[i].id});
        assert IdsOf([chain[i]] + later) == {chain[i].id} + IdsOf(later);
        assert ancestors' + ([chain[i]] + later) == ancestors' + [chain[i]] + later;
        included' := included' + {chain[i].id};
        ancestors' := ancestors' + [chain[i]];
      }
    }
  }

  /** One requested checkpoint: what its walk adds, and what is collected after it. */
  lemma CollectedStep(cps: Checkpoints, published: set<Ulid>, included: set<Ulid>, requested: seq<Checkpoint>)
    requires requested != [] && requested[0].id !in published
    ensures var l := ChainBefore(cps, published, included, requested[0], MAX_CHAIN_GAP);
            var added := NewOnes(if l.Some? then l.value else [], included);
            Collected(cps, published, included, requested)
            == added + Collected(cps, published, included + IdsOf(added), requested[1..])
  {
    assert IdsOf([]) == {} && included + {} == included;
  }

  /** `smart_chain_publish`. */
  method SmartChainPublish(cps: Checkpoints, published: set<Ulid>, requested: seq<Checkpoint>)
    returns (result: seq<Checkpoint>)
    ensures result == Sort(OlderOrSame, Collected(cps, published, IdsOf(requested), requested)) + requested
  {
    hide ChainBefore, NewOnes, Sort;
    ghost var all := Collected(cps, published, IdsOf(requested), requested);
    var included := IdsOf(requested);
    var ancestors: seq<Checkpoint> := [];
    for i := 0 to |requested|
      invariant ancestors + Collected(cps, published, included, requested[i..]) == all
    {
      ghost var rest := requested[i..];
      assert rest[1..] == requested[i + 1..];
      if requested[i].id in published { continue; }
      hide Collected, IdsOf;
      CollectedStep(cps, published, included, rest);
      var chain, found := FindChain(cps, published, included, requested[i], MAX_CHAIN_GAP);
      included, ancestors := AddAncestors(chain, included, ancestors);
    }
    assert ancestors + [] == ancestors;
    result := Sort(OlderOrSame, ancestors) + requested;
  }

  // ---------------------------------------------------------------- contiguous requests

  /** What the walk from the oldest requested checkpoint found, or nothing if it gave up or was not made. */
  function Ancestry(cps: Checkpoints, published: set<Ulid>, requested: seq<Checkpoint>): seq<Checkpoint>
    requires requested != []
  {
    if requested[0].id in published then []
    else match ChainBefore(cps, published, IdsOf(requested), requested[0], MAX_CHAIN_GAP)
         case None => []
         case Some(l) => l
  }

  predicate GaveUp(cps: Checkpoints, published: set<Ulid>, requested: seq<Checkpoint>)
    requires requested != []
  {
    ChainBefore(cps, published, IdsOf(requested), requested[0], MAX_CHAIN_GAP).None?
  }

  lemma {:induction false} NothingMoreCollected(
    cps: Checkpoints, published: set<Ulid>, included: set<Ulid>, requested: seq<Checkpoint>)
    requires forall cp :: cp in requested ==> cp.parent.Some? && cp.parent.value in included
    ensures Collected(cps, published, included, requested) == []
  {
    if requested != [] {
      assert requested[0] in requested;
      assert IdsOf([]) == {} && included + {} == included;
      NothingMoreCollected(cps, published, included, requested[1..]);
    }
  }

  lemma {:induction false} AllAreNew(cps: Checkpoints, chain: seq<Checkpoint>, included: set<Ulid>)
    requires Ordered(cps) && Known(cps, chain) && Linked(chain)
    requires forall cp :: cp in chain ==> cp.id !in included
    ensures NewOnes(chain, included) == chain
  {
    if chain != [] {
      var rest := chain[1..];
      forall cp | cp in rest ensures cp.id !in included + {chain[0].id} {
        var i :| 0 <= i < |rest| && rest[i] == cp;
        LinkedAscends(cps, chain, 0, i + 1);
      }
      assert Linked(rest) by {
        assert forall i :: 0 < i < |rest| ==> rest[i] == chain[i + 1] && rest[i - 1] == chain[i];
      }
      AllAreNew(cps, rest, included + {chain[0].id});
    }
  }

  lemma {:induction false} SortOfAscending(l: seq<Checkpoint>)
    requires forall i, j :: 0 <= i < j < |l| ==> l[i].id < l[j].id
    ensures Sort(OlderOrSame, l) == l
  {
    if l != [] {
      forall i, j | 0 <= i < j < |l[1..]| ensures l[1..][i].id < l[1..][j].id { assert l[i + 1].id < l[j + 1].id; }
      SortOfAscending(l[1..]);
      assert l == [l[0]] + l[1..];
      if |l| > 1 { assert OlderOrSame(l[0], l[1..][0]); }
    }
  }

  /** For a contiguous request only the oldest checkpoint brings ancestors, and sorting leaves them alone. */
  lemma ContiguousResult(cps: Checkpoints, published: set<Ulid>, requested: seq<Checkpoint>)
    requires Ordered(cps) && requested != [] && Known(cps, requested) && Linked(requested)
    ensures Sort(OlderOrSame, Collected(cps, published, IdsOf(requested), requested)) + requested
            == Ancestry(cps, published, requested) + requested
  {
    var included := IdsOf(requested);
    var chain := Ancestry(cps, published, requested);
    forall cp | cp in requested[1..] ensures cp.parent.Some? && cp.parent.value in included {
      var i :| 0 <= i < |requested[1..]| && requested[1..][i] == cp;
      assert requested[i] in requested && requested[i + 1].parent == Some(requested[i].id);
    }
    NothingMoreCollected(cps, published, included + IdsOf(chain), requested[1..]);
    assert IdsOf([]) == {} && included + {} == included;
    NothingMoreCollected(cps, published, included, requested[1..]);
    if requested[0].id !in published && !GaveUp(cps, published, requested) {
      ChainBeforeFacts(cps, published, included, requested[0], MAX_CHAIN_GAP, chain);
      LinkedPrefix(chain, requested[0]);
      AllAreNew(cps, chain, included);
      assert chain + [] == chain;
    }
    forall i, j | 0 <= i < j < |chain| ensures chain[i].id < chain[j].id { LinkedAscends(cps, chain, i, j); }
    SortOfAscending(chain);
  }

  lemma LinkedPrefix(chain: seq<Checkpoint>, cp: Checkpoint)
    requires Linked(chain + [cp])
    ensures Linked(chain)
    ensures chain != [] ==> cp.parent == Some(chain[|chain| - 1].id)
  {
    var all := chain + [cp];
    forall i | 0 < i < |chain| ensures chain[i].parent == Some(chain[i - 1].id) {
      assert all[i].parent == Some(all[i - 1].id);
    }
    if chain != [] { assert all[|chain|].parent == Some(all[|chain| - 1].id); }
  }

  /**
   A contiguous request becomes one contiguous, duplicate-free list: fewer than a hundred
   unpublished ancestors in front, each checkpoint the parent of the next, and the oldest
   one's parent absent or published, unless the walk gave up or the request starts published.
   */
  lemma SmartChainIsSound(cps: Checkpoints, published: set<Ulid>, requested: seq<Checkpoint>)
    requires Ordered(cps) && requested != [] && Known(cps, requested) && Linked(requested)
    ensures var extra := Ancestry(cps, published, requested);
            var list := extra + requested;
            && Sort(OlderOrSame, Collected(cps, published, IdsOf(requested), requested)) + requested == list
            && |extra| < 100
            && (forall cp :: cp in extra ==> cp.id !in published && cp.id !in IdsOf(requested))
            && Known(cps, list) && Linked(list)
            && (forall i, j :: 0 <= i < j < |list| ==> list[i].id != list[j].id)
            && (requested[0].id !in published && !GaveUp(cps, published, requested)
                ==> Anchored(published, {}, list[0]))
  {
    hide ChainBefore, Collected, Sort, Linked;
    var extra := Ancestry(cps, published, requested);
    var list := extra + requested;
    ContiguousResult(cps, published, requested);
    if extra == [] { LinkedNone(); }
    if requested[0].id !in published && !GaveUp(cps, published, requested) {
      ChainBeforeFacts(cps, published, IdsOf(requested), requested[0], MAX_CHAIN_GAP, extra);
      LinkedPrefix(extra, requested[0]);
      assert (extra + [requested[0]])[0] == list[0];
    }
    LinkedConcat(extra, requested);
    if extra != [] { LinkedAscends(cps, list, 0, |extra|); }
    assert list[0] in list;
    OldestParentNotRequested(cps, requested, list);
    forall i, j | 0 <= i < j < |list| ensures list[i].id != list[j].id { LinkedAscends(cps, list, i, j); }
  }

  lemma LinkedNone()
    ensures Linked([])
  {
  }

  lemma LinkedConcat(a: seq<Checkpoint>, b: seq<Checkpoint>)
    requires Linked(a) && Linked(b)
    requires a != [] && b != [] ==> b[0].parent == Some(a[|a| - 1].id)
    ensures Linked(a + b)
  {
    var list := a + b;
    forall i | 0 < i < |list| ensures list[i].parent == Some(list[i - 1].id) {
      if i > |a| { assert list[i] == b[i - |a|] && list[i - 1] == b[i - |a| - 1]; }
    }
  }

  lemma OldestParentNotRequested(cps: Checkpoints, requested: seq<Checkpoint>, list: seq<Checkpoint>)
    requires Ordered(cps) && requested != [] && Known(cps, requested) && Linked(requested)
    requires list != [] && list[0].id in cps && cps[list[0].id] == list[0] && list[0].id <= requested[0].id
    ensures list[0].parent.Some? ==> list[0].parent.value !in IdsOf(requested)
  {
    forall cp | cp in requested ensures cp.id >= requested[0].id {
      var i :| 0 <= i < |requested| && requested[i] == cp;
      if i > 0 { LinkedAscends(cps, requested, 0, i); }
    }
  }

  // ---------------------------------------------------------------- any request

  /** Including more never makes a walk give up. */
  lemma {:induction false} MoreIncluded(
    cps: Checkpoints, published: set<Ulid>, included: set<Ulid>, more: set<Ulid>, current: Checkpoint, depth: nat)
    requires included <= more && ChainBefore(cps, published, included, current, depth).Some?
    ensures ChainBefore(cps, published, more, current, depth).Some?
    decreases depth
  {
    if current.parent.Some? {
      var p := current.parent.value;
      if p !in more && p !in published { MoreIncluded(cps, published, included, more, cps[p], depth - 1); }
    }
  }

  ghost predicate EachOnce(l: seq<Checkpoint>) {
    forall i, j :: 0 <= i < j < |l| ==> l[i].id != l[j].id
  }

  /** What was collected is new and known, each once, and every parent is published or in the list. */
  ghost predicate WellCollected(
    cps: Checkpoints, published: set<Ulid>, included: set<Ulid>, collected: seq<Checkpoint>)
  {
    && Known(cps, collected) && EachOnce(collected)
    && forall cp :: cp in collected ==>
         && cp.id !in published && cp.id !in included
         && Anchored(published, included + IdsOf(collected), cp)
  }

  /** Every unpublished requested checkpoint whose own walk does not give up has its parent published or in the list. */
  ghost predicate WalksAnchored(
    cps: Checkpoints, published: set<Ulid>, included: set<Ulid>, requested: seq<Checkpoint>, ids: set<Ulid>)
  {
    forall cp | cp in requested && cp.id !in published ::
      ChainBefore(cps, published, included, cp, MAX_CHAIN_GAP).Some? ==> Anchored(published, ids, cp)
  }

  /** The walk from one requested checkpoint, on its own. */
  lemma ChainIsWellCollected(
    cps: Checkpoints, published: set<Ulid>, included: set<Ulid>, current: Checkpoint, l: seq<Checkpoint>)
    requires Ordered(cps) && ChainBefore(cps, published, included, current, MAX_CHAIN_GAP) == Some(l)
    ensures NewOnes(l, included) == l && WellCollected(cps, published, included, l)
    ensures Anchored(published, included + IdsOf(l), current)
  {
    hide ChainBefore, NewOnes;
    ChainBeforeFacts(cps, published, included, current, MAX_CHAIN_GAP, l);
    LinkedPrefix(l, current);
    AllAreNew(cps, l, included);
    forall i, j | 0 <= i < j < |l| ensures l[i].id != l[j].id { LinkedAscends(cps, l, i, j); }
    forall cp | cp in l ensures Anchored(published, included + IdsOf(l), cp) {
      var i :| 0 <= i < |l| && l[i] == cp;
      if i > 0 { assert l[i - 1] in l; } else { assert (l + [current])[0] == cp; }
    }
    if l != [] { assert l[|l| - 1] in l; }
  }

  lemma CollectedJoin(
    cps: Checkpoints, published: set<Ulid>, included: set<Ulid>, a: seq<Checkpoint>, b: seq<Checkpoint>)
    requires WellCollected(cps, published, included, a) && WellCollected(cps, published, included + IdsOf(a), b)
    ensures WellCollected(cps, published, included, a + b) && IdsOf(a + b) == IdsOf(a) + IdsOf(b)
  {
    var l := a + b;
    forall i, j | 0 <= i < j < |l| ensures l[i].id != l[j].id {
      if i < |a| && j >= |a| { assert a[i] in a && b[j - |a|] in b && a[i].id in IdsOf(a); }
    }
    assert included + IdsOf(a) + IdsOf(b) == included + IdsOf(l);
  }

  lemma {:induction false} CollectedIsAnchored(
    cps: Checkpoints, published: set<Ulid>, included: set<Ulid>, requested: seq<Checkpoint>)
    requires Ordered(cps)
    ensures var collected := Collected(cps, published, included, requested);
            && WellCollected(cps, published, included, collected)
            && WalksAnchored(cps, published, included, requested, included + IdsOf(collected))
    decreases |requested|
  {
    if requested != [] {
      var first, rest := requested[0], requested[1..];
      var chain := ChainBefore(cps, published, included, first, MAX_CHAIN_GAP);
      var added := if first.id !in published && chain.Some? then chain.value else [];
      assert requested == [first] + rest;
      if added == [] {
        assert IdsOf(added) == {} && included + {} == included;
      }
      if first.id !in published && chain.Some? {
        ChainIsWellCollected(cps, published, included, first, added);
      }
      var later := Collected(cps, published, included + IdsOf(added), rest);
      CollectedIsAnchored(cps, published, included + IdsOf(added), rest);
      assert Collected(cps, published, included, requested) == added + later by {
        assert [] + later == later;
      }
      hide ChainBefore, Collected, NewOnes;
      assert WellCollected(cps, published, included, added);
      CollectedJoin(cps, published, included, added, later);
      assert included + IdsOf(added) + IdsOf(later) == included + IdsOf(added + later);
      forall cp | cp in rest && ChainBefore(cps, published, included, cp, MAX_CHAIN_GAP).Some?
        ensures ChainBefore(cps, published, included + IdsOf(added), cp, MAX_CHAIN_GAP).Some?
      {
        MoreIncluded(cps, published, included, included + IdsOf(added), cp, MAX_CHAIN_GAP);
      }
    }
  }

  /**
   For any request, in one piece or not: what is put in front of it are unpublished checkpoints that
   were not requested, each once and in the order of their ids, and the parent of each of them, and
   of every unpublished requested checkpoint whose own walk does not give up, is absent, published
   or in the list.
   */
  lemma AnyRequestIsAnchored(cps: Checkpoints, published: set<Ulid>, requested: seq<Checkpoint>)
    requires Ordered(cps)
    ensures var extra := Sort(OlderOrSame, Collected(cps, published, IdsOf(requested), requested));
            && WellCollected(cps, published, IdsOf(requested), extra)
            && (forall i, j :: 0 <= i < j < |extra| ==> extra[i].id < extra[j].id)
            && WalksAnchored(cps, published, IdsOf(requested), requested, IdsOf(extra + requested))
  {
    var included := IdsOf(requested);
    var collected := Collected(cps, published, included, requested);
    var extra := Sort(OlderOrSame, collected);
    CollectedIsAnchored(cps, published, included, requested);
    hide *;
    SortedIsWellCollected(cps, published, included, collected);
    IdsOfJoin(extra, requested);
    assert IdsOf(extra) + included == included + IdsOf(collected);
  }

  lemma IdsOfJoin(a: seq<Checkpoint>, b: seq<Checkpoint>)
    ensures IdsOf(a + b) == IdsOf(a) + IdsOf(b)
  {
  }

  lemma SortedIsWellCollected(
    cps: Checkpoints, published: set<Ulid>, included: set<Ulid>, collected: seq<Checkpoint>)
    requires WellCollected(cps, published, included, collected)
    ensures var extra := Sort(OlderOrSame, collected);
            && WellCollected(cps, published, included, extra) && IdsOf(extra) == IdsOf(collected)
            && forall i, j :: 0 <= i < j < |extra| ==> extra[i].id < extra[j].id
  {
    var extra := Sort(OlderOrSame, collected);
    SortPermutes(OlderOrSame, collected);
    SortSorts(OlderOrSame, collected);
    DistinctPermuted(collected, extra);
    hide Sort, Anchored;
    assert IdsOf(extra) == IdsOf(collected);
    assert WellCollected(cps, published, included, extra);
    hide WellCollected, IdsOf;
    forall i, j | 0 <= i < j < |extra| ensures extra[i].id < extra[j].id {
      assert OlderOrSame(extra[i], extra[j]);
    }
  }

  lemma DistinctPermuted(a: seq<Checkpoint>, b: seq<Checkpoint>)
    requires multiset(a) == multiset(b) && EachOnce(a)
    ensures EachOnce(b)
  {
    forall i, j | 0 <= i < j < |b| ensures b[i].id != b[j].id {
      if b[i].id == b[j].id {
        assert b[i] in multiset(a) && b[j] in multiset(a);
        assert b[i] == b[j];
        OccursTwice(b, i, j);
        OccursOnce(a, b[i]);
      }
    }
  }

  lemma OccursTwice(s: seq<Checkpoint>, i: nat, j: nat)
    requires i < j < |s| && s[i] == s[j]
    ensures multiset(s)[s[i]] >= 2
  {
    assert s == s[..i] + [s[i]] + s[i + 1..j] + [s[j]] + s[j + 1..];
  }

  lemma OccursOnce(s: seq<Checkpoint>, x: Checkpoint)
    requires EachOnce(s) && x in s
    ensures multiset(s)[x] == 1
  {
    var i :| 0 <= i < |s| && s[i] == x;
    assert s == s[..i] + [x] + s[i + 1..];
    assert x !in s[..i] && x !in s[i + 1..];
  }

  // ---------------------------------------------------------------- accumulated paths

  /** The touched paths from `current` back to the nearest published ancestor, root or missing parent. */
  function AccumulatedPaths(cps: Checkpoints, published: set<Ulid>, current: Checkpoint): set<Path>
    requires Ordered(cps) && (current.parent.Some? ==> current.parent.value < current.id)
    decreases current.id
  {
    PathSet(current.touchedPaths) +
    if current.parent.None? || current.parent.value in published || current.parent.value !in cps then {}
    else AccumulatedPaths(cps, published, cps[current.parent.value])
  }

  /** `accumulate_touched_paths`; the order of the resulting list is that of a hash set. */
  method AccumulateTouchedPaths(cps: Checkpoints, published: set<Ulid>, checkpoint: Checkpoint)
    returns (paths: set<Path>)
    requires Ordered(cps) && (checkpoint.parent.Some? ==> checkpoint.parent.value < checkpoint.id)
    ensures paths == AccumulatedPaths(cps, published, checkpoint)
  {
    paths := {};
    var current := checkpoint;
    while true
      invariant current.parent.Some? ==> current.parent.value < current.id
      invariant paths + AccumulatedPaths(cps, published, current) == AccumulatedPaths(cps, published, checkpoint)
      decreases current.id
    {
      for i := 0 to |current.touchedPaths|
        invariant paths + PathSet(current.touchedPaths[..i]) + AccumulatedPaths(cps, published, current)
                  == AccumulatedPaths(cps, published, checkpoint)
        invariant PathSet(current.touchedPaths[..i]) <= paths
      {
        PathSetStep(current.touchedPaths, i);
        assert current.touchedPaths[i] in AccumulatedPaths(cps, published, current);
        paths := paths + {current.touchedPaths[i]};
      }
      assert current.touchedPaths[..|current.touchedPaths|] == current.touchedPaths;
      if current.parent.None? { return; }
      var p := current.parent.value;
      if p in published { return; }
      if p !in cps { return; }
      current := cps[p];
    }
  }

  /** From `trail[0]`, whose descendants on the trail have unpublished parents, down to `cp`. */
  ghost predicate Trail(cps: Checkpoints, published: set<Ulid>, trail: seq<Checkpoint>, cp: Checkpoint) {
    && trail != [] && trail[|trail| - 1] == cp && Linked(trail) && Known(cps, trail[..|trail| - 1])
    && forall older :: older in trail[..|trail| - 1] ==> older.id !in published
  }

  lemma TrailGoesOn(cps: Checkpoints, published: set<Ulid>, trail: seq<Checkpoint>, parent: Checkpoint, cp: Checkpoint)
    requires Trail(cps, published, trail, parent) && cp.parent == Some(parent.id)
    requires parent.id in cps && cps[parent.id] == parent && parent.id !in published
    ensures Trail(cps, published, trail + [cp], cp) && (trail + [cp])[0] == trail[0]
  {
    LinkedSnoc(trail, cp);
    hide Linked;
    assert trail == trail[..|trail| - 1] + [parent] && (trail + [cp])[..|trail|] == trail;
  }

  lemma TrailGoesBack(cps: Checkpoints, published: set<Ulid>, trail: seq<Checkpoint>, cp: Checkpoint)
    requires Trail(cps, published, trail, cp) && |trail| > 1
    ensures cp.parent.Some? && cp.parent.value in cps && cp.parent.value !in published
    ensures Trail(cps, published, trail[..|trail| - 1], cps[cp.parent.value])
  {
    var older := trail[..|trail| - 1];
    assert trail == older + [cp] && older[|older| - 1] in older;
    LinkedPrefix(older, cp);
    hide Linked;
    assert older[..|older| - 1] <= older;
  }

  /** Accumulated are exactly the paths touched on the way back to the first published or missing parent. */
  lemma {:induction false} AccumulatedExactly(cps: Checkpoints, published: set<Ulid>, cp: Checkpoint, path: Path)
    requires Ordered(cps) && (cp.parent.Some? ==> cp.parent.value < cp.id)
    ensures path in AccumulatedPaths(cps, published, cp) <==>
            exists trail: seq<Checkpoint> :: Trail(cps, published, trail, cp) && path in trail[0].touchedPaths
    decreases cp.id
  {
    if path in cp.touchedPaths { assert Trail(cps, published, [cp], cp); }
    if cp.parent.Some? && cp.parent.value !in published && cp.parent.value in cps {
      var parent := cps[cp.parent.value];
      AccumulatedExactly(cps, published, parent, path);
      if trail: seq<Checkpoint> :| Trail(cps, published, trail, parent) && path in trail[0].touchedPaths {
        hide Trail;
        TrailGoesOn(cps, published, trail, parent, cp);
      }
    }
    if trail: seq<Checkpoint> :| Trail(cps, published, trail, cp) && path in trail[0].touchedPaths {
      if |trail| > 1 {
        hide Trail;
        TrailGoesBack(cps, published, trail, cp);
        assert trail[..|trail| - 1][0] == trail[0];
      } else {
        assert trail == [cp];
      }
    }
  }

  /**
   Whose tree the accumulated paths lead away from: the published ancestor or the missing parent at
   which the walk stops, or the root where it ends.
   */
  function Origin(cps: Checkpoints, published: set<Ulid>, current: Checkpoint): Ulid
    requires Ordered(cps) && (current.parent.Some? ==> current.parent.value < current.id)
    decreases current.id
  {
    if current.parent.None? then current.id
    else if current.parent.value in published || current.parent.value !in cps then current.parent.value
    else Origin(cps, published, cps[current.parent.value])
  }

  /** Every checkpoint's touched paths cover its own change. */
  ghost predicate OwnPathsCover(cps: Checkpoints, treeOf: map<Ulid, Tree>) {
    forall id :: id in cps && cps[id].parent.Some? && cps[id].parent.value in treeOf && id in treeOf ==>
      Covers(PathSet(cps[id].touchedPaths), treeOf[cps[id].parent.value], treeOf[id])
  }

  lemma CoversCompose(a: set<Path>, b: set<Path>, t: Tree, u: Tree, v: Tree)
    requires Covers(a, t, u) && Covers(b, u, v)
    ensures Covers(a + b, t, v)
  {
    forall p | Find(t, p) != Find(v, p) ensures p in a + b {
      assert Find(t, p) != Find(u, p) || Find(u, p) != Find(v, p);
    }
  }

  /** The accumulated paths cover the whole change from the place where the walk stops. */
  lemma {:induction false} AccumulatedCover(
    cps: Checkpoints, published: set<Ulid>, cp: Checkpoint, treeOf: map<Ulid, Tree>)
    requires Ordered(cps) && cps.Keys <= treeOf.Keys && OwnPathsCover(cps, treeOf)
    requires cp.id in cps && cps[cp.id] == cp && Origin(cps, published, cp) in treeOf
    ensures Covers(AccumulatedPaths(cps, published, cp), treeOf[Origin(cps, published, cp)], treeOf[cp.id])
    decreases cp.id
  {
    if cp.parent.Some? {
      var p := cp.parent.value;
      if p in published || p !in cps {
        assert AccumulatedPaths(cps, published, cp) == PathSet(cp.touchedPaths);
      } else {
        AccumulatedCover(cps, published, cps[p], treeOf);
        CoversCompose(AccumulatedPaths(cps, published, cps[p]), PathSet(cp.touchedPaths),
                      treeOf[Origin(cps, published, cp)], treeOf[p], treeOf[cp.id]);
        assert AccumulatedPaths(cps, published, cp)
               == AccumulatedPaths(cps, published, cps[p]) + PathSet(cp.touchedPaths);
      }
    }
  }

  // ---------------------------------------------------------------- the whole publish command

  /** What the command passes on for the first checkpoint of its list. */
  ghost predicate CommandPaths(cps: Checkpoints, w: Jj, first: Checkpoint, accumulated: Option<seq<Path>>)
    requires Ordered(cps) && (first.parent.Some? ==> first.parent.value < first.id)
  {
    && (accumulated.Some? <==> first.parent.Some? && first.parent.value !in w.forward)
    && (accumulated.Some? ==> PathSet(accumulated.value) == AccumulatedPaths(cps, w.forward.Keys, first))
  }

  /** Touched paths that are missing altogether, or cover the checkpoint's own change. */
  ghost predicate OwnPathsEmptyOrCover(cps: Checkpoints, treeOf: map<Ulid, Tree>) {
    forall id :: id in cps && cps[id].parent.Some? && cps[id].parent.value in treeOf && id in treeOf ==>
      EmptyOrCovers(PathSet(cps[id].touchedPaths), treeOf[cps[id].parent.value], treeOf[id])
  }

  lemma ListIsLinkedChain(cps: Checkpoints, list: seq<Checkpoint>, treeOf: map<Ulid, Tree>)
    requires Known(cps, list) && Linked(list) && cps.Keys <= treeOf.Keys && OwnPathsEmptyOrCover(cps, treeOf)
    ensures LinkedChain(list, treeOf)
  {
    hide EmptyOrCovers, PathSet;
    forall i | 0 < i < |list|
      ensures EmptyOrCovers(PathSet(list[i].touchedPaths), treeOf[list[i - 1].id], treeOf[list[i].id])
    {
      assert list[i] in list && list[i - 1] in list;
    }
  }

  /** When the base that the command chooses for one checkpoint is adequate. */
  ghost predicate BaseFits(env: Env, w: Jj, cp: Checkpoint, accumulated: Option<seq<Path>>, seedTree: Tree, t: Tree) {
    || (cp.parent.Some? && cp.parent.value in w.forward)
    || w.seed.None?
    || FitsSeed(SeedPaths(env, accumulated, seedTree, t), seedTree, t)
  }

  lemma BaseFitsExactly(
    env: Env, cps: Checkpoints, w: Jj, cp: Checkpoint, accumulated: Option<seq<Path>>, treeOf: map<Ulid, Tree>,
    seedTree: Tree)
    requires cp.id in cps && cps[cp.id] == cp && cps.Keys <= treeOf.Keys && OwnPathsEmptyOrCover(cps, treeOf)
    requires MappingSound(w, treeOf) && SeedSound(env, w, seedTree) && Flat(treeOf[cp.id])
    ensures FirstIsAdequate(env, accumulated, w, cp, None, treeOf[cp.id])
            <==> BaseFits(env, w, cp, accumulated, seedTree, treeOf[cp.id])
  {
    if cp.parent.Some? && cp.parent.value in w.forward {
      PublishedParentIsAdequate(env, accumulated, w, cp, treeOf, treeOf[cp.id]);
    } else {
      SeedIsAdequateExactly(env, accumulated, w, cp, seedTree, treeOf[cp.id]);
    }
  }

  /**
   The whole command in expand mode, for a contiguous request: once its first commit is made, every
   commit is the full conversion of its checkpoint, in one chain, with a sound mapping, exactly when
   the list starts below a published parent, there is no seed commit, or the paths processed on the
   seed commit fit it.
   */
  lemma PublishCommandIsRightExactly(
    env: Env, cps: Checkpoints, requested: seq<Checkpoint>, w: Jj, accumulated: Option<seq<Path>>,
    treeOf: map<Ulid, Tree>, seedTree: Tree)
    requires Ordered(cps) && requested != [] && Known(cps, requested) && Linked(requested)
    requires MappingSound(w, treeOf) && SeedSound(env, w, seedTree)
    requires cps.Keys <= treeOf.Keys && OwnPathsEmptyOrCover(cps, treeOf)
    requires TreesKnown(env, Ancestry(cps, w.forward.Keys, requested) + requested, treeOf)
    ensures var list := Sort(OlderOrSame, Collected(cps, w.forward.Keys, IdsOf(requested), requested)) + requested;
            var (w', ok) := PublishedAll(env, accumulated, w, list, None);
            && list[0].id in treeOf
            && (Published(env, accumulated, w, list[0], None).Some? ==>
                  (BaseFits(env, w, list[0], accumulated, seedTree, treeOf[list[0].id]) <==>
                   MappingSound(w', treeOf)
                   && RightCommits(w, w', list, ParentCommit(w, list[0], None), treeOf)))
            && (Published(env, accumulated, w, list[0], None).None? ==> w' == w && !ok)
  {
    var list := Ancestry(cps, w.forward.Keys, requested) + requested;
    SmartChainIsSound(cps, w.forward.Keys, requested);
    assert list != [] && list[0] in list;
    var first := list[0];
    assert first.id in cps && cps[first.id] == first && first.id in treeOf && Flat(treeOf[first.id]);
    ListIsLinkedChain(cps, list, treeOf);
    assert PublishedAll(env, accumulated, w, list, None)
           == match Published(env, accumulated, w, first, None)
              case None => (w, false)
              case Some(w1) => PublishedAll(env, accumulated, w1, list[1..], Some(w.next));
    hide *;
    BaseFitsExactly(env, cps, w, first, accumulated, treeOf, seedTree);
    if Published(env, accumulated, w, first, None).Some? {
      RangeIsRightExactly(env, accumulated, w, list, None, treeOf);
    }
  }

  /** When the walk neither gave up nor was skipped, the command is always right for UTF-8 paths. */
  lemma FoundChainFits(
    env: Env, cps: Checkpoints, requested: seq<Checkpoint>, w: Jj, accumulated: Option<seq<Path>>, seedTree: Tree,
    t: Tree)
    requires Ordered(cps) && requested != [] && Known(cps, requested) && Linked(requested)
    requires requested[0].id !in w.forward.Keys && !GaveUp(cps, w.forward.Keys, requested)
    requires Flat(t) && forall p :: Find(seedTree, p) != Find(t, p) ==> env.utf8(p)
    ensures var list := Ancestry(cps, w.forward.Keys, requested) + requested;
            && (list[0].parent.Some? ==> list[0].parent.value < list[0].id)
            && (CommandPaths(cps, w, list[0], accumulated) ==> BaseFits(env, w, list[0], accumulated, seedTree, t))
  {
    var list := Ancestry(cps, w.forward.Keys, requested) + requested;
    SmartChainIsSound(cps, w.forward.Keys, requested);
    assert list[0] in list;
    DiffPathsCoverExactly(env.utf8, seedTree, t);
    CoveringFitsSeed(DiffPaths(env.utf8, seedTree, t), seedTree, t);
  }

  lemma ConvertedAgree(t: Tree, u: Tree, p: Path)
    requires Find(t, p) == Find(u, p)
    ensures Find(Converted(t), p) == Find(Converted(u), p)
  {
    hide Protected, ValueOf;
    assert p in Converted(t) <==> Publishable(t, p);
    assert p in Converted(u) <==> Publishable(u, p);
  }

  /**
   When the walk gave up, the paths were accumulated back to a published ancestor, a parent that is
   no longer in the journal or the root, but are applied to the seed commit.  They fit it exactly
   when there are none, or seed tree and the tree at that place convert alike on every other path.
   */
  lemma GaveUpFitsExactly(
    env: Env, cps: Checkpoints, w: Jj, cp: Checkpoint, accumulated: Option<seq<Path>>, treeOf: map<Ulid, Tree>,
    seedTree: Tree)
    requires Ordered(cps) && cps.Keys <= treeOf.Keys && OwnPathsCover(cps, treeOf)
    requires cp.id in cps && cps[cp.id] == cp && Origin(cps, w.forward.Keys, cp) in treeOf
    requires CommandPaths(cps, w, cp, accumulated) && accumulated.Some?
    ensures var paths, origin := PathSet(accumulated.value), treeOf[Origin(cps, w.forward.Keys, cp)];
            BaseFits(env, w, cp, accumulated, seedTree, treeOf[cp.id]) <==>
            || w.seed.None?
            || paths == {}
            || forall p :: p !in paths ==> Find(Converted(seedTree), p) == Find(Converted(origin), p)
  {
    AccumulatedCover(cps, w.forward.Keys, cp, treeOf);
    var paths, origin, t := PathSet(accumulated.value), treeOf[Origin(cps, w.forward.Keys, cp)], treeOf[cp.id];
    hide Converted, PathSet, AccumulatedPaths, Origin;
    forall p | p !in paths ensures Find(Converted(t), p) == Find(Converted(origin), p) {
      ConvertedAgree(t, origin, p);
    }
  }

  /** In particular, a chain accumulated back to a root whose touched paths cover its change from the seed fits. */
  lemma RootChainFits(
    env: Env, cps: Checkpoints, w: Jj, cp: Checkpoint, accumulated: Option<seq<Path>>, treeOf: map<Ulid, Tree>,
    seedTree: Tree)
    requires Ordered(cps) && cps.Keys <= treeOf.Keys && OwnPathsCover(cps, treeOf)
    requires cp.id in cps && cps[cp.id] == cp && Flat(treeOf[cp.id])
    requires CommandPaths(cps, w, cp, accumulated) && accumulated.Some?
    requires var o := Origin(cps, w.forward.Keys, cp);
             o in cps && cps[o].parent.None? && o !in w.forward
             && Covers(PathSet(cps[o].touchedPaths), seedTree, treeOf[o])
    ensures BaseFits(env, w, cp, accumulated, seedTree, treeOf[cp.id])
  {
    var o := Origin(cps, w.forward.Keys, cp);
    var paths := AccumulatedPaths(cps, w.forward.Keys, cp);
    AccumulatedCover(cps, w.forward.Keys, cp, treeOf);
    OriginIsAccumulated(cps, w.forward.Keys, cp);
    CoversCompose(paths, paths, seedTree, treeOf[o], treeOf[cp.id]);
    assert paths + paths == paths;
    CoveringFitsSeed(paths, seedTree, treeOf[cp.id]);
  }

  lemma {:induction false} OriginIsAccumulated(cps: Checkpoints, published: set<Ulid>, cp: Checkpoint)
    requires Ordered(cps) && cp.id in cps && cps[cp.id] == cp
    ensures var o := Origin(cps, published, cp);
            o in cps && o !in published ==> PathSet(cps[o].touchedPaths) <= AccumulatedPaths(cps, published, cp)
    decreases cp.id
  {
    if cp.parent.Some? && cp.parent.value !in published && cp.parent.value in cps {
      OriginIsAccumulated(cps, published, cps[cp.parent.value]);
    }
  }

  // ---------------------------------------------------------------- compact mode

  /**
   Compact mode publishes only the last checkpoint of the list, with the paths accumulated for the
   first one: right exactly when the last one's own parent is published, there is no seed commit, or
   those paths fit the seed commit for the last one's tree.
   */
  lemma CompactIsRightExactly(
    env: Env, cps: Checkpoints, w: Jj, list: seq<Checkpoint>, accumulated: Option<seq<Path>>, treeOf: map<Ulid, Tree>,
    seedTree: Tree)
    requires list != [] && Known(cps, list) && cps.Keys <= treeOf.Keys && OwnPathsEmptyOrCover(cps, treeOf)
    requires MappingSound(w, treeOf) && SeedSound(env, w, seedTree) && TreesKnown(env, list, treeOf)
    requires Published(env, accumulated, w, list[|list| - 1], None).Some?
    ensures var last := list[|list| - 1];
            var (w', ok) := PublishedAll(env, accumulated, w, [last], None);
            ok && w'.next == w.next + 1 && w.next in w'.commits
            && (w'.commits[w.next].tree == Some(Converted(treeOf[last.id])) <==>
                BaseFits(env, w, last, accumulated, seedTree, treeOf[last.id]))
  {
    var last := list[|list| - 1];
    assert last in list && [last][1..] == [];
    hide Converted, BaseFits, FirstIsAdequate, S.Lookup, OwnPathsEmptyOrCover, MappingSound, SeedSound;
    BaseFitsExactly(env, cps, w, last, accumulated, treeOf, seedTree);
    OneIsRightExactly(env, accumulated, w, last, None, treeOf[last.id]);
    PublishedNext(env, accumulated, w, last, None);
  }

  // ---------------------------------------------------------------- inputs that go wrong

  /** A collected parent makes the walk give up, and the list is the request alone. */
  lemma CollectedParentGivesUp(cps: Checkpoints, published: set<Ulid>, requested: seq<Checkpoint>)
    requires Ordered(cps) && requested != [] && Known(cps, requested) && Linked(requested)
    requires requested[0].parent.Some? && requested[0].parent.value !in published && requested[0].parent.value !in cps
    ensures GaveUp(cps, published, requested)
    ensures Sort(OlderOrSame, Collected(cps, published, IdsOf(requested), requested)) + requested == requested
  {
    SmartChainIsSound(cps, published, requested);
    assert requested[0] in requested;
    OldestParentNotRequested(cps, requested, requested);
    assert Ancestry(cps, published, requested) == [];
    assert [] + requested == requested;
  }

  /** A store that can read the seed tree and one checkpoint's tree, with every blob in Git already. */
  function EnvWith(codec: S.Codec, seedRoot: Hash, seedTree: Tree, root: Hash, t: Tree, blobs: set<Hash>): Env {
    Env(codec, S.State(map[], map[seedRoot := seedTree, root := t], map[], {}), blobs, _ => true, _ => true)
  }

  /** A repository with nothing published but the seed commit. */
  function SeededRepo(seedRoot: Hash, seedTree: Tree): Jj {
    Jj(map[ROOT_COMMIT := Commit([], None), 1 := Commit([ROOT_COMMIT], Some(Converted(seedTree)))], 2, map[], map[],
       Some(1), Some(seedRoot))
  }

  lemma SeededPublishes(
    codec: S.Codec, seedRoot: Hash, seedTree: Tree, root: Hash, t: Tree, blobs: set<Hash>, cp: Checkpoint,
        paths: seq<Path>)
    requires seedRoot != root && cp.rootTree == root && paths != []
    requires cp.parent.Some? && forall p :: p in t ==> t[p].kind == File && t[p].hash in blobs
    ensures var env, w := EnvWith(codec, seedRoot, seedTree, root, t, blobs), SeededRepo(seedRoot, seedTree);
            && SeedSound(env, w, seedTree)
            && Published(env, Some(paths), w, cp, None).Some?
            && (Published(env, Some(paths), w, cp, None).value.commits[2].tree == Some(Converted(t)) <==>
                FitsSeed(PathSet(paths), seedTree, t))
  {
    var env, w := EnvWith(codec, seedRoot, seedTree, root, t, blobs), SeededRepo(seedRoot, seedTree);
    assert paths[0] in PathSet(paths);
    hide Converted, Convertible, ConversionOf;
    assert AllFilesConvertible(env, t) by { FilesConvert(env, t); }
    assert PatchConvertible(env, t, PathSet(paths));
    OneIsRightExactly(env, Some(paths), w, cp, None, t);
    SeedIsAdequateExactly(env, Some(paths), w, cp, seedTree, t);
  }

  ghost predicate AllFilesConvertible(env: Env, t: Tree) {
    forall p :: env.validPath(p) && (p in t ==> Convertible(env, p, t[p]))
  }

  lemma FilesConvert(env: Env, t: Tree)
    requires (forall p :: env.validPath(p)) && forall p :: p in t ==> t[p].kind == File && t[p].hash in env.gitObjects
    ensures AllFilesConvertible(env, t)
  {
  }

  const FILE_P: Path := [112]
  const FILE_Q: Path := [113]
  const FILE_R: Path := [114]

  /** Checkpoint 7, whose parent 6 was collected, touches only q; its child 8 touches only r. */
  function CheckpointSeven(root: Hash): Checkpoint {
    Checkpoint(7, Some(6), root, [FILE_Q])
  }

  function CheckpointEight(root: Hash): Checkpoint {
    Checkpoint(8, Some(7), root, [FILE_R])
  }

  lemma SevenIsAccumulated(cps: Checkpoints, w: Jj, root: Hash)
    requires Ordered(cps) && 6 !in cps && w.forward == map[]
    ensures CommandPaths(cps, w, CheckpointSeven(root), Some([FILE_Q]))
  {
    assert PathSet([FILE_Q]) + {} == PathSet([FILE_Q]);
  }

  lemma DifferentValuesMiss(touched: set<Path>, seedTree: Tree, t: Tree, p: Path)
    requires p in t && t[p].kind == File && !Protected(p) && p !in touched && touched != {}
    requires p in seedTree ==> seedTree[p].kind == File && seedTree[p].hash != t[p].hash
    ensures !FitsSeed(touched, seedTree, t)
  {
    assert Publishable(t, p);
    assert Find(Converted(t), p) == Some(ValueOf(t[p]));
    assert p in Converted(seedTree) ==> Converted(seedTree)[p] == ValueOf(seedTree[p]);
  }

  lemma OnlyOneDiffers(old_: Tree, p: Path, e: Entry)
    requires p !in old_
    ensures Covers(PathSet([p]), old_, old_[p := e])
  {
    assert [p][0] == p;
    forall q | Find(old_, q) != Find(old_[p := e], q) ensures q in PathSet([p]) { assert q == p; }
  }

  /**
   The walk gives up on 7, {q} is accumulated, which covers its change from its parent, and p is
   published with the content it had in the seed.
   */
  lemma CollectedParentIsPublishedWrong(codec: S.Codec, seedRoot: Hash, root: Hash, h: Hash, h': Hash)
    requires seedRoot != root && h != h'
    ensures var seedTree: Tree := map[FILE_P := FileEntry(MODE_FILE, h)];
            var parentTree: Tree := map[FILE_P := FileEntry(MODE_FILE, h')];
            var t: Tree := parentTree[FILE_Q := FileEntry(MODE_FILE, h)];
            var cp := CheckpointSeven(root);
            var cps := map[cp.id := cp];
            var env, w := EnvWith(codec, seedRoot, seedTree, root, t, {h, h'}), SeededRepo(seedRoot, seedTree);
            var r := Published(env, Some([FILE_Q]), w, cp, None);
            && Ordered(cps) && Known(cps, [cp]) && Linked([cp]) && SeedSound(env, w, seedTree)
            && Covers(PathSet(cp.touchedPaths), parentTree, t)
            && GaveUp(cps, {}, [cp]) && Sort(OlderOrSame, Collected(cps, {}, IdsOf([cp]), [cp])) + [cp] == [cp]
            && CommandPaths(cps, w, cp, Some([FILE_Q]))
            && r.Some? && r.value.commits[2].tree != Some(Converted(t))
  {
    var seedTree: Tree := map[FILE_P := FileEntry(MODE_FILE, h)];
    var parentTree: Tree := map[FILE_P := FileEntry(MODE_FILE, h')];
    var t: Tree := parentTree[FILE_Q := FileEntry(MODE_FILE, h)];
    var cp := CheckpointSeven(root);
    assert FILE_Q != FILE_P by { assert FILE_Q[0] != FILE_P[0]; }
    OnlyOneDiffers(parentTree, FILE_Q, FileEntry(MODE_FILE, h));
    assert !Protected(FILE_P) && FILE_P !in PathSet([FILE_Q]) && PathSet([FILE_Q]) != {} by {
      assert FILE_Q in PathSet([FILE_Q]);
    }
    var cps := map[cp.id := cp];
    assert Ordered(cps) && Known(cps, [cp]) && Linked([cp]);
    hide Converted, Published, Protected, PathSet, FitsSeed, Collected, SeedSound, CommandPaths, GaveUp;
    SevenIsAccumulated(cps, SeededRepo(seedRoot, seedTree), root);
    CollectedParentGivesUp(cps, {}, [cp]);
    SeededPublishes(codec, seedRoot, seedTree, root, t, {h, h'}, cp, [FILE_Q]);
    DifferentValuesMiss(PathSet([FILE_Q]), seedTree, t, FILE_P);
  }

  lemma CompactList(root: Hash, root': Hash, w: Jj)
    requires w.forward == map[]
    ensures var list := [CheckpointSeven(root), CheckpointEight(root')];
            var cps := map[7 := list[0], 8 := list[1]];
            && Ordered(cps) && Known(cps, list) && Linked(list)
            && GaveUp(cps, {}, list) && Sort(OlderOrSame, Collected(cps, {}, IdsOf(list), list)) + list == list
            && CommandPaths(cps, w, list[0], Some([FILE_Q]))
  {
    var list := [CheckpointSeven(root), CheckpointEight(root')];
    var cps := map[7 := list[0], 8 := list[1]];
    assert Ordered(cps) && Known(cps, list) && Linked(list);
    hide Collected, CommandPaths, GaveUp;
    SevenIsAccumulated(cps, w, root);
    CollectedParentGivesUp(cps, {}, list);
  }

  /** In compact mode {q}, accumulated for 7, is all that is processed for 8, whose own r is not published. */
  lemma CompactMissesLaterChanges(codec: S.Codec, seedRoot: Hash, root: Hash, root': Hash, h: Hash)
    requires seedRoot != root'
    ensures var seedTree: Tree := map[FILE_P := FileEntry(MODE_FILE, h)];
            var parentTree: Tree := seedTree[FILE_Q := FileEntry(MODE_FILE, h)];
            var t: Tree := parentTree[FILE_R := FileEntry(MODE_FILE, h)];
            var list := [CheckpointSeven(root), CheckpointEight(root')];
            var cps := map[7 := list[0], 8 := list[1]];
            var env, w := EnvWith(codec, seedRoot, seedTree, root', t, {h}), SeededRepo(seedRoot, seedTree);
            var r := Published(env, Some([FILE_Q]), w, list[1], None);
            && Ordered(cps) && Known(cps, list) && Linked(list) && SeedSound(env, w, seedTree)
            && Covers(PathSet(list[1].touchedPaths), parentTree, t)
            && GaveUp(cps, {}, list) && Sort(OlderOrSame, Collected(cps, {}, IdsOf(list), list)) + list == list
            && CommandPaths(cps, w, list[0], Some([FILE_Q]))
            && r.Some? && r.value.commits[2].tree != Some(Converted(t))
  {
    var seedTree: Tree := map[FILE_P := FileEntry(MODE_FILE, h)];
    var parentTree: Tree := seedTree[FILE_Q := FileEntry(MODE_FILE, h)];
    var t: Tree := parentTree[FILE_R := FileEntry(MODE_FILE, h)];
    var list := [CheckpointSeven(root), CheckpointEight(root')];
    assert FILE_R != FILE_P && FILE_R != FILE_Q by { assert FILE_R[0] != FILE_P[0] && FILE_R[0] != FILE_Q[0]; }
    OnlyOneDiffers(parentTree, FILE_R, FileEntry(MODE_FILE, h));
    assert !Protected(FILE_R) && FILE_R !in PathSet([FILE_Q]) && PathSet([FILE_Q]) != {} by {
      assert FILE_Q in PathSet([FILE_Q]);
    }
    hide Converted, Published, Protected, PathSet, FitsSeed, Collected, SeedSound, CommandPaths, GaveUp, Ordered, Known,
      Linked;
    CompactList(root, root', SeededRepo(seedRoot, seedTree));
    SeededPublishes(codec, seedRoot, seedTree, root', t, {h}, list[1], [FILE_Q]);
    DifferentValuesMiss(PathSet([FILE_Q]), seedTree, t, FILE_R);
  }
}
