/**
 The debouncer as a step system: pushes, the two timer stages of every spawned task with
 their separate remove and re-insert, flushes and a clock, interleaved in any order.
 */
module Debounce {
  import opened Objects

  type Instant = nat
  type TaskId = nat

  datatype Pending = Pending(lastEvent: Instant, scheduledFire: Instant)

  /** Where a spawned task stands. */
  datatype Task =
    | FirstTimer(path: Path, deadline: Instant)
    | Holding(path: Path, entry: Pending)       // removed the entry, has not compared the time yet
    | Reinserting(path: Path, entry: Pending)   // found newer events, has not put the entry back yet
    | SecondTimer(path: Path, deadline: Instant)
    | Sending(path: Path)                       // removed the entry, has not sent the path yet

  /** A flush between its two halves; `returned` is a history: put back since the copying, and still there. */
  datatype Flushing = Flushing(copied: set<Path>, returned: set<Path>)

  /** `owed` is a history: for each path the earliest push since its last emission or flush. */
  datatype State = State(
    now: Instant,
    entries: map<Path, Pending>,
    tasks: map<TaskId, Task>,
    nextTask: TaskId,
    channel: seq<Path>,
    flush: Option<Flushing>,
    owed: map<Path, Instant>)

  datatype Action =
    | Push(path: Path, missed: bool) // `missed`: the lookup, an earlier step, found no entry
    | Fire(id: TaskId)     // a timer runs out: remove the entry, if it is there
    | Decide(id: TaskId)   // compare the time after the first stage's remove
    | PutBack(id: TaskId)  // re-insert and start the second timer
    | Send(id: TaskId)
    | Copy                 // the first half of a flush
    | Clear                // the second half; the flush returns what was copied
    | Tick(duration: nat)

  predicate IsTimer(t: Task) {
    t.FirstTimer? || t.SecondTimer?
  }

  predicate Holds(t: Task) {
    t.Holding? || t.Reinserting?
  }

  predicate Enabled(s: State, a: Action) {
    match a
    case Push(p, missed) => s.flush.None? && (missed || p in s.entries)  // a flush borrows the debouncer exclusively
    case Fire(id) => id in s.tasks && IsTimer(s.tasks[id]) && s.tasks[id].deadline <= s.now
    case Decide(id) => id in s.tasks && s.tasks[id].Holding?
    case PutBack(id) => id in s.tasks && s.tasks[id].Reinserting?
    case Send(id) => id in s.tasks && s.tasks[id].Sending?
    case Copy => s.flush.None?
    case Clear => s.flush.Some?
    case Tick(_) => true
  }

  /**
   An entry that the lookup finds is re-timed in place.  After a miss an entry is inserted, over
   one that a task may have put back since the lookup, and a task is spawned.
   */
  function Pushed(s: State, debounce: nat, p: Path, missed: bool): State {
    var entry := Pending(s.now, s.now + debounce);
    s.(entries := s.entries[p := entry],
       tasks := if missed then s.tasks[s.nextTask := FirstTimer(p, s.now + debounce)] else s.tasks,
       nextTask := if missed then s.nextTask + 1 else s.nextTask,
       owed := if p in s.owed then s.owed else s.owed[p := s.now])
  }

  function WithReturned(flush: Option<Flushing>, added: set<Path>, removed: set<Path>): Option<Flushing> {
    match flush
    case None => None
    case Some(f) => Some(f.(returned := f.returned + added - removed))
  }

  function Fired(s: State, id: TaskId): State
    requires Enabled(s, Fire(id))
  {
    var t := s.tasks[id];
    if t.path !in s.entries then s.(tasks := s.tasks - {id})
    else s.(entries := s.entries - {t.path},
            flush := WithReturned(s.flush, {}, {t.path}),
            tasks := s.tasks[id := if t.FirstTimer? then Holding(t.path, s.entries[t.path]) else Sending(t.path)])
  }

  function Decided(s: State, id: TaskId): State
    requires Enabled(s, Decide(id))
  {
    var t := s.tasks[id];
    s.(tasks := s.tasks[id := if s.now >= t.entry.scheduledFire then Sending(t.path) else Reinserting(t.path, t.entry)])
  }

  /** Overwrites an entry that a push made in the meantime. */
  function PutBackAt(s: State, id: TaskId): State
    requires Enabled(s, PutBack(id))
  {
    var t := s.tasks[id];
    s.(entries := s.entries[t.path := t.entry],
       flush := WithReturned(s.flush, {t.path}, {}),
       tasks := s.tasks[id := SecondTimer(t.path, t.entry.scheduledFire)])
  }

  function Sent(s: State, id: TaskId): State
    requires Enabled(s, Send(id))
  {
    var p := s.tasks[id].path;
    s.(tasks := s.tasks - {id}, channel := s.channel + [p], owed := s.owed - {p})
  }

  function Copied(s: State): State {
    s.(flush := Some(Flushing(s.entries.Keys, {})))
  }

  /** Clears what is in the map now, copied or not. */
  function Cleared(s: State): State
    requires s.flush.Some?
  {
    s.(entries := map[], flush := None, owed := s.owed - s.flush.value.copied)
  }

  function Apply(s: State, debounce: nat, a: Action): State
    requires Enabled(s, a)
  {
    match a
    case Push(p, missed) => Pushed(s, debounce, p, missed)
    case Fire(id) => Fired(s, id)
    case Decide(id) => Decided(s, id)
    case PutBack(id) => PutBackAt(s, id)
    case Send(id) => Sent(s, id)
    case Copy => Copied(s)
    case Clear => Cleared(s)
    case Tick(d) => s.(now := s.now + d)
  }

  const START: State := State(0, map[], map[], 0, [], None, map[])

  ghost predicate Runs(debounce: nat, s: State, actions: seq<Action>, s': State)
    decreases |actions|
  {
    if actions == [] then s' == s
    else Enabled(s, actions[0]) && Runs(debounce, Apply(s, debounce, actions[0]), actions[1..], s')
  }

  // ---------------------------------------------------------------- no path is lost

  predicate TimerTask(t: Task, p: Path) {
    IsTimer(t) && t.path == p
  }

  predicate InHands(t: Task, p: Path) {
    !IsTimer(t) && t.path == p
  }

  ghost predicate TimerFor(s: State, p: Path) {
    exists id :: id in s.tasks && TimerTask(s.tasks[id], p)
  }

  /** Some task has removed the path's entry and not yet put it back or sent the path. */
  ghost predicate HandsHold(s: State, p: Path) {
    exists id :: id in s.tasks && InHands(s.tasks[id], p)
  }

  ghost predicate Numbered(s: State) {
    forall id :: id in s.tasks ==> id < s.nextTask
  }

  /** During a flush every entry was copied or put back since. */
  predicate Tracked(s: State) {
    s.flush.Some? ==>
      s.entries.Keys <= s.flush.value.copied + s.flush.value.returned && s.flush.value.returned <= s.entries.Keys
  }

  /** Every entry has a timer; every unserved push is in the map or in some task's hands. */
  ghost predicate Covered(s: State) {
    && Numbered(s) && Tracked(s)
    && (forall p :: p in s.entries ==> TimerFor(s, p))
    && (forall p :: p in s.owed ==> p in s.entries || HandsHold(s, p))
  }

  /** All tasks but `id` are as they were. */
  ghost predicate OthersKept(s: State, s': State, id: TaskId) {
    forall k :: k in s.tasks && k != id ==> k in s'.tasks && s'.tasks[k] == s.tasks[k]
  }

  lemma TimerKept(s: State, s': State, id: TaskId, p: Path)
    requires TimerFor(s, p) && OthersKept(s, s', id)
    requires id in s.tasks ==> !TimerTask(s.tasks[id], p) || (id in s'.tasks && TimerTask(s'.tasks[id], p))
    ensures TimerFor(s', p)
  {
    var k :| k in s.tasks && TimerTask(s.tasks[k], p);
    assert k in s'.tasks && TimerTask(s'.tasks[k], p);
  }

  lemma HandsKept(s: State, s': State, id: TaskId, p: Path)
    requires HandsHold(s, p) && OthersKept(s, s', id)
    requires id in s.tasks ==> !InHands(s.tasks[id], p) || (id in s'.tasks && InHands(s'.tasks[id], p))
    ensures HandsHold(s', p)
  {
    var k :| k in s.tasks && InHands(s.tasks[k], p);
    assert k in s'.tasks && InHands(s'.tasks[k], p);
  }

  lemma PushCovered(s: State, debounce: nat, p: Path, missed: bool)
    requires Covered(s) && Enabled(s, Push(p, missed))
    ensures Covered(Pushed(s, debounce, p, missed))
  {
    var s' := Pushed(s, debounce, p, missed);
    assert OthersKept(s, s', s.nextTask);
    forall q | q in s'.entries ensures TimerFor(s', q) {
      if q in s.entries {
        TimerKept(s, s', s.nextTask, q);
      } else {
        assert TimerTask(s'.tasks[s.nextTask], q);
      }
    }
    forall q | q in s'.owed && q !in s'.entries ensures HandsHold(s', q) { HandsKept(s, s', s.nextTask, q); }
  }

  lemma FireCovered(s: State, id: TaskId)
    requires Covered(s) && Enabled(s, Fire(id))
    ensures Covered(Fired(s, id))
  {
    var s', p := Fired(s, id), s.tasks[id].path;
    assert OthersKept(s, s', id);
    forall q | q in s'.entries ensures TimerFor(s', q) { TimerKept(s, s', id, q); }
    forall q | q in s'.owed && q !in s'.entries ensures HandsHold(s', q) {
      if q in s.entries {
        assert InHands(s'.tasks[id], q);
      } else {
        HandsKept(s, s', id, q);
      }
    }
  }

  lemma DecideCovered(s: State, id: TaskId)
    requires Covered(s) && Enabled(s, Decide(id))
    ensures Covered(Decided(s, id))
  {
    var s' := Decided(s, id);
    assert OthersKept(s, s', id);
    forall q | q in s'.entries ensures TimerFor(s', q) { TimerKept(s, s', id, q); }
    forall q | q in s'.owed && q !in s'.entries ensures HandsHold(s', q) { HandsKept(s, s', id, q); }
  }

  lemma PutBackCovered(s: State, id: TaskId)
    requires Covered(s) && Enabled(s, PutBack(id))
    ensures Covered(PutBackAt(s, id))
  {
    var s', p := PutBackAt(s, id), s.tasks[id].path;
    assert OthersKept(s, s', id);
    forall q | q in s'.entries ensures TimerFor(s', q) {
      if q == p { assert TimerTask(s'.tasks[id], q); } else { TimerKept(s, s', id, q); }
    }
    forall q | q in s'.owed && q !in s'.entries ensures HandsHold(s', q) { HandsKept(s, s', id, q); }
  }

  lemma SendCovered(s: State, id: TaskId)
    requires Covered(s) && Enabled(s, Send(id))
    ensures Covered(Sent(s, id))
  {
    var s' := Sent(s, id);
    assert OthersKept(s, s', id);
    forall q | q in s'.entries ensures TimerFor(s', q) { TimerKept(s, s', id, q); }
    forall q | q in s'.owed && q !in s'.entries ensures HandsHold(s', q) { HandsKept(s, s', id, q); }
  }

  /** What a clearing must not find: an owed path put back since the copying that no other task holds. */
  ghost predicate Clean(s: State, a: Action) {
    a.Clear? && s.flush.Some? ==>
      forall p :: p in s.flush.value.returned && p !in s.flush.value.copied && p in s.owed ==> HandsHold(s, p)
  }

  lemma ClearCoveredExactly(s: State)
    requires Covered(s) && Enabled(s, Clear)
    ensures Covered(Cleared(s)) <==> Clean(s, Clear)
  {
    var s' := Cleared(s);
    assert OthersKept(s, s', s.nextTask) && OthersKept(s', s, s.nextTask);
    forall p ensures HandsHold(s', p) <==> HandsHold(s, p) {
      if HandsHold(s, p) { HandsKept(s, s', s.nextTask, p); }
      if HandsHold(s', p) { HandsKept(s', s, s.nextTask, p); }
    }
  }

  lemma QuietCovered(s: State, s': State)
    requires Covered(s) && s' == s.(now := s'.now, flush := s'.flush) && Tracked(s')
    ensures Covered(s')
  {
    assert OthersKept(s, s', s.nextTask);
    forall q | q in s'.entries ensures TimerFor(s', q) { TimerKept(s, s', s.nextTask, q); }
    forall q | q in s'.owed && q !in s'.entries ensures HandsHold(s', q) { HandsKept(s, s', s.nextTask, q); }
  }

  /** Only the clearing half of a flush can break the coverage, and it does exactly when it is not clean. */
  lemma StepKeepsCoveredExactly(s: State, debounce: nat, a: Action)
    requires Covered(s) && Enabled(s, a)
    ensures Covered(Apply(s, debounce, a)) <==> Clean(s, a)
  {
    match a
    case Push(p, missed) => PushCovered(s, debounce, p, missed);
    case Fire(id) => FireCovered(s, id);
    case Decide(id) => DecideCovered(s, id);
    case PutBack(id) => PutBackCovered(s, id);
    case Send(id) => SendCovered(s, id);
    case Copy => QuietCovered(s, Copied(s));
    case Clear => ClearCoveredExactly(s);
    case Tick(d) => QuietCovered(s, s.(now := s.now + d));
  }

  /** Every state of the run is covered. */
  ghost predicate CoveredAlong(debounce: nat, s: State, actions: seq<Action>)
    decreases |actions|
  {
    Covered(s) &&
    (actions == [] ||
     (Enabled(s, actions[0]) && CoveredAlong(debounce, Apply(s, debounce, actions[0]), actions[1..])))
  }

  /** Every clearing of the run is clean. */
  ghost predicate CleanAlong(debounce: nat, s: State, actions: seq<Action>)
    decreases |actions|
  {
    actions == [] ||
    (Enabled(s, actions[0]) && Clean(s, actions[0])
     && CleanAlong(debounce, Apply(s, debounce, actions[0]), actions[1..]))
  }

  /** Whatever the interleaving, nothing is ever uncovered exactly when every flush of the run is clean. */
  lemma {:induction false} RunKeepsCoveredExactly(debounce: nat, s: State, actions: seq<Action>, s': State)
    requires Covered(s) && Runs(debounce, s, actions, s')
    ensures CoveredAlong(debounce, s, actions) <==> CleanAlong(debounce, s, actions)
    ensures CleanAlong(debounce, s, actions) ==> Covered(s')
    decreases |actions|
  {
    if actions != [] {
      hide Covered, Clean;
      StepKeepsCoveredExactly(s, debounce, actions[0]);
      if Clean(s, actions[0]) { RunKeepsCoveredExactly(debounce, Apply(s, debounce, actions[0]), actions[1..], s'); }
      else { CoveredAtFirst(debounce, Apply(s, debounce, actions[0]), actions[1..]); }
    }
  }

  lemma CoveredAtFirst(debounce: nat, s: State, actions: seq<Action>)
    ensures CoveredAlong(debounce, s, actions) ==> Covered(s)
  {
  }

  /**
   In every run from the start whose flushes are clean, an unserved push still has a task that will
   serve it; once no task is outstanding, every push has been emitted or flushed.
   */
  lemma NoPathIsLost(debounce: nat, actions: seq<Action>, s: State)
    requires Runs(debounce, START, actions, s) && CleanAlong(debounce, START, actions)
    ensures forall p :: p in s.entries || p in s.owed ==>
              exists id :: id in s.tasks && s.tasks[id].path == p
    ensures s.tasks == map[] ==> s.owed == map[] && s.entries == map[]
  {
    RunKeepsCoveredExactly(debounce, START, actions, s);
    forall p | p in s.entries || p in s.owed ensures exists id :: id in s.tasks && s.tasks[id].path == p {
      if p in s.entries {
        var id :| id in s.tasks && TimerTask(s.tasks[id], p);
      } else {
        var id :| id in s.tasks && InHands(s.tasks[id], p);
      }
    }
  }

  /** The step sends the path on the channel, or returns it from a flush. */
  predicate Delivers(s: State, debounce: nat, a: Action, p: Path) {
    && Enabled(s, a)
    && if a.Clear? then p in s.flush.value.copied else Apply(s, debounce, a).channel == s.channel + [p]
  }

  /** A push stops being owed only by a delivery of its path. */
  lemma {:induction false} ServedMeansDelivered(debounce: nat, s: State, actions: seq<Action>, s': State, p: Path)
    returns (i: nat, m: State)
    requires Runs(debounce, s, actions, s') && p in s.owed && p !in s'.owed
    ensures i < |actions| && Runs(debounce, s, actions[..i], m) && Delivers(m, debounce, actions[i], p)
    decreases |actions|
  {
    var next := Apply(s, debounce, actions[0]);
    if p !in next.owed {
      i, m := 0, s;
    } else {
      var j, n := ServedMeansDelivered(debounce, next, actions[1..], s', p);
      i, m := j + 1, n;
      assert actions[..i][1..] == actions[1..][..j];
    }
  }

  function PushedPaths(actions: seq<Action>): set<Path> {
    if actions == [] then {} else (if actions[0].Push? then {actions[0].path} else {}) + PushedPaths(actions[1..])
  }

  ghost predicate OnlyAbout(s: State, paths: set<Path>) {
    && (forall id :: id in s.tasks ==> s.tasks[id].path in paths)
    && s.entries.Keys <= paths && (s.flush.Some? ==> s.flush.value.copied <= paths)
    && (forall p :: p in s.channel ==> p in paths)
  }

  lemma {:induction false} RunIsOnlyAbout(debounce: nat, s: State, actions: seq<Action>, s': State, paths: set<Path>)
    requires Runs(debounce, s, actions, s') && OnlyAbout(s, paths)
    ensures OnlyAbout(s', paths + PushedPaths(actions))
    decreases |actions|
  {
    if actions == [] {
      assert paths + {} == paths;
    } else {
      var more := if actions[0].Push? then {actions[0].path} else {};
      RunIsOnlyAbout(debounce, Apply(s, debounce, actions[0]), actions[1..], s', paths + more);
      assert paths + more + PushedPaths(actions[1..]) == paths + PushedPaths(actions);
    }
  }

  /** Nothing is emitted, now or later, that was not pushed. */
  lemma OnlyPushedIsEmitted(debounce: nat, actions: seq<Action>, s: State)
    requires Runs(debounce, START, actions, s)
    ensures forall p :: p in s.channel || p in s.entries ==> p in PushedPaths(actions)
  {
    RunIsOnlyAbout(debounce, START, actions, s, {});
    assert {} + PushedPaths(actions) == PushedPaths(actions);
  }

  // ---------------------------------------------------------------- and every push is served

  /** How many steps a task has left at most. */
  function StepsLeft(t: Task): nat {
    match t
    case FirstTimer(_, _) => 5
    case Holding(_, _) => 4
    case Reinserting(_, _) => 3
    case SecondTimer(_, _) => 2
    case Sending(_) => 1
  }

  /** The steps all tasks numbered below `n` have left. */
  function Work(tasks: map<TaskId, Task>, n: TaskId): nat {
    if n == 0 then 0 else Work(tasks, n - 1) + if n - 1 in tasks then StepsLeft(tasks[n - 1]) else 0
  }

  predicate IsTaskStep(a: Action) {
    a.Fire? || a.Decide? || a.PutBack? || a.Send?
  }

  function CountTaskSteps(actions: seq<Action>): nat {
    if actions == [] then 0 else (if IsTaskStep(actions[0]) then 1 else 0) + CountTaskSteps(actions[1..])
  }

  function CountPushes(actions: seq<Action>): nat {
    if actions == [] then 0 else (if actions[0].Push? then 1 else 0) + CountPushes(actions[1..])
  }

  lemma {:induction false} WorkUnchanged(tasks: map<TaskId, Task>, tasks': map<TaskId, Task>, n: TaskId)
    requires forall k :: k < n ==> (k in tasks <==> k in tasks') && (k in tasks ==> tasks'[k] == tasks[k])
    ensures Work(tasks', n) == Work(tasks, n)
  {
    if n > 0 { WorkUnchanged(tasks, tasks', n - 1); }
  }

  lemma {:induction false} WorkDrops(tasks: map<TaskId, Task>, tasks': map<TaskId, Task>, n: TaskId, id: TaskId)
    requires id < n && id in tasks
    requires forall k :: k < n && k != id ==> (k in tasks <==> k in tasks') && (k in tasks ==> tasks'[k] == tasks[k])
    requires id in tasks' ==> StepsLeft(tasks'[id]) < StepsLeft(tasks[id])
    ensures Work(tasks', n) < Work(tasks, n)
  {
    if n - 1 == id {
      WorkUnchanged(tasks, tasks', n - 1);
    } else {
      WorkDrops(tasks, tasks', n - 1, id);
    }
  }

  /** Every task step uses up work, and only a push makes more. */
  lemma StepUsesWork(s: State, debounce: nat, a: Action)
    requires Numbered(s) && Enabled(s, a)
    ensures var s' := Apply(s, debounce, a);
            && Numbered(s')
            && Work(s'.tasks, s'.nextTask) + (if IsTaskStep(a) then 1 else 0)
               <= Work(s.tasks, s.nextTask) + if a.Push? then 5 else 0
  {
    var s' := Apply(s, debounce, a);
    match a
    case Push(_, _) => WorkUnchanged(s.tasks, s'.tasks, s.nextTask);
    case Fire(id) => WorkDrops(s.tasks, s'.tasks, s.nextTask, id);
    case Decide(id) => WorkDrops(s.tasks, s'.tasks, s.nextTask, id);
    case PutBack(id) => WorkDrops(s.tasks, s'.tasks, s.nextTask, id);
    case Send(id) => WorkDrops(s.tasks, s'.tasks, s.nextTask, id);
    case Copy =>
    case Clear =>
    case Tick(_) =>
  }

  /**
   A run with k pushes makes at most 5k task steps.  A task can always make its next step once
   its timer has run out, so after the last push every path is emitted or flushed, or was lost.
   */
  lemma {:induction false} TaskStepsAreBounded(debounce: nat, s: State, actions: seq<Action>, s': State)
    requires Numbered(s) && Runs(debounce, s, actions, s')
    ensures CountTaskSteps(actions) + Work(s'.tasks, s'.nextTask)
            <= 5 * CountPushes(actions) + Work(s.tasks, s.nextTask)
    decreases |actions|
  {
    if actions != [] {
      StepUsesWork(s, debounce, actions[0]);
      TaskStepsAreBounded(debounce, Apply(s, debounce, actions[0]), actions[1..], s');
    }
  }

  lemma TasksNeverStuck(s: State, id: TaskId)
    requires id in s.tasks
    ensures (exists a :: a in {Fire(id), Decide(id), PutBack(id), Send(id)} && Enabled(s, a))
            <==> (IsTimer(s.tasks[id]) ==> s.tasks[id].deadline <= s.now)
  {
    var t := s.tasks[id];
    assert Enabled(s, Fire(id)) <==> IsTimer(t) && t.deadline <= s.now;
    assert Enabled(s, Decide(id)) <==> t.Holding?;
    assert Enabled(s, PutBack(id)) <==> t.Reinserting?;
    assert Enabled(s, Send(id)) <==> t.Sending?;
  }

  // ---------------------------------------------------------------- what a flush may lose

  /** Owed, but in nobody's hands, not in the map and not about to be returned by a flush. */
  ghost predicate Lost(s: State, p: Path) {
    p in s.owed && p !in s.entries && !HandsHold(s, p) && (s.flush.Some? ==> p !in s.flush.value.copied)
  }

  lemma StaysLost(s: State, debounce: nat, a: Action, p: Path)
    requires Lost(s, p) && Enabled(s, a) && !(a.Push? && a.path == p)
    ensures Lost(Apply(s, debounce, a), p) && !Delivers(s, debounce, a, p)
  {
    var s' := Apply(s, debounce, a);
    forall k | k in s'.tasks ensures !InHands(s'.tasks[k], p) {
      assert k in s.tasks ==> !InHands(s.tasks[k], p);
    }
    if a.Send? {
      assert !InHands(s.tasks[a.id], p);
      assert s'.channel[|s.channel|] != (s.channel + [p])[|s.channel|];
    } else if !a.Clear? {
      assert |s'.channel| != |s.channel + [p]|;
    }
  }

  ghost predicate NeverDelivered(debounce: nat, s: State, actions: seq<Action>, p: Path)
    decreases |actions|
  {
    actions != [] ==>
      && Enabled(s, actions[0]) && !Delivers(s, debounce, actions[0], p)
      && NeverDelivered(debounce, Apply(s, debounce, actions[0]), actions[1..], p)
  }

  /** A lost path is not delivered by anything that happens later, until it is pushed again. */
  lemma {:induction false} LostForGood(debounce: nat, s: State, actions: seq<Action>, s': State, p: Path)
    requires Lost(s, p) && Runs(debounce, s, actions, s')
    requires forall a :: a in actions ==> !(a.Push? && a.path == p)
    ensures Lost(s', p) && NeverDelivered(debounce, s, actions, p)
    decreases |actions|
  {
    if actions != [] {
      StaysLost(s, debounce, actions[0], p);
      LostForGood(debounce, Apply(s, debounce, actions[0]), actions[1..], s', p);
    }
  }

  /** What may happen between the two halves of a flush. */
  predicate DuringFlush(actions: seq<Action>) {
    forall a :: a in actions ==> IsTaskStep(a) || a.Tick?
  }

  /** Some course of the flush that begins now loses the path. */
  ghost predicate FlushLoses(debounce: nat, s: State, p: Path)
    requires s.flush.None?
  {
    exists actions, m :: DuringFlush(actions) && Runs(debounce, Copied(s), actions, m) && m.flush.Some?
        && Lost(Cleared(m), p)
  }

  /** The task will put the entry back: it found newer events, or will find them if it looks now. */
  predicate WillPutBack(t: Task, now: Instant) {
    t.Reinserting? || (t.Holding? && now < t.entry.scheduledFire)
  }

  /** The path is owed and out of the map, and whoever holds its entry will put it back. */
  ghost predicate Exposed(s: State, p: Path) {
    && p in s.owed && p !in s.entries
    && forall id :: id in s.tasks && InHands(s.tasks[id], p) ==> WillPutBack(s.tasks[id], s.now)
  }

  /** During a flush, the path is served, about to be returned, or held by a task that will send it. */
  ghost predicate Safe(s: State, p: Path) {
    || p !in s.owed
    || (s.flush.Some? && p in s.flush.value.copied)
    || exists id :: id in s.tasks && InHands(s.tasks[id], p) && !WillPutBack(s.tasks[id], s.now)
  }

  lemma StaysSafe(s: State, debounce: nat, a: Action, p: Path)
    requires Safe(s, p) && Enabled(s, a) && s.flush.Some? && (IsTaskStep(a) || a.Tick?)
    ensures Safe(Apply(s, debounce, a), p) && Apply(s, debounce, a).flush.Some?
  {
    var s' := Apply(s, debounce, a);
    if p in s'.owed && p !in s.flush.value.copied {
      var id :| id in s.tasks && InHands(s.tasks[id], p) && !WillPutBack(s.tasks[id], s.now);
      assert id in s'.tasks && InHands(s'.tasks[id], p) && !WillPutBack(s'.tasks[id], s'.now);
    }
  }

  lemma {:induction false} RunStaysSafe(debounce: nat, s: State, actions: seq<Action>, s': State, p: Path)
    requires Safe(s, p) && s.flush.Some? && DuringFlush(actions) && Runs(debounce, s, actions, s')
    ensures Safe(s', p)
    decreases |actions|
  {
    if actions != [] {
      hide Safe;
      assert actions[0] in actions;
      StaysSafe(s, debounce, actions[0], p);
      RunStaysSafe(debounce, Apply(s, debounce, actions[0]), actions[1..], s', p);
    }
  }

  /** The tasks that hold the path put it back one after the other. */
  lemma {:induction false} AllPutBack(debounce: nat, s: State, p: Path) returns (actions: seq<Action>, m: State)
    requires Numbered(s) && Tracked(s) && s.flush.Some? && p in s.owed && p !in s.flush.value.copied
    requires forall id :: id in s.tasks && InHands(s.tasks[id], p) ==> WillPutBack(s.tasks[id], s.now)
    requires p in s.flush.value.returned || HandsHold(s, p)
    ensures DuringFlush(actions) && Runs(debounce, s, actions, m) && m.flush.Some? && Lost(Cleared(m), p)
    decreases Work(s.tasks, s.nextTask)
  {
    if id :| id in s.tasks && InHands(s.tasks[id], p) {
      var a := if s.tasks[id].Holding? then Decide(id) else PutBack(id);
      var next := Apply(s, debounce, a);
      StepUsesWork(s, debounce, a);
      assert HandsHold(next, p) || p in next.flush.value.returned by {
        if a.Decide? { assert InHands(next.tasks[id], p); }
      }
      var rest;
      rest, m := AllPutBack(debounce, next, p);
      actions := [a] + rest;
      assert actions[1..] == rest;
    } else {
      actions, m := [], s;
      assert !HandsHold(Cleared(m), p);
    }
  }

  /**
   A flush may lose a path exactly when, at the moment it copies the map, the path is owed and every
   task that holds its entry has found newer events, so that it will be put back uncopied.
   */
  lemma FlushLosesExactly(debounce: nat, s: State, p: Path)
    requires Covered(s) && s.flush.None?
    ensures FlushLoses(debounce, s, p) <==> Exposed(s, p)
  {
    if Exposed(s, p) {
      assert Numbered(s) && HandsHold(s, p);
      HandsKept(s, Copied(s), s.nextTask, p);
      var actions, m := AllPutBack(debounce, Copied(s), p);
    }
    if FlushLoses(debounce, s, p) && !Exposed(s, p) {
      var actions, m :| DuringFlush(actions) && Runs(debounce, Copied(s), actions, m) && m.flush.Some?
          && Lost(Cleared(m), p);
      assert Safe(Copied(s), p);
      RunStaysSafe(debounce, Copied(s), actions, m, p);
      SafeIsNotLost(m, p);
    }
  }

  lemma SafeIsNotLost(s: State, p: Path)
    requires Safe(s, p) && s.flush.Some?
    ensures !Lost(Cleared(s), p)
  {
    if p in Cleared(s).owed {
      var id :| id in s.tasks && InHands(s.tasks[id], p) && !WillPutBack(s.tasks[id], s.now);
      assert InHands(Cleared(s).tasks[id], p);
    }
  }

  lemma {:induction false} RunGoesOn(debounce: nat, s: State, actions: seq<Action>, m: State, a: Action)
    requires Runs(debounce, s, actions, m) && Enabled(m, a)
    ensures Runs(debounce, s, actions + [a], Apply(m, debounce, a))
    decreases |actions|
  {
    if actions == [] {
      assert [a][1..] == [] && actions + [a] == [a];
    } else {
      assert (actions + [a])[1..] == actions[1..] + [a];
      RunGoesOn(debounce, Apply(s, debounce, actions[0]), actions[1..], m, a);
    }
  }

  /** A run from the start with a debounce duration of 1, and where it has got to. */
  lemma Next(actions: seq<Action>, s: State, a: Action) returns (actions': seq<Action>, s': State)
    requires Runs(1, START, actions, s) && Enabled(s, a)
    ensures actions' == actions + [a] && s' == Apply(s, 1, a) && Runs(1, START, actions', s')
  {
    RunGoesOn(1, START, actions, s, a);
    actions', s' := actions + [a], Apply(s, 1, a);
  }

  /** Two pushes; the first timer finds the second push's entry and will put it back. */
  lemma BeforeFlush(p: Path) returns (actions: seq<Action>, s: State)
    ensures Runs(1, START, actions, s)
    ensures s == State(1, map[], map[0 := Reinserting(p, Pending(1, 2))], 1, [], None, map[p := 0])
  {
    actions, s := [], START;
    hide Runs;
    actions, s := Next(actions, s, Push(p, true));
    actions, s := Next(actions, s, Tick(1));
    actions, s := Next(actions, s, Push(p, false));
    assert s.entries == map[p := Pending(1, 2)];
    actions, s := Next(actions, s, Fire(0));
    actions, s := Next(actions, s, Decide(0));
    assert s.tasks == map[0 := Reinserting(p, Pending(1, 2))];
  }

  /** A run from the start in which a flush copies nothing, clears the entry and loses the path. */
  lemma FlushRaceLoses(p: Path) returns (actions: seq<Action>, s: State)
    ensures Runs(1, START, actions, s) && Lost(s, p)
  {
    hide Runs;
    actions, s := BeforeFlush(p);
    actions, s := Next(actions, s, Copy);
    actions, s := Next(actions, s, PutBack(0));
    actions, s := Next(actions, s, Clear);
  }

  // ---------------------------------------------------------------- receiving

  /** The receiving end of the channel. */
  class Receiver {
    var queue: seq<Path>
    const batchSize: nat

    /** `try_recv_batch`: drains up to the batch size, in order, and loses nothing. */
    method TryRecvBatch() returns (batch: seq<Path>)
      modifies this
      ensures batch + queue == old(queue)
      ensures |batch| == if old(|queue|) < batchSize then old(|queue|) else batchSize
    {
      batch := [];
      while |batch| < batchSize
        invariant batch + queue == old(queue) && |batch| <= batchSize
        decreases batchSize - |batch|
      {
        if queue == [] { break; }
        batch, queue := batch + [queue[0]], queue[1..];
      }
    }
  }
}
