/**
 The debouncer's timing: with prompt timers no push waits longer than two debounce durations,
 unless a timer or a clearing overtakes the task that holds the entry.
 */
module DebounceTiming {
  import opened Objects
  import opened Debounce

  /** The clock waits for no one: nothing is in a task's hands and no timer is overrun. */
  predicate Prompt(s: State, a: Action) {
    a.Tick? ==> forall id :: id in s.tasks ==> IsTimer(s.tasks[id]) && s.now + a.duration <= s.tasks[id].deadline
  }

  /** A task that will serve a push made at `o` in time, if left alone. */
  predicate Serves(s: State, debounce: nat, t: Task, p: Path, o: Instant) {
    t.path == p &&
    match t
    case Sending(_) => s.now <= o + 2 * debounce
    case Holding(_, e) => s.now <= o + 2 * debounce && e.scheduledFire <= o + 2 * debounce
    case Reinserting(_, e) => s.now <= o + 2 * debounce && e.scheduledFire <= o + 2 * debounce
    case FirstTimer(_, d) => d <= o + debounce
    case SecondTimer(_, d) => d <= o + 2 * debounce
  }

  predicate HoldTask(t: Task, p: Path) {
    Holds(t) && t.path == p
  }

  ghost predicate SomeHold(s: State, p: Path) {
    exists id :: id in s.tasks && HoldTask(s.tasks[id], p)
  }

  /** Task `id` serves the push, and a timer among them finds the entry in the map or on its way back. */
  ghost predicate ServedBy(s: State, debounce: nat, id: TaskId, p: Path, o: Instant) {
    && id in s.tasks && Serves(s, debounce, s.tasks[id], p, o)
    && (IsTimer(s.tasks[id]) ==> p in s.entries || SomeHold(s, p))
  }

  ghost predicate InTime(s: State, debounce: nat) {
    && Numbered(s) && Tracked(s)
    && (forall p :: p in s.entries ==> s.entries[p].scheduledFire <= s.now + debounce)
    && (forall p :: p in s.entries ==> TimerFor(s, p))
    && (forall id :: id in s.tasks && IsTimer(s.tasks[id]) ==> s.now <= s.tasks[id].deadline <= s.now + debounce)
    && (forall id :: id in s.tasks && Holds(s.tasks[id]) ==> s.tasks[id].entry.scheduledFire <= s.now + debounce)
    && (forall id :: id in s.tasks && s.tasks[id].Reinserting? ==> s.now <= s.tasks[id].entry.scheduledFire)
    && (forall p :: p in s.owed ==> s.owed[p] <= s.now && Served(s, debounce, p, s.owed[p]))
  }

  ghost predicate Served(s: State, debounce: nat, p: Path, o: Instant) {
    exists id :: ServedBy(s, debounce, id, p, o)
  }

  /**
   A second-stage timer that finds its path's entry taken, and a clearing that takes an entry put
   back since the copying, must leave some other task that will serve the path in time.
   */
  ghost predicate NoRace(s: State, debounce: nat, a: Action) {
    match a
    case Fire(id) =>
      id in s.tasks && s.tasks[id].SecondTimer? && s.tasks[id].path in s.owed && s.tasks[id].path !in s.entries ==>
        exists k :: k != id && ServedBy(s, debounce, k, s.tasks[id].path, s.owed[s.tasks[id].path])
    case Clear =>
      s.flush.Some? ==>
        forall p :: p in s.flush.value.returned && p !in s.flush.value.copied && p in s.owed ==>
          exists k :: ServedBy(s.(entries := map[]), debounce, k, p, s.owed[p])
    case _ => true
  }

  ghost predicate PromptRuns(debounce: nat, s: State, actions: seq<Action>, s': State)
    decreases |actions|
  {
    if actions == [] then s' == s
    else Enabled(s, actions[0]) && Prompt(s, actions[0]) && NoRace(s, debounce, actions[0])
         && PromptRuns(debounce, Apply(s, debounce, actions[0]), actions[1..], s')
  }

  lemma ServedInTime(s: State, debounce: nat, p: Path)
    requires InTime(s, debounce) && p in s.owed
    ensures s.now <= s.owed[p] + 2 * debounce
  {
    var id :| ServedBy(s, debounce, id, p, s.owed[p]);
  }

  lemma HoldKept(s: State, s': State, id: TaskId, p: Path)
    requires SomeHold(s, p) && OthersKept(s, s', id)
    requires id in s.tasks ==> !HoldTask(s.tasks[id], p) || (id in s'.tasks && HoldTask(s'.tasks[id], p))
    ensures SomeHold(s', p)
  {
    var k :| k in s.tasks && HoldTask(s.tasks[k], p);
    assert k in s'.tasks && HoldTask(s'.tasks[k], p);
  }

  /** A server other than the stepping task goes on serving, as long as its entry can still be found. */
  lemma ServedKept(s: State, s': State, debounce: nat, id: TaskId, p: Path, o: Instant)
    requires Served(s, debounce, p, o) && OthersKept(s, s', id) && s'.now == s.now
    requires id in s.tasks ==> s.tasks[id].path != p
    requires p in s.entries ==> p in s'.entries
    ensures Served(s', debounce, p, o)
  {
    var k :| ServedBy(s, debounce, k, p, o);
    if IsTimer(s.tasks[k]) && p !in s'.entries { HoldKept(s, s', id, p); }
    assert ServedBy(s', debounce, k, p, o);
  }

  lemma PushServes(s: State, debounce: nat, p: Path, missed: bool, q: Path)
    requires InTime(s, debounce) && Enabled(s, Push(p, missed)) && q in Pushed(s, debounce, p, missed).owed
    ensures var s' := Pushed(s, debounce, p, missed); s'.owed[q] <= s'.now && Served(s', debounce, q, s'.owed[q])
  {
    var s' := Pushed(s, debounce, p, missed);
    assert OthersKept(s, s', s.nextTask);
    if q in s.owed {
      ServedKept(s, s', debounce, s.nextTask, q, s.owed[q]);
    } else if q in s.entries {
      var k :| k in s.tasks && TimerTask(s.tasks[k], q);
      assert ServedBy(s', debounce, k, q, s'.owed[q]);
    } else {
      assert ServedBy(s', debounce, s.nextTask, q, s'.owed[q]);
    }
  }

  lemma PushInTime(s: State, debounce: nat, p: Path, missed: bool)
    requires InTime(s, debounce) && Enabled(s, Push(p, missed))
    ensures InTime(Pushed(s, debounce, p, missed), debounce)
  {
    hide Served;
    var s' := Pushed(s, debounce, p, missed);
    assert OthersKept(s, s', s.nextTask);
    forall q | q in s'.entries ensures TimerFor(s', q) {
      if q in s.entries { TimerKept(s, s', s.nextTask, q); } else { assert TimerTask(s'.tasks[s.nextTask], q); }
    }
    forall q | q in s'.owed ensures s'.owed[q] <= s'.now && Served(s', debounce, q, s'.owed[q]) {
      PushServes(s, debounce, p, missed, q);
    }
  }

  lemma FireMissInTime(s: State, debounce: nat, id: TaskId)
    requires InTime(s, debounce) && Enabled(s, Fire(id)) && NoRace(s, debounce, Fire(id))
    requires s.tasks[id].path !in s.entries
    ensures InTime(Fired(s, id), debounce)
  {
    var s', p := Fired(s, id), s.tasks[id].path;
    assert OthersKept(s, s', id);
    forall q | q in s'.entries ensures TimerFor(s', q) { TimerKept(s, s', id, q); }
    forall q | q in s'.owed ensures Served(s', debounce, q, s'.owed[q]) {
      if q != p {
        ServedKept(s, s', debounce, id, q, s.owed[q]);
      } else {
        MissLeavesServer(s, debounce, id);
        var k :| k != id && ServedBy(s, debounce, k, p, s.owed[p]);
        if IsTimer(s.tasks[k]) { HoldKept(s, s', id, p); }
        assert ServedBy(s', debounce, k, p, s.owed[p]);
      }
    }
  }

  /** A first-stage timer that was in time leaves whoever took the entry, and he is in time as well. */
  lemma MissLeavesServer(s: State, debounce: nat, id: TaskId)
    requires InTime(s, debounce) && Enabled(s, Fire(id)) && NoRace(s, debounce, Fire(id))
    requires var p := s.tasks[id].path; p in s.owed && p !in s.entries
    ensures var p := s.tasks[id].path; exists k :: k != id && ServedBy(s, debounce, k, p, s.owed[p])
  {
    var p := s.tasks[id].path;
    ServedInTime(s, debounce, p);
    var k :| ServedBy(s, debounce, k, p, s.owed[p]);
    if k == id && s.tasks[id].FirstTimer? {
      var h :| h in s.tasks && HoldTask(s.tasks[h], p);
      assert ServedBy(s, debounce, h, p, s.owed[p]);
    }
  }

  lemma FireHitServes(s: State, debounce: nat, id: TaskId)
    requires InTime(s, debounce) && Enabled(s, Fire(id)) && s.tasks[id].path in s.entries && s.tasks[id].path in s.owed
    ensures var p := s.tasks[id].path; Served(Fired(s, id), debounce, p, s.owed[p])
  {
    var s', p := Fired(s, id), s.tasks[id].path;
    ServedInTime(s, debounce, p);
    var k :| ServedBy(s, debounce, k, p, s.owed[p]);
    if k == id || s.tasks[id].SecondTimer? {
      assert ServedBy(s', debounce, id, p, s.owed[p]);
    } else {
      assert HoldTask(s'.tasks[id], p);
      assert ServedBy(s', debounce, k, p, s.owed[p]);
    }
  }

  lemma FireHitInTime(s: State, debounce: nat, id: TaskId)
    requires InTime(s, debounce) && Enabled(s, Fire(id)) && s.tasks[id].path in s.entries
    ensures InTime(Fired(s, id), debounce)
  {
    hide Served;
    var s', p := Fired(s, id), s.tasks[id].path;
    assert OthersKept(s, s', id);
    forall q | q in s'.entries ensures TimerFor(s', q) { TimerKept(s, s', id, q); }
    forall q | q in s'.owed ensures Served(s', debounce, q, s'.owed[q]) {
      if q != p { ServedKept(s, s', debounce, id, q, s.owed[q]); } else { FireHitServes(s, debounce, id); }
    }
  }

  lemma DecideServes(s: State, debounce: nat, id: TaskId)
    requires InTime(s, debounce) && Enabled(s, Decide(id)) && s.tasks[id].path in s.owed
    ensures var p := s.tasks[id].path; Served(Decided(s, id), debounce, p, s.owed[p])
  {
    var s', p := Decided(s, id), s.tasks[id].path;
    ServedInTime(s, debounce, p);
    var k :| ServedBy(s, debounce, k, p, s.owed[p]);
    if k == id || s'.tasks[id].Sending? {
      assert ServedBy(s', debounce, id, p, s.owed[p]);
    } else {
      assert HoldTask(s'.tasks[id], p);
      assert ServedBy(s', debounce, k, p, s.owed[p]);
    }
  }

  lemma DecideInTime(s: State, debounce: nat, id: TaskId)
    requires InTime(s, debounce) && Enabled(s, Decide(id))
    ensures InTime(Decided(s, id), debounce)
  {
    hide Served;
    var s', p := Decided(s, id), s.tasks[id].path;
    assert OthersKept(s, s', id);
    forall q | q in s'.entries ensures TimerFor(s', q) { TimerKept(s, s', id, q); }
    forall q | q in s'.owed ensures Served(s', debounce, q, s'.owed[q]) {
      if q != p { ServedKept(s, s', debounce, id, q, s.owed[q]); } else { DecideServes(s, debounce, id); }
    }
  }

  lemma PutBackServes(s: State, debounce: nat, id: TaskId)
    requires InTime(s, debounce) && Enabled(s, PutBack(id)) && s.tasks[id].path in s.owed
    ensures var p := s.tasks[id].path; Served(PutBackAt(s, id), debounce, p, s.owed[p])
  {
    var s', p := PutBackAt(s, id), s.tasks[id].path;
    var k :| ServedBy(s, debounce, k, p, s.owed[p]);
    assert ServedBy(s', debounce, k, p, s.owed[p]);
  }

  lemma PutBackInTime(s: State, debounce: nat, id: TaskId)
    requires InTime(s, debounce) && Enabled(s, PutBack(id))
    ensures InTime(PutBackAt(s, id), debounce)
  {
    hide Served;
    var s', p := PutBackAt(s, id), s.tasks[id].path;
    assert OthersKept(s, s', id);
    forall q | q in s'.entries ensures TimerFor(s', q) {
      if q == p { assert TimerTask(s'.tasks[id], q); } else { TimerKept(s, s', id, q); }
    }
    forall q | q in s'.owed ensures Served(s', debounce, q, s'.owed[q]) {
      if q != p { ServedKept(s, s', debounce, id, q, s.owed[q]); } else { PutBackServes(s, debounce, id); }
    }
  }

  lemma SendInTime(s: State, debounce: nat, id: TaskId)
    requires InTime(s, debounce) && Enabled(s, Send(id))
    ensures InTime(Sent(s, id), debounce)
  {
    var s' := Sent(s, id);
    assert OthersKept(s, s', id);
    forall q | q in s'.entries ensures TimerFor(s', q) { TimerKept(s, s', id, q); }
    forall q | q in s'.owed ensures Served(s', debounce, q, s'.owed[q]) {
      ServedKept(s, s', debounce, id, q, s.owed[q]);
    }
  }

  lemma CopyInTime(s: State, debounce: nat)
    requires InTime(s, debounce) && Enabled(s, Copy)
    ensures InTime(Copied(s), debounce)
  {
    var s' := Copied(s);
    assert OthersKept(s, s', s.nextTask);
    forall q | q in s'.entries ensures TimerFor(s', q) { TimerKept(s, s', s.nextTask, q); }
    forall q | q in s'.owed ensures Served(s', debounce, q, s'.owed[q]) {
      ServedKept(s, s', debounce, s.nextTask, q, s.owed[q]);
    }
  }

  lemma ClearInTime(s: State, debounce: nat)
    requires InTime(s, debounce) && Enabled(s, Clear) && NoRace(s, debounce, Clear)
    ensures InTime(Cleared(s), debounce)
  {
    var s' := Cleared(s);
    assert OthersKept(s, s', s.nextTask);
    forall q | q in s'.owed ensures Served(s', debounce, q, s'.owed[q]) {
      if q in s.entries {
        var k :| ServedBy(s.(entries := map[]), debounce, k, q, s.owed[q]);
        ClearedServer(s, debounce, k, q);
      } else {
        ServedKept(s, s', debounce, s.nextTask, q, s.owed[q]);
      }
    }
  }

  lemma ClearedServer(s: State, debounce: nat, k: TaskId, q: Path)
    requires Enabled(s, Clear) && q in s.owed
    ensures ServedBy(s.(entries := map[]), debounce, k, q, s.owed[q]) <==>
            ServedBy(Cleared(s), debounce, k, q, s.owed[q])
  {
    assert SomeHold(s.(entries := map[]), q) <==> SomeHold(Cleared(s), q) by {
      if h :| h in s.tasks && HoldTask(s.tasks[h], q) { assert h in Cleared(s).tasks; }
    }
  }

  lemma TickServes(s: State, debounce: nat, d: nat, q: Path)
    requires InTime(s, debounce) && Prompt(s, Tick(d)) && q in s.owed
    ensures Served(s.(now := s.now + d), debounce, q, s.owed[q])
  {
    var s' := s.(now := s.now + d);
    var k :| ServedBy(s, debounce, k, q, s.owed[q]);
    assert ServedBy(s', debounce, k, q, s.owed[q]);
  }

  lemma TickInTime(s: State, debounce: nat, d: nat)
    requires InTime(s, debounce) && Prompt(s, Tick(d))
    ensures InTime(s.(now := s.now + d), debounce)
  {
    hide Served;
    var s' := s.(now := s.now + d);
    assert OthersKept(s, s', s.nextTask);
    forall q | q in s'.entries ensures TimerFor(s', q) { TimerKept(s, s', s.nextTask, q); }
    forall q | q in s'.owed ensures Served(s', debounce, q, s'.owed[q]) { TickServes(s, debounce, d, q); }
  }

  lemma StepKeepsInTime(s: State, debounce: nat, a: Action)
    requires InTime(s, debounce) && Enabled(s, a) && Prompt(s, a) && NoRace(s, debounce, a)
    ensures InTime(Apply(s, debounce, a), debounce)
  {
    hide InTime, NoRace;
    match a
    case Push(p, missed) => PushInTime(s, debounce, p, missed);
    case Fire(id) =>
      if s.tasks[id].path in s.entries { FireHitInTime(s, debounce, id); } else { FireMissInTime(s, debounce, id); }
    case Decide(id) => DecideInTime(s, debounce, id);
    case PutBack(id) => PutBackInTime(s, debounce, id);
    case Send(id) => SendInTime(s, debounce, id);
    case Copy => CopyInTime(s, debounce);
    case Clear => ClearInTime(s, debounce);
    case Tick(d) => TickInTime(s, debounce, d);
  }

  lemma {:induction false} PromptRunInTime(debounce: nat, s: State, actions: seq<Action>, s': State)
    requires InTime(s, debounce) && PromptRuns(debounce, s, actions, s')
    ensures InTime(s', debounce)
    decreases |actions|
  {
    if actions != [] {
      hide InTime, NoRace;
      StepKeepsInTime(s, debounce, actions[0]);
      PromptRunInTime(debounce, Apply(s, debounce, actions[0]), actions[1..], s');
    }
  }

  lemma StartIsInTime(debounce: nat)
    ensures InTime(START, debounce)
  {
  }

  /** With prompt timers and no race, no push waits longer than two debounce durations. */
  lemma ServedWithinTwice(debounce: nat, actions: seq<Action>, s: State)
    requires PromptRuns(debounce, START, actions, s)
    ensures forall p :: p in s.owed ==> s.now <= s.owed[p] + 2 * debounce
  {
    StartIsInTime(debounce);
    PromptRunInTime(debounce, START, actions, s);
    forall p | p in s.owed ensures s.now <= s.owed[p] + 2 * debounce { ServedInTime(s, debounce, p); }
  }

  // ---------------------------------------------------------------- a race is always fatal

  ghost predicate RunsPromptly(debounce: nat, s: State, actions: seq<Action>, s': State)
    decreases |actions|
  {
    if actions == [] then s' == s
    else Enabled(s, actions[0]) && Prompt(s, actions[0])
         && RunsPromptly(debounce, Apply(s, debounce, actions[0]), actions[1..], s')
  }

  /** Nobody will serve the push made at `o` before two debounce durations have passed. */
  ghost predicate Starved(s: State, debounce: nat, p: Path, o: Instant) {
    && p in s.owed && s.owed[p] == o
    && (Lost(s.(flush := None), p) || AllLate(s, o + 2 * debounce, p))
  }

  /** Every entry of the path is scheduled later, and so is every timer that would send it unseen. */
  ghost predicate AllLate(s: State, bound: Instant, p: Path) {
    && (p in s.entries ==> s.entries[p].scheduledFire > bound)
    && (forall id :: id in s.tasks && s.tasks[id].path == p ==> IsLate(s.tasks[id], bound))
  }

  predicate IsLate(t: Task, bound: Instant) {
    match t
    case FirstTimer(_, _) => true
    case Holding(_, e) => e.scheduledFire > bound
    case Reinserting(_, e) => e.scheduledFire > bound
    case SecondTimer(_, d) => d > bound
    case Sending(_) => false
  }

  /** Nothing but a new push of the path or a flush helps before the bound. */
  predicate NoHelp(a: Action, p: Path) {
    !(a.Push? && a.path == p) && !a.Copy? && !a.Clear?
  }

  lemma StaysLate(s: State, debounce: nat, a: Action, p: Path, bound: Instant)
    requires AllLate(s, bound, p) && Enabled(s, a) && NoHelp(a, p) && s.now <= bound
    ensures AllLate(Apply(s, debounce, a), bound, p)
    ensures p in s.owed ==> p in Apply(s, debounce, a).owed && Apply(s, debounce, a).owed[p] == s.owed[p]
  {
  }

  lemma LostWithoutFlush(s: State, debounce: nat, a: Action, p: Path)
    requires Lost(s.(flush := None), p) && Enabled(s, a) && NoHelp(a, p)
    ensures Lost(Apply(s, debounce, a).(flush := None), p) && Apply(s, debounce, a).owed[p] == s.owed[p]
  {
    var s' := Apply(s, debounce, a);
    forall k | k in s'.tasks ensures !InHands(s'.tasks[k], p) {
      assert k in s.(flush := None).tasks ==> !InHands(s.tasks[k], p);
    }
    if a.Send? { assert !InHands(s.(flush := None).tasks[a.id], p); }
  }

  lemma StaysStarved(s: State, debounce: nat, a: Action, p: Path, o: Instant)
    requires Starved(s, debounce, p, o) && Enabled(s, a) && NoHelp(a, p) && s.now <= o + 2 * debounce
    ensures Starved(Apply(s, debounce, a), debounce, p, o)
  {
    if Lost(s.(flush := None), p) {
      LostWithoutFlush(s, debounce, a, p);
    } else {
      StaysLate(s, debounce, a, p, o + 2 * debounce);
    }
  }

  /** However the run goes on, the push is still unserved when the bound is reached. */
  lemma {:induction false} StarvedUntilBound(debounce: nat, s: State, actions: seq<Action>, s': State, p: Path,
      o: Instant)
    requires Starved(s, debounce, p, o) && Runs(debounce, s, actions, s') && s'.now <= o + 2 * debounce
    requires forall a :: a in actions ==> NoHelp(a, p)
    ensures Starved(s', debounce, p, o) && s.now <= s'.now
    decreases |actions|
  {
    if actions != [] {
      hide Starved;
      assert actions[0] in actions;
      var next := Apply(s, debounce, actions[0]);
      ClockAdvances(debounce, next, actions[1..], s');
      StaysStarved(s, debounce, actions[0], p, o);
      StarvedUntilBound(debounce, next, actions[1..], s', p, o);
    }
  }

  lemma {:induction false} ClockAdvances(debounce: nat, s: State, actions: seq<Action>, s': State)
    requires Runs(debounce, s, actions, s')
    ensures s.now <= s'.now
    decreases |actions|
  {
    if actions != [] { ClockAdvances(debounce, Apply(s, debounce, actions[0]), actions[1..], s'); }
  }

  /** A task that can make its next step now. */
  function NextStep(s: State, id: TaskId): Action
    requires id in s.tasks
  {
    match s.tasks[id]
    case Holding(_, _) => Decide(id)
    case Reinserting(_, _) => PutBack(id)
    case Sending(_) => Send(id)
    case _ => Fire(id)
  }

  /** And the bound is reached and passed: tasks step while they can, then the clock ticks. */
  lemma {:induction false} BoundIsPassed(debounce: nat, s: State, p: Path, o: Instant)
    returns (actions: seq<Action>, s': State)
    requires Starved(s, debounce, p, o) && Numbered(s)
    ensures RunsPromptly(debounce, s, actions, s')
    ensures p in s'.owed && s'.owed[p] == o && s'.now > o + 2 * debounce
    decreases o + 2 * debounce + 1 - s.now, Work(s.tasks, s.nextTask)
  {
    if s.now > o + 2 * debounce {
      actions, s' := [], s;
    } else {
      var a: Action;
      if id :| id in s.tasks && Enabled(s, NextStep(s, id)) {
        a := NextStep(s, id);
      } else {
        a := Tick(1);
        forall id | id in s.tasks ensures IsTimer(s.tasks[id]) && s.now + 1 <= s.tasks[id].deadline {
          assert !Enabled(s, NextStep(s, id));
        }
      }
      hide Starved;
      StaysStarved(s, debounce, a, p, o);
      StepUsesWork(s, debounce, a);
      var rest;
      rest, s' := BoundIsPassed(debounce, Apply(s, debounce, a), p, o);
      actions := [a] + rest;
      assert actions[1..] == rest;
    }
  }

  /** Unserved and in nobody's map means starved. */
  lemma UnservedIsStarved(s: State, debounce: nat, p: Path)
    requires p in s.owed && p !in s.entries && s.now <= s.owed[p] + 2 * debounce
    requires !Served(s, debounce, p, s.owed[p])
    ensures Starved(s, debounce, p, s.owed[p])
  {
    var bound := s.owed[p] + 2 * debounce;
    forall k | k in s.tasks && s.tasks[k].path == p && !s.tasks[k].SecondTimer? ensures IsLate(s.tasks[k], bound) {
      assert !ServedBy(s, debounce, k, p, s.owed[p]);
    }
    assert forall k :: k in s.tasks && s.tasks[k].path == p ==> !s.tasks[k].Sending?;
    if SomeHold(s, p) {
      forall k | k in s.tasks && s.tasks[k].path == p ensures IsLate(s.tasks[k], bound) {
        assert !ServedBy(s, debounce, k, p, s.owed[p]);
      }
    } else {
      forall k | k in s.tasks ensures !InHands(s.tasks[k], p) {
        assert !HoldTask(s.tasks[k], p);
      }
      assert !HandsHold(s.(flush := None), p);
    }
  }

  lemma MissWithoutServer(s: State, debounce: nat, id: TaskId)
    requires InTime(s, debounce) && Enabled(s, Fire(id)) && !NoRace(s, debounce, Fire(id))
    ensures var s', p := Fired(s, id), s.tasks[id].path;
            p in s'.owed && p !in s'.entries && s'.now <= s'.owed[p] + 2 * debounce
                && !Served(s', debounce, p, s'.owed[p])
  {
    var s', p := Fired(s, id), s.tasks[id].path;
    ServedInTime(s, debounce, p);
    assert OthersKept(s', s, id);
    if k :| ServedBy(s', debounce, k, p, s'.owed[p]) {
      if IsTimer(s'.tasks[k]) { HoldKept(s', s, id, p); }
      assert k != id && ServedBy(s, debounce, k, p, s.owed[p]);
    }
  }

  lemma ClearWithoutServer(s: State, debounce: nat) returns (p: Path)
    requires InTime(s, debounce) && Enabled(s, Clear) && !NoRace(s, debounce, Clear)
    ensures var s' := Cleared(s);
            p in s'.owed && p !in s'.entries && s'.now <= s'.owed[p] + 2 * debounce
                && !Served(s', debounce, p, s'.owed[p])
  {
    p :| p in s.flush.value.returned && p !in s.flush.value.copied && p in s.owed
         && !exists k :: ServedBy(s.(entries := map[]), debounce, k, p, s.owed[p]);
    ServedInTime(s, debounce, p);
    forall k ensures !ServedBy(Cleared(s), debounce, k, p, s.owed[p]) { ClearedServer(s, debounce, k, p); }
  }

  /**
   The condition is exact: while everything is in time, a racing step leaves a path that no course
   of events without a new push of it or a flush serves before the bound, and that some prompt
   course leaves waiting past it.
   */
  lemma RaceIsFatal(debounce: nat, s: State, a: Action) returns (p: Path, actions: seq<Action>, s': State)
    requires InTime(s, debounce) && Enabled(s, a) && !NoRace(s, debounce, a)
    ensures p in s.owed && Starved(Apply(s, debounce, a), debounce, p, s.owed[p])
    ensures RunsPromptly(debounce, Apply(s, debounce, a), actions, s')
    ensures p in s'.owed && s'.owed[p] == s.owed[p] && s'.now > s.owed[p] + 2 * debounce
  {
    var m := Apply(s, debounce, a);
    if a.Fire? {
      MissWithoutServer(s, debounce, a.id);
      p := s.tasks[a.id].path;
    } else {
      p := ClearWithoutServer(s, debounce);
    }
    assert Numbered(s);
    hide InTime, NoRace, Served, Starved;
    UnservedIsStarved(m, debounce, p);
    StepUsesWork(s, debounce, a);
    actions, s' := BoundIsPassed(debounce, m, p, s.owed[p]);
  }

  // ---------------------------------------------------------------- a run with a race

  lemma {:induction false} PromptlyGoesOn(debounce: nat, s: State, actions: seq<Action>, m: State, a: Action)
    requires RunsPromptly(debounce, s, actions, m) && Enabled(m, a) && Prompt(m, a)
    ensures RunsPromptly(debounce, s, actions + [a], Apply(m, debounce, a))
    decreases |actions|
  {
    if actions == [] {
      assert [a][1..] == [] && actions + [a] == [a];
    } else {
      assert (actions + [a])[1..] == actions[1..] + [a];
      PromptlyGoesOn(debounce, Apply(s, debounce, actions[0]), actions[1..], m, a);
    }
  }

  /** A run from the start with a debounce duration of 1, and where it has got to. */
  lemma Then(actions: seq<Action>, s: State, a: Action) returns (actions': seq<Action>, s': State)
    requires RunsPromptly(1, START, actions, s) && Enabled(s, a) && Prompt(s, a)
    ensures s' == Apply(s, 1, a) && RunsPromptly(1, START, actions', s')
  {
    PromptlyGoesOn(1, START, actions, s, a);
    actions', s' := actions + [a], Apply(s, 1, a);
  }

  /** Two pushes, and the first timer finds the second push's entry. */
  lemma RaceBegins(p: Path) returns (actions: seq<Action>, s: State)
    ensures RunsPromptly(1, START, actions, s)
    ensures s == State(1, map[], map[0 := Holding(p, Pending(1, 2))], 1, [], None, map[p := 0])
  {
    actions, s := [], START;
    hide RunsPromptly;
    actions, s := Then(actions, s, Push(p, true));
    actions, s := Then(actions, s, Tick(1));
    actions, s := Then(actions, s, Push(p, false));
    assert s.entries == map[p := Pending(1, 2)];
    actions, s := Then(actions, s, Fire(0));
  }

  /** A push while the entry is held leaves two timers behind that run out together. */
  lemma RaceHolds(p: Path) returns (actions: seq<Action>, s: State)
    ensures RunsPromptly(1, START, actions, s)
    ensures s == State(2, map[p := Pending(1, 2)], map[0 := SecondTimer(p, 2), 1 := FirstTimer(p, 2)], 2, [], None,
              map[p := 0])
  {
    hide RunsPromptly;
    actions, s := RaceBegins(p);
    actions, s := Then(actions, s, Push(p, true));
    actions, s := Then(actions, s, Decide(0));
    actions, s := Then(actions, s, PutBack(0));
    assert s.tasks == map[0 := SecondTimer(p, 2), 1 := FirstTimer(p, 2)];
    actions, s := Then(actions, s, Tick(1));
  }

  /** The second-stage timer runs out while the other task holds the entry, and finds nothing. */
  lemma RaceIsLost(p: Path) returns (actions: seq<Action>, s: State)
    ensures RunsPromptly(1, START, actions, s)
    ensures s == State(2, map[], map[1 := Holding(p, Pending(2, 3))], 2, [], None, map[p := 0])
  {
    hide RunsPromptly;
    actions, s := RaceHolds(p);
    actions, s := Then(actions, s, Push(p, false));
    assert s.entries == map[p := Pending(2, 3)];
    actions, s := Then(actions, s, Fire(1));
    actions, s := Then(actions, s, Fire(0));
    assert s.tasks == map[1 := Holding(p, Pending(2, 3))];
  }

  /** Promptness alone is not enough: with the race a path can wait longer than that. */
  lemma RaceBreaksTheBound(p: Path) returns (actions: seq<Action>, s: State)
    ensures RunsPromptly(1, START, actions, s)
    ensures p in s.owed && s.now > s.owed[p] + 2 * 1
  {
    hide RunsPromptly;
    actions, s := RaceIsLost(p);
    actions, s := Then(actions, s, Decide(1));
    actions, s := Then(actions, s, PutBack(1));
    actions, s := Then(actions, s, Tick(1));
  }
}
