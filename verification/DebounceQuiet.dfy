/**
 The debouncer's quiet period: a timer that runs out for the first time sends its path exactly
 when the path has been quiet for the debounce duration, and otherwise waits until it would be.
 */
module DebounceQuiet {
  import opened Objects
  import opened Debounce

  /** When the run last pushed the path. */
  function LastPush(debounce: nat, s: State, actions: seq<Action>, p: Path): Option<Instant>
    decreases |actions|
  {
    if actions == [] || !Enabled(s, actions[0]) then None
    else
      var later := LastPush(debounce, Apply(s, debounce, actions[0]), actions[1..], p);
      if later.None? && actions[0].Push? && actions[0].path == p then Some(s.now) else later
  }

  /** No task puts an entry of the path back: it could replace a newer one. */
  ghost predicate NothingPutBack(debounce: nat, s: State, actions: seq<Action>, p: Path)
    decreases |actions|
  {
    actions != [] && Enabled(s, actions[0]) ==>
      && (actions[0].PutBack? ==> s.tasks[actions[0].id].path != p)
      && NothingPutBack(debounce, Apply(s, debounce, actions[0]), actions[1..], p)
  }

  /** The path's entry, if there is one, is that of the last push, or still the one it started with. */
  lemma {:induction false} EntryIsLastPush(debounce: nat, s: State, actions: seq<Action>, s': State, p: Path)
    requires Runs(debounce, s, actions, s') && NothingPutBack(debounce, s, actions, p) && p in s'.entries
    ensures match LastPush(debounce, s, actions, p)
            case None => p in s.entries && s'.entries[p] == s.entries[p]
            case Some(t) => s'.entries[p] == Pending(t, t + debounce)
    decreases |actions|
  {
    if actions != [] {
      EntryIsLastPush(debounce, Apply(s, debounce, actions[0]), actions[1..], s', p);
    }
  }

  /** A task stays where it is until it makes a step itself. */
  lemma {:induction false} TaskWaits(debounce: nat, s: State, actions: seq<Action>, s': State, id: TaskId)
    requires Runs(debounce, s, actions, s') && Numbered(s) && id in s.tasks
    requires forall a :: a in actions && IsTaskStep(a) ==> a.id != id
    ensures id in s'.tasks && s'.tasks[id] == s.tasks[id] && s.now <= s'.now
    decreases |actions|
  {
    if actions != [] {
      assert actions[0] in actions;
      StepUsesWork(s, debounce, actions[0]);
      TaskWaits(debounce, Apply(s, debounce, actions[0]), actions[1..], s', id);
    }
  }

  lemma {:induction false} StaysNumbered(debounce: nat, s: State, actions: seq<Action>, s': State)
    requires Runs(debounce, s, actions, s') && Numbered(s)
    ensures Numbered(s')
    decreases |actions|
  {
    if actions != [] {
      StepUsesWork(s, debounce, actions[0]);
      StaysNumbered(debounce, Apply(s, debounce, actions[0]), actions[1..], s');
    }
  }

  /**
   A first timer that finds its path's entry takes the last push with it.  Whatever happens before it
   compares the time, it then goes on to send the path exactly when that push lies the whole duration
   back.
   */
  lemma SendsWhenQuiet(debounce: nat, actions: seq<Action>, s: State, id: TaskId, more: seq<Action>, m: State)
    requires Runs(debounce, START, actions, s)
    requires Enabled(s, Fire(id)) && s.tasks[id].FirstTimer? && s.tasks[id].path in s.entries
    requires NothingPutBack(debounce, START, actions, s.tasks[id].path)
    requires Runs(debounce, Apply(s, debounce, Fire(id)), more, m)
    requires forall a :: a in more && IsTaskStep(a) ==> a.id != id
    ensures Enabled(m, Decide(id)) && LastPush(debounce, START, actions, s.tasks[id].path).Some?
    ensures var p := s.tasks[id].path;
            var quietFrom := LastPush(debounce, START, actions, p).value + debounce;
            Apply(m, debounce, Decide(id)).tasks[id] ==
              if quietFrom <= m.now then Sending(p) else Reinserting(p, Pending(quietFrom - debounce, quietFrom))
  {
    var p := s.tasks[id].path;
    StaysNumbered(debounce, START, actions, s);
    EntryIsLastPush(debounce, START, actions, s, p);
    StepUsesWork(s, debounce, Fire(id));
    TaskWaits(debounce, Apply(s, debounce, Fire(id)), more, m, id);
  }

  /** A task that has to wait puts the push back and looks again when the path would have been quiet. */
  lemma WaitsUntilQuiet(debounce: nat, s: State, id: TaskId, more: seq<Action>, m: State)
    requires Numbered(s) && id in s.tasks && s.tasks[id].Reinserting?
    requires Runs(debounce, s, more, m) && forall a :: a in more && IsTaskStep(a) ==> a.id != id
    ensures Enabled(m, PutBack(id))
    ensures var m' := Apply(m, debounce, PutBack(id));
            && s.tasks[id].path in m'.entries && m'.entries[s.tasks[id].path] == s.tasks[id].entry
            && m'.tasks[id] == SecondTimer(s.tasks[id].path, s.tasks[id].entry.scheduledFire)
  {
    TaskWaits(debounce, s, more, m, id);
  }
}
