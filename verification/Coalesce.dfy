/**
 The event coalescer: the algebra of event kinds, the pending map, and what the events it
 emits say about the events it was given.
 */
module Coalesce {
  import opened Objects

  type Instant = nat

  datatype ModifyKind = Data | Metadata | Any

  datatype EventKind = Create | Modify(what: ModifyKind) | Delete | Rename | Overflow

  datatype Event = Event(path: Path, kind: EventKind)

  datatype Coalesced = Coalesced(kind: EventKind, firstSeen: Instant, lastUpdated: Instant, count: nat)

  /** `saveTarget` names the file behind the temporary name of an atomic save. */
  datatype Settings = Settings(window: nat, detectAtomicSaves: bool, saveTarget: Path -> Option<Path>)

  function AtomicSaveOf(settings: Settings, p: Path): Option<Path> {
    if settings.detectAtomicSaves then settings.saveTarget(p) else None
  }

  /** `None` when the two events cancel out. */
  function CoalesceKinds(existing: EventKind, next: EventKind): Option<EventKind> {
    match (existing, next)
    case (Create, Create) => Some(Create)
    case (Create, Modify(_)) => Some(Create)
    case (Create, Delete) => None
    case (Modify(_), Modify(what)) => Some(Modify(what))
    case (Modify(_), Delete) => Some(Delete)
    case (Modify(_), Create) => Some(Modify(Data))
    case (Delete, Create) => Some(Modify(Data))
    case (Delete, Modify(_)) => Some(Modify(Data))
    case (Delete, Delete) => Some(Delete)
    case (Rename, _) => Some(next)
    case (_, Rename) => Some(Rename)
    case (Overflow, _) => Some(Overflow)
    case (_, Overflow) => Some(Overflow)
  }

  /** The pending kind of a path after its events, when nothing is collected in between. */
  function Net(kinds: seq<EventKind>): Option<EventKind> {
    if kinds == [] then None
    else
      var last := kinds[|kinds| - 1];
      match Net(kinds[..|kinds| - 1])
      case None => Some(last)
      case Some(existing) => CoalesceKinds(existing, last)
  }

  lemma NetSnoc(kinds: seq<EventKind>, kind: EventKind)
    ensures Net(kinds + [kind]) ==
            match Net(kinds) case None => Some(kind) case Some(existing) => CoalesceKinds(existing, kind)
  {
    assert (kinds + [kind])[..|kinds|] == kinds;
  }

  // ---------------------------------------------------------------- events against the file's existence

  /** Creations happen to absent files, modifications and deletions to present ones. */
  predicate Consistent(present: bool, kinds: seq<EventKind>)
    decreases |kinds|
  {
    kinds == [] ||
    match kinds[0]
    case Create => !present && Consistent(true, kinds[1..])
    case Modify(_) => present && Consistent(true, kinds[1..])
    case Delete => present && Consistent(false, kinds[1..])
    case _ => false
  }

  function AfterOne(present: bool, kind: EventKind): bool {
    kind != Delete && (kind == Create || present)
  }

  /** Whether the file exists after the events. */
  function After(present: bool, kinds: seq<EventKind>): bool
    decreases |kinds|
  {
    if kinds == [] then present else After(AfterOne(present, kinds[0]), kinds[1..])
  }

  lemma {:induction false} ConsistentJoin(present: bool, a: seq<EventKind>, b: seq<EventKind>)
    ensures After(present, a + b) == After(After(present, a), b)
    ensures Consistent(present, a + b) <==> Consistent(present, a) && Consistent(After(present, a), b)
    decreases |a|
  {
    if a == [] {
      assert a + b == b;
    } else {
      assert (a + b)[1..] == a[1..] + b;
      ConsistentJoin(AfterOne(present, a[0]), a[1..], b);
    }
  }

  function Kinds(kind: Option<EventKind>): seq<EventKind> {
    if kind.Some? then [kind.value] else []
  }

  /**
   The pending entry is decided by whether the file existed before and exists now; of a file
   present at both ends it keeps the last modification's kind.
   */
  lemma {:induction false} NetEffect(before: bool, kinds: seq<EventKind>)
    requires Consistent(before, kinds)
    ensures var after := After(before, kinds);
            Net(kinds) ==
              if kinds == [] || (!before && !after) then None
              else if !before then Some(Create)
              else if !after then Some(Delete)
              else var last := kinds[|kinds| - 1];
                   Some(Modify(if last.Modify? then last.what else Data))
    decreases |kinds|
  {
    if kinds != [] {
      var n := |kinds| - 1;
      assert kinds == kinds[..n] + [kinds[n]];
      ConsistentJoin(before, kinds[..n], [kinds[n]]);
      NetEffect(before, kinds[..n]);
    }
  }

  /** So the one pending event says, to whoever knew the state before, what the whole history says. */
  lemma NetKeepsMeaning(before: bool, kinds: seq<EventKind>)
    requires Consistent(before, kinds)
    ensures Consistent(before, Kinds(Net(kinds))) && After(before, Kinds(Net(kinds))) == After(before, kinds)
  {
    NetEffect(before, kinds);
    if kinds != [] {
      var n := |kinds| - 1;
      assert kinds == kinds[..n] + [kinds[n]];
      ConsistentJoin(before, kinds[..n], [kinds[n]]);
    }
  }

  /** An overflow is at some point and no rename comes after it. */
  ghost predicate UnrenamedOverflow(kinds: seq<EventKind>) {
    exists i :: 0 <= i < |kinds| && kinds[i] == Overflow && Rename !in kinds[i..]
  }

  /** Overflows do not always propagate: one is pending exactly when no rename came after it. */
  lemma {:induction false} OverflowSurvivesExactly(kinds: seq<EventKind>)
    ensures Net(kinds) == Some(Overflow) <==> UnrenamedOverflow(kinds)
    ensures Net(kinds) == Some(Rename) <==> kinds != [] && kinds[|kinds| - 1] == Rename
    decreases |kinds|
  {
    if kinds != [] {
      var n := |kinds| - 1;
      OverflowSurvivesExactly(kinds[..n]);
      if UnrenamedOverflow(kinds) {
        var i :| 0 <= i < |kinds| && kinds[i] == Overflow && Rename !in kinds[i..];
        assert kinds[n] == kinds[i..][n - i];
        if i < n {
          assert kinds[..n][i] == Overflow && kinds[..n][i..] == kinds[i..][..n - i];
        }
      }
      if UnrenamedOverflow(kinds[..n]) && kinds[n] != Rename {
        var i :| 0 <= i < n && kinds[..n][i] == Overflow && Rename !in kinds[..n][i..];
        assert kinds[i] == Overflow && kinds[i..] == kinds[..n][i..] + [kinds[n]];
      }
      if kinds[n] == Overflow { assert kinds[n..] == [Overflow]; }
    }
  }

  /** A rename hides an overflow, and can even let everything cancel out afterwards. */
  lemma OverflowIsLost()
    ensures Net([Overflow, Rename]) == Some(Rename) && Net([Overflow, Rename, Create, Delete]) == None
  {
    NetSnoc([], Overflow);
    NetSnoc([Overflow], Rename);
    NetSnoc([Overflow, Rename], Create);
    NetSnoc([Overflow, Rename, Create], Delete);
    assert [] + [Overflow] == [Overflow] && [Overflow] + [Rename] == [Overflow, Rename];
    assert [Overflow, Rename] + [Create] == [Overflow, Rename, Create];
    assert [Overflow, Rename, Create] + [Delete] == [Overflow, Rename, Create, Delete];
  }

  /** What is pending of events that are not renames or overflows, up to the first cancellation, in any order. */
  lemma {:induction false} NetUpToCancelling(kinds: seq<EventKind>)
    requires kinds != [] && Rename !in kinds && Overflow !in kinds
    requires forall n :: 0 < n < |kinds| ==> Net(kinds[..n]).Some?
    ensures var n := |kinds| - 1;
            Net(kinds) ==
              if kinds[0] == Create then (if kinds[n] == Delete then None else Some(Create))
              else if kinds[n] == Delete then Some(Delete)
              else Some(Modify(if kinds[n].Modify? && (n == 0 || kinds[n - 1] != Delete) then kinds[n].what else Data))
    decreases |kinds|
  {
    var n := |kinds| - 1;
    assert kinds == kinds[..n] + [kinds[n]];
    NetSnoc(kinds[..n], kinds[n]);
    if n == 0 {
      assert kinds[..n] == [];
    } else {
      forall k | 0 < k < n ensures Net(kinds[..n][..k]).Some? { assert kinds[..n][..k] == kinds[..k]; }
      NetUpToCancelling(kinds[..n]);
    }
  }

  /** After a rename what came before it plays no part. */
  lemma {:induction false} RenameForgets(before: seq<EventKind>, after: seq<EventKind>)
    ensures Net(before + [Rename] + after) == if after == [] then Some(Rename) else Net(after)
    decreases |after|
  {
    NetSnoc(before, Rename);
    if after == [] {
      assert before + [Rename] + after == before + [Rename];
    } else {
      var n := |after| - 1;
      RenameForgets(before, after[..n]);
      assert after == after[..n] + [after[n]];
      assert before + [Rename] + after == before + [Rename] + after[..n] + [after[n]];
      NetSnoc(before + [Rename] + after[..n], after[n]);
      NetSnoc(after[..n], after[n]);
    }
  }

  // ---------------------------------------------------------------- the pending map

  type PendingMap = map<Path, Coalesced>

  function Elapsed(c: Coalesced, now: Instant): nat {
    if now >= c.lastUpdated then now - c.lastUpdated else 0
  }

  predicate IsReady(settings: Settings, c: Coalesced, now: Instant) {
    Elapsed(c, now) >= settings.window
  }

  function Merged(m: PendingMap, e: Event, now: Instant): PendingMap {
    if e.path !in m then m[e.path := Coalesced(e.kind, now, now, 1)]
    else
      match CoalesceKinds(m[e.path].kind, e.kind)
      case None => m - {e.path}
      case Some(kind) => m[e.path := m[e.path].(kind := kind, lastUpdated := now, count := m[e.path].count + 1)]
  }

  function KindsOf(events: seq<Event>, p: Path): seq<EventKind> {
    if events == [] then []
    else (if events[0].path == p then [events[0].kind] else []) + KindsOf(events[1..], p)
  }

  lemma {:induction false} KindsOfJoin(a: seq<Event>, b: seq<Event>, p: Path)
    ensures KindsOf(a + b, p) == KindsOf(a, p) + KindsOf(b, p)
    decreases |a|
  {
    if a == [] {
      assert a + b == b;
    } else {
      assert (a + b)[1..] == a[1..] + b;
      KindsOfJoin(a[1..], b, p);
      var first := if a[0].path == p then [a[0].kind] else [];
      assert KindsOf(a + b, p) == first + (KindsOf(a[1..], p) + KindsOf(b, p));
    }
  }

  /** Every entry of the map is emitted once, and nothing else is. */
  ghost predicate EmitsOnce(out: seq<Event>, m: PendingMap) {
    forall p :: KindsOf(out, p) == if p in m then [m[p].kind] else []
  }

  datatype Operation = Push(event: Event, now: Instant) | CollectReady(now: Instant) | Flush

  function ReadyPart(settings: Settings, m: PendingMap, now: Instant): PendingMap {
    map p | p in m && IsReady(settings, m[p], now) :: m[p]
  }

  /** What an operation may emit and leave pending. */
  ghost predicate Step(settings: Settings, m: PendingMap, op: Operation, out: seq<Event>, m': PendingMap) {
    match op
    case Push(e, now) => (
      match AtomicSaveOf(settings, e.path)
      case Some(target) => out == [Event(target, Modify(Data))] && m' == m
      case None => out == [] && m' == Merged(m, e, now))
    case CollectReady(now) =>
      var ready := ReadyPart(settings, m, now);
      EmitsOnce(out, ready) && m' == m - ready.Keys
    case Flush => EmitsOnce(out, m) && m' == map[]
  }

  function Elements(paths: seq<Path>): set<Path> {
    set p | p in paths
  }

  class Coalescer {
    const settings: Settings
    var pending: PendingMap

    constructor (settings: Settings)
      ensures this.settings == settings && pending == map[]
    {
      this.settings := settings;
      pending := map[];
    }

    method Push(event: Event, now: Instant) returns (out: Option<Event>)
      modifies this
      ensures Step(settings, old(pending), Operation.Push(event, now), if out.Some? then [out.value] else [], pending)
    {
      if settings.detectAtomicSaves {
        var target := settings.saveTarget(event.path);
        if target.Some? {
          return Some(Event(target.value, Modify(Data)));
        }
      }
      if event.path in pending {
        var existing := pending[event.path];
        var kind := CoalesceKinds(existing.kind, event.kind);
        if kind.Some? {
          pending := pending[event.path := Coalesced(kind.value, existing.firstSeen, now, existing.count + 1)];
        } else {
          pending := pending - {event.path};
        }
      } else {
        pending := pending[event.path := Coalesced(event.kind, now, now, 1)];
      }
      out := None;
    }

    method CollectReady(now: Instant) returns (ready: seq<Event>)
      modifies this
      ensures Step(settings, old(pending), Operation.CollectReady(now), ready, pending)
    {
      ready := [];
      var toRemove := [];
      var todo := pending;
      assert pending - todo.Keys == map[];
      assert Collecting(settings, pending, todo, now, ready, toRemove);
      hide Collecting, EmitsOnce, ReadyPart, Elements;
      while todo != map[]
        invariant pending == old(pending) && Collecting(settings, pending, todo, now, ready, toRemove)
        decreases |todo|
      {
        var p :| p in todo;
        CollectOneMore(settings, pending, todo, now, p, ready, toRemove);
        if IsReady(settings, todo[p], now) {
          ready := ready + [Event(p, todo[p].kind)];
          toRemove := toRemove + [p];
        }
        todo := todo - {p};
      }
      AllCollected(settings, pending, now, ready, toRemove);
      for i := 0 to |toRemove|
        invariant pending == old(pending) - Elements(toRemove[..i])
      {
        RemoveOneMore(old(pending), toRemove, i);
        pending := pending - {toRemove[i]};
      }
      assert toRemove[..|toRemove|] == toRemove;
    }

    method Flush() returns (events: seq<Event>)
      modifies this
      ensures Step(settings, old(pending), Operation.Flush, events, pending)
      ensures pending == map[]
      ensures forall p :: KindsOf(events, p) == if p in old(pending) then [old(pending)[p].kind] else []
    {
      events := [];
      var todo := pending;
      assert Flushing(pending, todo, events);
      hide Flushing;
      while todo != map[]
        invariant pending == old(pending) && Flushing(pending, todo, events)
        decreases |todo|
      {
        var p :| p in todo;
        FlushOneMore(pending, todo, p, events);
        events := events + [Event(p, todo[p].kind)];
        todo := todo - {p};
      }
      AllFlushed(pending, events);
      pending := map[];
    }
  }

  /** The loop of `flush`, with `todo` still to emit. */
  ghost predicate Flushing(m: PendingMap, todo: PendingMap, out: seq<Event>) {
    && (forall p :: p in todo ==> p in m && todo[p] == m[p])
    && EmitsOnce(out, m - todo.Keys)
  }

  lemma FlushOneMore(m: PendingMap, todo: PendingMap, p: Path, out: seq<Event>)
    requires p in todo && Flushing(m, todo, out)
    ensures Flushing(m, todo - {p}, out + [Event(p, todo[p].kind)])
  {
    EmitOneMore(out, m - todo.Keys, p, m[p]);
    assert m - (todo - {p}).Keys == (m - todo.Keys)[p := m[p]];
  }

  lemma AllFlushed(m: PendingMap, out: seq<Event>)
    requires Flushing(m, map[], out)
    ensures EmitsOnce(out, m)
  {
    var none: PendingMap := map[];
    assert m - none.Keys == m;
  }

  /** The first loop of `collect_ready`, with `todo` still to look at. */
  ghost predicate Collecting(settings: Settings, m: PendingMap, todo: PendingMap, now: Instant, ready: seq<Event>,
                             toRemove: seq<Path>) {
    && (forall p :: p in todo ==> p in m && todo[p] == m[p])
    && EmitsOnce(ready, ReadyPart(settings, m - todo.Keys, now))
    && Elements(toRemove) == ReadyPart(settings, m - todo.Keys, now).Keys
  }

  lemma CollectOneMore(settings: Settings, m: PendingMap, todo: PendingMap, now: Instant, p: Path, ready: seq<Event>,
                       toRemove: seq<Path>)
    requires p in todo && Collecting(settings, m, todo, now, ready, toRemove)
    ensures if IsReady(settings, todo[p], now)
            then Collecting(settings, m, todo - {p}, now, ready + [Event(p, todo[p].kind)], toRemove + [p])
            else Collecting(settings, m, todo - {p}, now, ready, toRemove)
  {
    hide EmitsOnce;
    var seen, more := ReadyPart(settings, m - todo.Keys, now), ReadyPart(settings, m - (todo - {p}).Keys, now);
    if IsReady(settings, m[p], now) {
      assert more == seen[p := m[p]];
      EmitOneMore(ready, seen, p, m[p]);
      assert Elements(toRemove + [p]) == Elements(toRemove) + {p};
    } else {
      assert more == seen;
    }
  }

  lemma AllCollected(settings: Settings, m: PendingMap, now: Instant, ready: seq<Event>, toRemove: seq<Path>)
    requires Collecting(settings, m, map[], now, ready, toRemove)
    ensures EmitsOnce(ready, ReadyPart(settings, m, now)) && Elements(toRemove) == ReadyPart(settings, m, now).Keys
    ensures m - Elements(toRemove[..0]) == m
  {
    var none: PendingMap := map[];
    assert m - none.Keys == m;
  }

  lemma RemoveOneMore(m: PendingMap, toRemove: seq<Path>, i: nat)
    requires i < |toRemove|
    ensures m - Elements(toRemove[..i + 1]) == m - Elements(toRemove[..i]) - {toRemove[i]}
  {
    assert Elements(toRemove[..i + 1]) == Elements(toRemove[..i]) + {toRemove[i]};
  }

  lemma EmitOneMore(out: seq<Event>, m: PendingMap, p: Path, c: Coalesced)
    requires EmitsOnce(out, m) && p !in m
    ensures EmitsOnce(out + [Event(p, c.kind)], m[p := c])
  {
    forall q ensures KindsOf(out + [Event(p, c.kind)], q) == if q in m[p := c] then [m[p := c][q].kind] else [] {
      KindsOfJoin(out, [Event(p, c.kind)], q);
      assert KindsOf(out, q) == if q in m then [m[q].kind] else [];
    }
  }

  // ---------------------------------------------------------------- whole runs

  ghost predicate Runs(settings: Settings, m: PendingMap, ops: seq<Operation>, outs: seq<seq<Event>>, m': PendingMap)
    decreases |ops|
  {
    if ops == [] then outs == [] && m' == m
    else
      outs != [] &&
      exists mid :: Step(settings, m, ops[0], outs[0], mid) && Runs(settings, mid, ops[1..], outs[1..], m')
  }

  /** What the operations told the coalescer about a path. */
  function Told(ops: seq<Operation>, p: Path): seq<EventKind> {
    if ops == [] then []
    else (if ops[0].Push? && ops[0].event.path == p then [ops[0].event.kind] else []) + Told(ops[1..], p)
  }

  /** What it emitted about the path. */
  function Emitted(outs: seq<seq<Event>>, p: Path): seq<EventKind> {
    if outs == [] then [] else KindsOf(outs[0], p) + Emitted(outs[1..], p)
  }

  function PendingKind(m: PendingMap, p: Path): Option<EventKind> {
    if p in m then Some(m[p].kind) else None
  }

  ghost predicate NoAtomicSaves(settings: Settings, ops: seq<Operation>) {
    forall op :: op in ops && op.Push? ==> AtomicSaveOf(settings, op.event.path) == None
  }

  function Flatten(segments: seq<seq<EventKind>>): seq<EventKind> {
    if segments == [] then [] else segments[0] + Flatten(segments[1..])
  }

  function Nets(segments: seq<seq<EventKind>>): seq<EventKind> {
    if segments == [] then [] else Kinds(Net(segments[0])) + Nets(segments[1..])
  }

  /** One operation, seen from one path whose pending entry is the net of `before`. */
  lemma StepSeenFrom(settings: Settings, m: PendingMap, op: Operation, out: seq<Event>, m': PendingMap, p: Path,
                     before: seq<EventKind>)
    returns (closed: bool)
    requires Step(settings, m, op, out, m') && NoAtomicSaves(settings, [op]) && PendingKind(m, p) == Net(before)
    ensures KindsOf(out, p) == if closed then Kinds(Net(before)) else []
    ensures closed ==> Told([op], p) == [] && Net(before).Some?
    ensures PendingKind(m', p) == Net(if closed then [] else before + Told([op], p))
  {
    closed := p in m && (op.Flush? || (op.CollectReady? && IsReady(settings, m[p], op.now)));
    assert op in [op];
    if op.Push? {
      NetSnoc(before, op.event.kind);
      if op.event.path != p { assert before + [] == before; }
    } else {
      assert before + [] == before;
    }
  }

  /** The closed segments and the open one make up what was told; the closed ones' nets are what was emitted. */
  ghost predicate Accounts(told: seq<EventKind>, emitted: seq<EventKind>, segments: seq<seq<EventKind>>,
                           open: seq<EventKind>) {
    Flatten(segments) + open == told && emitted == Nets(segments) && |emitted| == |segments|
  }

  lemma AccountsFirst(first: seq<EventKind>, told: seq<EventKind>, emitted: seq<EventKind>,
                      segments: seq<seq<EventKind>>, open: seq<EventKind>)
    requires Accounts(told, emitted, segments, open) && Net(first).Some?
    ensures Accounts(first + told, Kinds(Net(first)) + emitted, [first] + segments, open)
  {
    assert ([first] + segments)[1..] == segments;
    assert first + Flatten(segments) + open == first + (Flatten(segments) + open);
  }

  lemma ToldFirst(ops: seq<Operation>, p: Path, before: seq<EventKind>)
    requires ops != []
    ensures before + Told([ops[0]], p) + Told(ops[1..], p) == before + Told(ops, p)
  {
    var told, rest := Told([ops[0]], p), Told(ops[1..], p);
    assert [ops[0]][1..] == [] && told + [] == told;
    assert told == (if ops[0].Push? && ops[0].event.path == p then [ops[0].event.kind] else []);
    assert before + told + rest == before + (told + rest);
  }

  /**
   Every event told is accounted for exactly once.  The events of a path split into consecutive
   segments: what is emitted are the nets of the closed ones, what is pending is the net of the
   open one.  Other paths' events play no part.
   */
  lemma {:induction false} EmittedAreNets(settings: Settings, m: PendingMap, ops: seq<Operation>, outs: seq<seq<Event>>,
                                          m': PendingMap, p: Path, before: seq<EventKind>)
    returns (segments: seq<seq<EventKind>>, open: seq<EventKind>)
    requires Runs(settings, m, ops, outs, m') && NoAtomicSaves(settings, ops) && PendingKind(m, p) == Net(before)
    ensures Accounts(before + Told(ops, p), Emitted(outs, p), segments, open)
    ensures PendingKind(m', p) == Net(open)
    decreases |ops|
  {
    if ops == [] {
      segments, open := [], before;
      assert before + [] == before && [] + before == before;
    } else {
      var mid :| Step(settings, m, ops[0], outs[0], mid) && Runs(settings, mid, ops[1..], outs[1..], m');
      var closed := StepSeenFrom(settings, m, ops[0], outs[0], mid, p, before);
      ToldFirst(ops, p, before);
      hide Accounts, Step, Net, Runs, PendingKind;
      if closed {
        segments, open := EmittedAreNets(settings, mid, ops[1..], outs[1..], m', p, []);
        assert [] + Told(ops[1..], p) == Told(ops[1..], p) && before + [] == before;
        AccountsFirst(before, Told(ops[1..], p), Emitted(outs[1..], p), segments, open);
        segments := [before] + segments;
      } else {
        segments, open := EmittedAreNets(settings, mid, ops[1..], outs[1..], m', p, before + Told([ops[0]], p));
        assert [] + Emitted(outs[1..], p) == Emitted(outs[1..], p);
      }
    }
  }

  lemma {:induction false} NetsKeepMeaning(present: bool, segments: seq<seq<EventKind>>, open: seq<EventKind>)
    requires Consistent(present, Flatten(segments) + open)
    ensures Consistent(present, Nets(segments) + Kinds(Net(open)))
    ensures After(present, Nets(segments) + Kinds(Net(open))) == After(present, Flatten(segments) + open)
    decreases |segments|
  {
    if segments == [] {
      assert Flatten(segments) + open == open && Nets(segments) + Kinds(Net(open)) == Kinds(Net(open));
      NetKeepsMeaning(present, open);
    } else {
      var first, rest := segments[0], Flatten(segments[1..]) + open;
      assert Flatten(segments) + open == first + rest;
      ConsistentJoin(present, first, rest);
      NetKeepsMeaning(present, first);
      NetsKeepMeaning(After(present, first), segments[1..], open);
      var one, more := Kinds(Net(first)), Nets(segments[1..]) + Kinds(Net(open));
      assert Nets(segments) + Kinds(Net(open)) == one + more;
      ConsistentJoin(present, one, more);
    }
  }

  /**
   However pushes, collections and flushes interleave: if the events of a path were consistent
   with the file's existence, so are the emitted ones followed by the pending one, and they end
   with the same existence.
   */
  lemma EmissionKeepsMeaning(settings: Settings, ops: seq<Operation>, outs: seq<seq<Event>>, m: PendingMap, p: Path,
                             before: bool)
    requires Runs(settings, map[], ops, outs, m) && NoAtomicSaves(settings, ops)
    requires Consistent(before, Told(ops, p))
    ensures Consistent(before, Emitted(outs, p) + Kinds(PendingKind(m, p)))
    ensures After(before, Emitted(outs, p) + Kinds(PendingKind(m, p))) == After(before, Told(ops, p))
  {
    var segments, open := EmittedAreNets(settings, map[], ops, outs, m, p, []);
    assert [] + Told(ops, p) == Told(ops, p);
    NetsKeepMeaning(before, segments, open);
  }

  /** With nothing collected in between, the pending entry is the net of the path's own events. */
  lemma PendingIsNet(settings: Settings, ops: seq<Operation>, outs: seq<seq<Event>>, m: PendingMap, p: Path)
    requires Runs(settings, map[], ops, outs, m) && NoAtomicSaves(settings, ops)
    requires forall op :: op in ops ==> op.Push?
    ensures PendingKind(m, p) == Net(Told(ops, p))
  {
    var segments, open := EmittedAreNets(settings, map[], ops, outs, m, p, []);
    PushesEmitNothing(settings, map[], ops, outs, m, p);
    assert segments == [];
    assert Flatten(segments) + open == open && [] + Told(ops, p) == Told(ops, p);
  }

  lemma {:induction false} PushesEmitNothing(settings: Settings, m: PendingMap, ops: seq<Operation>,
      outs: seq<seq<Event>>,
                                             m': PendingMap, p: Path)
    requires Runs(settings, m, ops, outs, m') && NoAtomicSaves(settings, ops)
    requires forall op :: op in ops ==> op.Push?
    ensures Emitted(outs, p) == []
    decreases |ops|
  {
    if ops != [] {
      var mid :| Step(settings, m, ops[0], outs[0], mid) && Runs(settings, mid, ops[1..], outs[1..], m');
      assert ops[0] in ops;
      PushesEmitNothing(settings, mid, ops[1..], outs[1..], m', p);
    }
  }

  // ---------------------------------------------------------------- when a path is emitted

  /** When the path was last pushed. */
  function LastPush(ops: seq<Operation>, p: Path): Option<Instant> {
    if ops == [] then None
    else
      var later := LastPush(ops[1..], p);
      if later.None? && ops[0].Push? && ops[0].event.path == p then Some(ops[0].now) else later
  }

  lemma {:induction false} UpdatedAtLastPush(settings: Settings, m: PendingMap, ops: seq<Operation>,
      outs: seq<seq<Event>>, m': PendingMap, p: Path)
    requires Runs(settings, m, ops, outs, m')
    requires p in m ==> AtomicSaveOf(settings, p) == None
    ensures p in m' ==> AtomicSaveOf(settings, p) == None
    ensures p in m' ==> match LastPush(ops, p)
                        case None => p in m && m'[p] == m[p]
                        case Some(t) => m'[p].lastUpdated == t
    decreases |ops|
  {
    if ops != [] {
      var mid :| Step(settings, m, ops[0], outs[0], mid) && Runs(settings, mid, ops[1..], outs[1..], m');
      UpdatedAtLastPush(settings, mid, ops[1..], outs[1..], m', p);
    }
  }

  /** A pending path is emitted exactly when its last push lies the whole window back. */
  lemma EmittedWhenIdle(settings: Settings, ops: seq<Operation>, outs: seq<seq<Event>>, m: PendingMap,
                        now: Instant, out: seq<Event>, m': PendingMap, p: Path)
    requires Runs(settings, map[], ops, outs, m) && Step(settings, m, Operation.CollectReady(now), out, m')
    requires p in m
    ensures LastPush(ops, p).Some?
    ensures var idle := settings.window == 0 || LastPush(ops, p).value + settings.window <= now;
            && KindsOf(out, p) == (if idle then [m[p].kind] else [])
            && (p in m' <==> !idle)
  {
    UpdatedAtLastPush(settings, map[], ops, outs, m, p);
  }

  /** Where the pending entry of a path began: with the push at `start`, before which nothing was pending. */
  ghost predicate BeganAt(settings: Settings, m: PendingMap, ops: seq<Operation>, outs: seq<seq<Event>>, p: Path,
                          c: Coalesced, start: nat) {
    && start < |ops| && start <= |outs| && ops[start].Push? && ops[start].event.path == p
    && (exists mid :: Runs(settings, m, ops[..start], outs[..start], mid) && p !in mid)
    && c.firstSeen == ops[start].now && c.count == |Told(ops[start..], p)|
  }

  /** Or it was pending all along. */
  ghost predicate WentOn(m: PendingMap, ops: seq<Operation>, p: Path, c: Coalesced) {
    p in m && c.firstSeen == m[p].firstSeen && c.count == m[p].count + |Told(ops, p)|
  }

  lemma BeganLater(settings: Settings, m: PendingMap, ops: seq<Operation>, outs: seq<seq<Event>>, p: Path,
                   c: Coalesced, start: nat, mid: PendingMap)
    requires ops != [] && outs != [] && Step(settings, m, ops[0], outs[0], mid)
    requires BeganAt(settings, mid, ops[1..], outs[1..], p, c, start)
    ensures BeganAt(settings, m, ops, outs, p, c, start + 1)
  {
    hide Step;
    var before :| Runs(settings, mid, ops[1..][..start], outs[1..][..start], before) && p !in before;
    assert ops[..start + 1][1..] == ops[1..][..start] && outs[..start + 1][1..] == outs[1..][..start];
    assert Runs(settings, m, ops[..start + 1], outs[..start + 1], before);
    assert ops[1..][start..] == ops[start + 1..];
  }

  lemma {:induction false} EntryHistoryFrom(settings: Settings, m: PendingMap, ops: seq<Operation>,
      outs: seq<seq<Event>>, m': PendingMap, p: Path)
    requires Runs(settings, m, ops, outs, m') && p in m' && AtomicSaveOf(settings, p) == None
    ensures WentOn(m, ops, p, m'[p]) || exists start: nat :: BeganAt(settings, m, ops, outs, p, m'[p], start)
    decreases |ops|
  {
    if ops != [] {
      var mid :| Step(settings, m, ops[0], outs[0], mid) && Runs(settings, mid, ops[1..], outs[1..], m');
      EntryHistoryFrom(settings, mid, ops[1..], outs[1..], m', p);
      if start: nat :| BeganAt(settings, mid, ops[1..], outs[1..], p, m'[p], start) {
        hide *;
        BeganLater(settings, m, ops, outs, p, m'[p], start, mid);
      } else if p !in m {
        assert ops[0..] == ops && Runs(settings, m, ops[..0], outs[..0], m);
        assert BeganAt(settings, m, ops, outs, p, m'[p], 0);
      } else {
        assert WentOn(mid, ops[1..], p, m'[p]);
      }
    }
  }

  /** A pending entry remembers when it began and counts the pushes of its path since. */
  lemma EntryHistory(settings: Settings, ops: seq<Operation>, outs: seq<seq<Event>>, m: PendingMap, p: Path)
    requires Runs(settings, map[], ops, outs, m) && p in m
    ensures exists start: nat :: BeganAt(settings, map[], ops, outs, p, m[p], start)
  {
    UpdatedAtLastPush(settings, map[], ops, outs, m, p);
    EntryHistoryFrom(settings, map[], ops, outs, m, p);
  }

  /** A push answers at once exactly when it is part of an atomic save, with a modification of the target. */
  lemma {:induction false} PushAnswers(settings: Settings, m: PendingMap, ops: seq<Operation>, outs: seq<seq<Event>>,
                                       m': PendingMap, i: nat)
    requires Runs(settings, m, ops, outs, m') && i < |ops| && ops[i].Push?
    ensures |outs| == |ops|
    ensures var target := settings.saveTarget(ops[i].event.path);
            outs[i] == if settings.detectAtomicSaves && target.Some? then [Event(target.value, Modify(Data))] else []
    decreases |ops|
  {
    var mid :| Step(settings, m, ops[0], outs[0], mid) && Runs(settings, mid, ops[1..], outs[1..], m');
    RunsAnswerAll(settings, m, ops, outs, m');
    if i > 0 { PushAnswers(settings, mid, ops[1..], outs[1..], m', i - 1); }
  }

  lemma {:induction false} RunsAnswerAll(settings: Settings, m: PendingMap, ops: seq<Operation>,
      outs: seq<seq<Event>>, m': PendingMap)
    requires Runs(settings, m, ops, outs, m')
    ensures |outs| == |ops|
    decreases |ops|
  {
    if ops != [] {
      var mid :| Step(settings, m, ops[0], outs[0], mid) && Runs(settings, mid, ops[1..], outs[1..], m');
      RunsAnswerAll(settings, mid, ops[1..], outs[1..], m');
    }
  }
}
