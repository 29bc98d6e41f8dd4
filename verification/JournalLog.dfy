/**
 The checkpoint journal: a key/value database of records under sequence numbers, an
 in-memory index from checkpoint id to sequence number, and a sequence counter.
 Over every run it behaves like a plain list of checkpoints in append order.
 */
module JournalLog {
  import opened Objects

  /** Database keys are 8-byte numbers unless the database is damaged. */
  datatype Key = Seq(n: nat) | Malformed(raw: Bytes)

  datatype Record = Good(checkpoint: Checkpoint) | Corrupt

  type Db = map<Key, Record>

  datatype State = State(db: Db, index: map<Ulid, nat>, counter: nat)

  // ---------------------------------------------------------------- finite sets of numbers

  lemma {:induction false} MaxExists(s: set<nat>) returns (m: nat)
    requires s != {}
    ensures m in s && forall x :: x in s ==> x <= m
  {
    var first :| first in s;
    if s == {first} {
      m := first;
    } else {
      var k := MaxExists(s - {first});
      m := if k > first then k else first;
      forall x | x in s ensures x <= m { assert x == first || x in s - {first}; }
    }
  }

  function Max(s: set<nat>): (m: nat)
    requires s != {}
    ensures m in s && forall x :: x in s ==> x <= m
  {
    assert exists m :: m in s && forall x :: x in s ==> x <= m by { var _ := MaxExists(s); }
    var m :| m in s && forall x :: x in s ==> x <= m;
    m
  }

  /** Collected and sorted. */
  function Ascending(s: set<nat>): (r: seq<nat>)
    ensures forall x :: x in r <==> x in s
  {
    if s == {} then [] else Ascending(s - {Max(s)}) + [Max(s)]
  }

  lemma AscendingTop(s: set<nat>, m: nat)
    requires m in s && forall x :: x in s ==> x <= m
    ensures Ascending(s) == Ascending(s - {m}) + [m]
  {
    assert Max(s) == m;
  }

  lemma {:induction false} AscendingSorted(s: set<nat>)
    ensures forall i, j :: 0 <= i < j < |Ascending(s)| ==> Ascending(s)[i] < Ascending(s)[j]
  {
    if s != {} {
      AscendingSorted(s - {Max(s)});
      var init := Ascending(s - {Max(s)});
      forall i | 0 <= i < |init| ensures init[i] < Max(s) { assert init[i] in s - {Max(s)}; }
    }
  }

  // ---------------------------------------------------------------- the state and its meaning

  function Seqs(db: Db): set<nat> {
    set k | k in db && k.Seq? :: k.n
  }

  /** Every key and every record can be read. */
  ghost predicate Readable(db: Db) {
    forall k :: k in db ==> k.Seq? && db[k].Good?
  }

  ghost predicate DistinctIds(db: Db) {
    forall j, k ::
      (j in db && k in db && db[j].Good? && db[k].Good? && db[j].checkpoint.id == db[k].checkpoint.id)
      ==> j == k
  }

  /** The index is exactly the inverse of the database. */
  ghost predicate IndexInverse(db: Db, index: map<Ulid, nat>) {
    && (forall id :: id in index ==>
          Seq(index[id]) in db && db[Seq(index[id])].Good? && db[Seq(index[id])].checkpoint.id == id)
    && (forall k :: k in db && db[k].Good? ==>
          k.Seq? && db[k].checkpoint.id in index && index[db[k].checkpoint.id] == k.n)
  }

  ghost predicate Valid(s: State) {
    && Readable(s.db)
    && IndexInverse(s.db, s.index)
    && (forall n :: n in Seqs(s.db) ==> n < s.counter)
    && s.counter < U64_LIMIT
  }

  function Records(db: Db, seqs: seq<nat>): seq<Checkpoint>
    requires forall n :: n in seqs ==> Seq(n) in db && db[Seq(n)].Good?
  {
    if seqs == [] then [] else Records(db, seqs[..|seqs| - 1]) + [db[Seq(seqs[|seqs| - 1])].checkpoint]
  }

  /** The surviving checkpoints in append order. */
  ghost function Log(s: State): seq<Checkpoint>
    requires Readable(s.db)
  {
    Records(s.db, Ascending(Seqs(s.db)))
  }

  lemma ValidValues(s: State)
    requires Valid(s)
    ensures s.index.Values == Seqs(s.db)
  {
    forall n | n in Seqs(s.db) ensures n in s.index.Values {
      assert s.db[Seq(n)].checkpoint.id in s.index;
    }
    forall n | n in s.index.Values ensures n in Seqs(s.db) {
      var id :| id in s.index && s.index[id] == n;
      assert Seq(n) in s.db;
    }
  }

  lemma {:induction false} RecordsAt(db: Db, seqs: seq<nat>)
    requires forall n :: n in seqs ==> Seq(n) in db && db[Seq(n)].Good?
    ensures |Records(db, seqs)| == |seqs|
    ensures forall i :: 0 <= i < |seqs| ==> Records(db, seqs)[i] == db[Seq(seqs[i])].checkpoint
  {
    if seqs != [] { RecordsAt(db, seqs[..|seqs| - 1]); }
  }

  lemma RecordsSnoc(db: Db, seqs: seq<nat>, n: nat)
    requires forall k :: k in seqs + [n] ==> Seq(k) in db && db[Seq(k)].Good?
    ensures Records(db, seqs + [n]) == Records(db, seqs) + [db[Seq(n)].checkpoint]
  {
    assert (seqs + [n])[..|seqs|] == seqs;
  }

  lemma RecordsSuffix(db: Db, seqs: seq<nat>, start: nat)
    requires forall n :: n in seqs ==> Seq(n) in db && db[Seq(n)].Good?
    requires start <= |seqs|
    ensures |Records(db, seqs)| == |seqs|
    ensures Records(db, seqs[start..]) == Records(db, seqs)[start..]
  {
    RecordsAt(db, seqs);
    RecordsAt(db, seqs[start..]);
  }

  lemma LogMembers(s: State)
    requires Valid(s)
    ensures forall cp: Checkpoint :: cp in Log(s) <==> cp.id in s.index && s.db[Seq(s.index[cp.id])] == Good(cp)
  {
    var seqs := Ascending(Seqs(s.db));
    RecordsAt(s.db, seqs);
    forall cp: Checkpoint | cp.id in s.index && s.db[Seq(s.index[cp.id])] == Good(cp) ensures cp in Log(s) {
      assert s.index[cp.id] in Seqs(s.db);
      assert s.index[cp.id] in seqs;
    }
  }

  // ---------------------------------------------------------------- steps

  datatype Op = Append(checkpoint: Checkpoint) | Delete(id: Ulid) | Reopen

  /** One more than the largest sequence number, or 1 when there is none. */
  function NextSeq(db: Db): nat {
    if Seqs(db) == {} then 1 else Max(Seqs(db)) + 1
  }

  function SeqsOf(db: Db, id: Ulid): set<nat> {
    set k | k in db && k.Seq? && db[k].Good? && db[k].checkpoint.id == id :: k.n
  }

  function StoredIds(db: Db): set<Ulid> {
    set k | k in db && k.Seq? && db[k].Good? :: db[k].checkpoint.id
  }

  /** The index read off the database; of records that share an id, which runs never make, the last. */
  function RebuiltIndex(db: Db): map<Ulid, nat> {
    map id | id in StoredIds(db) && SeqsOf(db, id) != {} :: Max(SeqsOf(db, id))
  }

  lemma RebuiltIsInverse(db: Db)
    requires Readable(db) && DistinctIds(db)
    ensures IndexInverse(db, RebuiltIndex(db))
  {
    forall k | k in db ensures SeqsOf(db, db[k].checkpoint.id) == {k.n} {
      assert k.n in SeqsOf(db, db[k].checkpoint.id);
    }
  }

  lemma IndexDetermined(db: Db, i: map<Ulid, nat>, j: map<Ulid, nat>)
    requires IndexInverse(db, i) && IndexInverse(db, j)
    ensures i == j
  {
    forall id ensures id in i <==> id in j { }
    forall id | id in i ensures i[id] == j[id] { }
  }

  /** Some index over the records; with distinct ids there is only one. */
  ghost predicate ReadOff(db: Db, index: map<Ulid, nat>) {
    && (forall id :: id in index ==>
          Seq(index[id]) in db && db[Seq(index[id])].Good? && db[Seq(index[id])].checkpoint.id == id)
    && (forall k :: k in db && db[k].Good? ==> db[k].checkpoint.id in index)
  }

  lemma OpenedIndex(db: Db, index: map<Ulid, nat>)
    requires Readable(db) && ReadOff(db, index)
    ensures DistinctIds(db) ==> IndexInverse(db, index) && index == RebuiltIndex(db)
  {
    if DistinctIds(db) {
      RebuiltIsInverse(db);
      assert IndexInverse(db, index);
      IndexDetermined(db, index, RebuiltIndex(db));
    }
  }

  /** A reopened journal knows nothing but the database. */
  function Step(s: State, op: Op): State {
    match op
    case Append(cp) =>
      State(s.db[Seq(s.counter) := Good(cp)], s.index[cp.id := s.counter], (s.counter + 1) % U64_LIMIT)
    case Delete(id) =>
      if id in s.index then State(s.db - {Seq(s.index[id])}, s.index - {id}, s.counter) else s
    case Reopen => State(s.db, RebuiltIndex(s.db), NextSeq(s.db) % U64_LIMIT)
  }

  /** The same operation on the plain list. */
  function LogStep(log: seq<Checkpoint>, op: Op): seq<Checkpoint> {
    match op
    case Append(cp) => log + [cp]
    case Delete(id) => Without(log, id)
    case Reopen => log
  }

  function Without(log: seq<Checkpoint>, id: Ulid): seq<Checkpoint> {
    if log == [] then []
    else
      var init, last := Without(log[..|log| - 1], id), log[|log| - 1];
      if last.id == id then init else init + [last]
  }

  /** ULIDs are fresh, and the 64-bit counter has a number left. */
  ghost predicate Allowed(log: seq<Checkpoint>, counter: nat, op: Op) {
    op.Append? ==> counter + 1 < U64_LIMIT && forall cp :: cp in log ==> cp.id != op.checkpoint.id
  }

  lemma {:induction false} RecordsOfLargerDb(db: Db, db': Db, seqs: seq<nat>)
    requires forall n :: n in seqs ==>
      Seq(n) in db && Seq(n) in db' && db[Seq(n)] == db'[Seq(n)] && db[Seq(n)].Good?
    ensures Records(db, seqs) == Records(db', seqs)
  {
    if seqs != [] { RecordsOfLargerDb(db, db', seqs[..|seqs| - 1]); }
  }

  lemma AppendKeepsValid(s: State, cp: Checkpoint)
    requires Valid(s) && s.counter + 1 < U64_LIMIT && cp.id !in s.index
    ensures Valid(Step(s, Append(cp)))
    ensures Seqs(Step(s, Append(cp)).db) == Seqs(s.db) + {s.counter}
  {
    var s' := Step(s, Append(cp));
    assert s.counter !in Seqs(s.db);
    forall n | n in Seqs(s'.db) ensures n in Seqs(s.db) + {s.counter} { }
  }

  lemma FreshIdNotIndexed(s: State, id: Ulid)
    requires Valid(s)
    ensures (forall cp :: cp in Log(s) ==> cp.id != id) <==> id !in s.index
  {
    LogMembers(s);
    if id in s.index { assert s.db[Seq(s.index[id])].checkpoint in Log(s); }
  }

  lemma AppendRefines(s: State, cp: Checkpoint)
    requires Valid(s) && Allowed(Log(s), s.counter, Append(cp))
    ensures Valid(Step(s, Append(cp))) && Log(Step(s, Append(cp))) == Log(s) + [cp]
  {
    FreshIdNotIndexed(s, cp.id);
    AppendKeepsValid(s, cp);
    LogExtends(s, Step(s, Append(cp)), s.counter);
  }

  lemma LogExtends(s: State, s': State, n: nat)
    requires Readable(s.db) && Readable(s'.db)
    requires Seqs(s'.db) == Seqs(s.db) + {n} && forall k :: k in Seqs(s.db) ==> k < n
    requires forall k :: k in Seqs(s.db) ==> s'.db[Seq(k)] == s.db[Seq(k)]
    ensures Log(s') == Log(s) + [s'.db[Seq(n)].checkpoint]
  {
    AscendingTop(Seqs(s'.db), n);
    assert Seqs(s'.db) - {n} == Seqs(s.db);
    var seqs := Ascending(Seqs(s.db));
    assert forall k :: k in seqs ==> k in Seqs(s.db);
    hide Ascending, Records, Seqs;
    RecordsOfLargerDb(s.db, s'.db, seqs);
    RecordsSnoc(s'.db, seqs, n);
  }

  function Dropped(seqs: seq<nat>, m: nat): seq<nat> {
    if seqs == [] then []
    else
      var init, last := Dropped(seqs[..|seqs| - 1], m), seqs[|seqs| - 1];
      if last == m then init else init + [last]
  }

  lemma DroppedSnoc(init: seq<nat>, last: nat, m: nat)
    ensures Dropped(init + [last], m) == if last == m then Dropped(init, m) else Dropped(init, m) + [last]
  {
    assert (init + [last])[..|init|] == init;
  }

  lemma AscendingEmpty(m: nat)
    ensures Ascending({}) == [] && Dropped([], m) == []
  {
  }

  lemma {:induction false} AscendingRemove(s: set<nat>, m: nat)
    ensures Ascending(s - {m}) == Dropped(Ascending(s), m)
  {
    hide Ascending, Dropped;
    if s == {} {
      AscendingEmpty(m);
      assert s - {m} == {};
    } else {
      var top := Max(s);
      AscendingTop(s, top);
      AscendingRemove(s - {top}, m);
      DroppedSnoc(Ascending(s - {top}), top, m);
      if top == m {
        assert s - {top} - {m} == s - {m};
      } else {
        AscendingTop(s - {m}, top);
        assert s - {top} - {m} == s - {m} - {top};
      }
    }
  }

  lemma {:induction false} RecordsDropped(db: Db, seqs: seq<nat>, m: nat, id: Ulid)
    requires forall n :: n in seqs ==> Seq(n) in db && db[Seq(n)].Good?
    requires forall n :: n in seqs ==> (db[Seq(n)].checkpoint.id == id <==> n == m)
    ensures forall n :: n in Dropped(seqs, m) ==> n in seqs
    ensures Records(db, Dropped(seqs, m)) == Without(Records(db, seqs), id)
  {
    if seqs != [] {
      var init, last := seqs[..|seqs| - 1], seqs[|seqs| - 1];
      RecordsDropped(db, init, m, id);
      var records := Records(db, init);
      assert (records + [db[Seq(last)].checkpoint])[..|records|] == records;
      var kept := Dropped(init, m);
      assert (kept + [last])[..|kept|] == kept;
    }
  }

  lemma DeleteKeepsValid(s: State, id: Ulid)
    requires Valid(s) && id in s.index
    ensures Valid(Step(s, Delete(id)))
    ensures Seqs(Step(s, Delete(id)).db) == Seqs(s.db) - {s.index[id]}
    ensures forall n :: n in Seqs(s.db) ==> (s.db[Seq(n)].checkpoint.id == id <==> n == s.index[id])
  {
    var db' := Step(s, Delete(id)).db;
    forall n ensures n in Seqs(db') <==> n in Seqs(s.db) - {s.index[id]} {
      assert n in Seqs(db') <==> Seq(n) in db';
      assert n in Seqs(s.db) <==> Seq(n) in s.db;
    }
  }

  lemma DeleteRefines(s: State, id: Ulid)
    requires Valid(s)
    ensures Valid(Step(s, Delete(id))) && Log(Step(s, Delete(id))) == Without(Log(s), id)
  {
    if id in s.index {
      var m, db' := s.index[id], Step(s, Delete(id)).db;
      DeleteKeepsValid(s, id);
      AscendingRemove(Seqs(s.db), m);
      RecordsDropped(s.db, Ascending(Seqs(s.db)), m, id);
      hide Ascending, IndexInverse, Records, Without, Dropped;
      RecordsOfLargerDb(db', s.db, Ascending(Seqs(db')));
    } else {
      LogMembers(s);
      WithoutNothing(Log(s), id);
    }
  }

  lemma {:induction false} WithoutNothing(log: seq<Checkpoint>, id: Ulid)
    requires forall cp :: cp in log ==> cp.id != id
    ensures Without(log, id) == log
  {
    if log != [] { WithoutNothing(log[..|log| - 1], id); }
  }

  lemma ReopenRefines(s: State)
    requires Valid(s)
    ensures Valid(Step(s, Reopen)) && Log(Step(s, Reopen)) == Log(s)
    ensures Step(s, Reopen).index == s.index
  {
    RebuiltIsInverse(s.db);
    IndexDetermined(s.db, s.index, RebuiltIndex(s.db));
  }

  lemma StepRefines(s: State, op: Op)
    requires Valid(s) && Allowed(Log(s), s.counter, op)
    ensures Valid(Step(s, op)) && Log(Step(s, op)) == LogStep(Log(s), op)
  {
    match op
    case Append(cp) => AppendRefines(s, cp);
    case Delete(id) => DeleteRefines(s, id);
    case Reopen => ReopenRefines(s);
  }

  /** A re-used id orphans the older record: freshness is exactly what an append needs. */
  lemma AppendNeedsFreshId(s: State, cp: Checkpoint)
    requires Valid(s) && s.counter + 1 < U64_LIMIT
    ensures Valid(Step(s, Append(cp))) <==> cp.id !in s.index
  {
    var s' := Step(s, Append(cp));
    if cp.id in s.index {
      var older := Seq(s.index[cp.id]);
      assert older.n in Seqs(s.db);
      assert older in s'.db && s'.db[older].checkpoint.id == cp.id && s'.index[cp.id] != older.n;
    } else {
      AppendKeepsValid(s, cp);
    }
  }

  // ---------------------------------------------------------------- runs

  const EMPTY: State := State(map[], map[], 1)

  function Run(ops: seq<Op>): State {
    if ops == [] then EMPTY else Step(Run(ops[..|ops| - 1]), ops[|ops| - 1])
  }

  function LogRun(ops: seq<Op>): seq<Checkpoint> {
    if ops == [] then [] else LogStep(LogRun(ops[..|ops| - 1]), ops[|ops| - 1])
  }

  ghost predicate AllowedRun(ops: seq<Op>) {
    ops != [] ==>
      AllowedRun(ops[..|ops| - 1]) &&
      Allowed(LogRun(ops[..|ops| - 1]), Run(ops[..|ops| - 1]).counter, ops[|ops| - 1])
  }

  /** Appends, deletes and reopens, in any number and order, act on the journal as on a list. */
  lemma {:induction false} RunsRefine(ops: seq<Op>)
    requires AllowedRun(ops)
    ensures Valid(Run(ops)) && Log(Run(ops)) == LogRun(ops)
  {
    if ops == [] {
      assert Seqs(EMPTY.db) == {};
    } else {
      RunsRefine(ops[..|ops| - 1]);
      StepRefines(Run(ops[..|ops| - 1]), ops[|ops| - 1]);
    }
  }

  // ---------------------------------------------------------------- the class

  ghost predicate Last<T>(s: seq<T>, r: Option<T>) {
    if s == [] then r == None else r == Some(s[|s| - 1])
  }

  function Suffix<T>(s: seq<T>, count: nat): seq<T> {
    if count >= |s| then s else s[|s| - count..]
  }

  /** The loop of `open`, with the keys in `rest` still to read. */
  ghost predicate Opening(db: Db, rest: set<Key>, index: map<Ulid, nat>, maxSeq: nat) {
    && rest <= db.Keys
    && (forall k :: k in db && k !in rest ==> k.Seq? && db[k].Good? && k.n <= maxSeq && db[k].checkpoint.id in index)
    && (maxSeq == 0 || maxSeq in Seqs(db))
    && (forall id :: id in index ==>
          Seq(index[id]) in db && Seq(index[id]) !in rest && db[Seq(index[id])].Good?
          && db[Seq(index[id])].checkpoint.id == id)
  }

  lemma OpeningStep(db: Db, rest: set<Key>, index: map<Ulid, nat>, maxSeq: nat, key: Key)
    requires Opening(db, rest, index, maxSeq) && key in rest && key in db && key.Seq? && db[key].Good?
    ensures Opening(db, rest - {key}, index[db[key].checkpoint.id := key.n], if key.n > maxSeq then key.n else maxSeq)
  {
    assert key.n in Seqs(db);
  }

  lemma UnreadableKey(db: Db, key: Key)
    requires key in db && (key.Malformed? || db[key].Corrupt?)
    ensures !Readable(db)
  {
    assert !(key.Seq? && db[key].Good?);
  }

  lemma OpeningEnds(db: Db, index: map<Ulid, nat>, maxSeq: nat)
    requires Opening(db, {}, index, maxSeq)
    ensures Readable(db) && ReadOff(db, index) && NextSeq(db) == maxSeq + 1
  {
    if Seqs(db) != {} { assert Seq(Max(Seqs(db))) in db; }
  }

  class Journal {
    var db: Db
    var index: map<Ulid, nat>
    var counter: nat

    constructor (s: State)
      ensures Value() == s
    {
      db, index, counter := s.db, s.index, s.counter;
    }

    function Value(): State
      reads this
    {
      State(db, index, counter)
    }

    /** The loop of `open`: reads every record once, in any order. */
    static method ReadAll(db: Db) returns (ok: bool, index: map<Ulid, nat>, maxSeq: nat)
      ensures ok <==> Readable(db)
      ensures ok ==> ReadOff(db, index) && NextSeq(db) == maxSeq + 1
    {
      index, maxSeq := map[], 0;
      var rest := db.Keys;
      assert Opening(db, rest, index, maxSeq);
      hide *;
      while rest != {}
        invariant rest <= db.Keys && Opening(db, rest, index, maxSeq)
        decreases |rest|
      {
        var key :| key in rest;
        if key.Malformed? || db[key].Corrupt? {
          UnreadableKey(db, key);
          return false, index, maxSeq;
        }
        OpeningStep(db, rest, index, maxSeq, key);
        index := index[db[key].checkpoint.id := key.n];
        maxSeq := if key.n > maxSeq then key.n else maxSeq;
        rest := rest - {key};
      }
      OpeningEnds(db, index, maxSeq);
      ok := true;
    }

    static method Open(db: Db) returns (j: Option<Journal>)
      ensures j.Some? <==> Readable(db)
      ensures j.Some? ==> fresh(j.value)
      ensures j.Some? ==> j.value.db == db && j.value.counter == NextSeq(db) % U64_LIMIT
      ensures j.Some? && DistinctIds(db) ==> IndexInverse(db, j.value.index)
      ensures j.Some? && DistinctIds(db) ==> j.value.Value() == Step(State(db, map[], 0), Reopen)
    {
      var ok, index, maxSeq := ReadAll(db);
      if !ok { return None; }
      hide Readable, ReadOff, RebuiltIndex, NextSeq, Seqs, DistinctIds, IndexInverse;
      OpenedIndex(db, index);
      var journal := new Journal(State(db, index, (maxSeq + 1) % U64_LIMIT));
      j := Some(journal);
    }

    method Append(checkpoint: Checkpoint) returns (seqNo: nat)
      modifies this
      ensures seqNo == old(counter)
      ensures Value() == Step(old(Value()), Op.Append(checkpoint))
      ensures old(Valid(Value()) && Allowed(Log(Value()), counter, Op.Append(checkpoint))) ==>
        Valid(Value()) && Log(Value()) == old(Log(Value())) + [checkpoint]
    {
      hide Log, Allowed, IndexInverse, Seqs;
      ghost var prior := Value();
      seqNo := counter;
      counter := (counter + 1) % U64_LIMIT;
      db := db[Seq(seqNo) := Good(checkpoint)];
      index := index[checkpoint.id := seqNo];
      if Valid(prior) && Allowed(Log(prior), prior.counter, Op.Append(checkpoint)) {
        AppendRefines(prior, checkpoint);
      }
    }

    method Delete(id: Ulid)
      modifies this`db, this`index
      ensures Value() == Step(old(Value()), Op.Delete(id))
      ensures old(Valid(Value())) ==> Valid(Value()) && Log(Value()) == Without(old(Log(Value())), id)
    {
      ghost var prior := Value();
      if Valid(prior) { DeleteRefines(prior, id); }
      if id !in index { return; }
      var seqNo := index[id];
      index := index - {id};
      db := db - {Seq(seqNo)};
    }

    /** Nothing when the id is unknown or its record is gone. */
    method Get(id: Ulid) returns (r: Result<Option<Checkpoint>>)
      requires Valid(Value())
      ensures match r
              case Err => false
              case Ok(None) => forall cp :: cp in Log(Value()) ==> cp.id != id
              case Ok(Some(cp)) => cp in Log(Value()) && cp.id == id
    {
      LogMembers(Value());
      if id !in index { return Ok(None); }
      var seqNo := index[id];
      if Seq(seqNo) !in db { return Ok(None); }
      match db[Seq(seqNo)]
      case Corrupt => r := Err;
      case Good(cp) => r := Ok(Some(cp));
    }

    /** The unwrap of the record under the largest indexed number never fails. */
    method Latest() returns (r: Option<Checkpoint>)
      requires Valid(Value())
      ensures Last(Log(Value()), r)
      ensures var log := Log(Value()); r == if log == [] then None else Some(log[|log| - 1])
    {
      ValidValues(Value());
      RecordsAt(db, Ascending(Seqs(db)));
      if index == map[] { assert index.Values == {}; return None; }
      assert index.Keys != {};
      var anyId :| anyId in index;
      assert index[anyId] in index.Values;
      var maxSeq := Max(index.Values);
      r := Some(db[Seq(maxSeq)].checkpoint);
    }

    method Load(seqs: seq<nat>) returns (checkpoints: seq<Checkpoint>)
      requires forall n :: n in seqs ==> Seq(n) in db && db[Seq(n)].Good?
      ensures checkpoints == Records(db, seqs)
    {
      checkpoints := [];
      for i := 0 to |seqs|
        invariant checkpoints == Records(db, seqs[..i])
      {
        assert seqs[..i + 1][..i] == seqs[..i];
        checkpoints := checkpoints + [db[Seq(seqs[i])].checkpoint];
      }
      assert seqs[..|seqs|] == seqs;
    }

    method LastN(count: nat) returns (checkpoints: seq<Checkpoint>)
      requires Valid(Value())
      ensures checkpoints == Suffix(Log(Value()), count)
    {
      ValidValues(Value());
      var seqs := Ascending(index.Values);
      assert forall n :: n in seqs ==> Seq(n) in db && db[Seq(n)].Good?;
      hide Ascending, IndexInverse, Records, Seqs, Valid;
      var start := if count >= |seqs| then 0 else |seqs| - count;
      assert forall n :: n in seqs[start..] ==> n in seqs;
      checkpoints := Load(seqs[start..]);
      assert Log(Value()) == Records(db, seqs) && |seqs| == |Log(Value())| by { RecordsSuffix(db, seqs, 0); }
      RecordsSuffix(db, seqs, start);
    }

    /** The checkpoints whose ids carry a timestamp from `timestampMs` on, each once, in id order. */
    method Since(timestampMs: nat) returns (checkpoints: seq<Checkpoint>)
      requires Valid(Value())
      ensures forall cp :: cp in checkpoints <==> cp in Log(Value()) && TimestampMs(cp.id) >= timestampMs
      ensures IdsAscend(checkpoints)
    {
      LogMembers(Value());
      var ids := Ascending(index.Keys);
      AscendingSorted(index.Keys);
      checkpoints := [];
      for i := 0 to |ids|
        invariant IdsAscend(checkpoints)
        invariant forall cp :: cp in checkpoints <==>
          cp in Log(Value()) && TimestampMs(cp.id) >= timestampMs && cp.id in ids[..i]
      {
        hide Log, IdsAscend, Ascending, TimestampMs, Seqs;
        var id := ids[i];
        assert ids[..i + 1] == ids[..i] + [id];
        if TimestampMs(id) >= timestampMs {
          var cp := db[Seq(index[id])].checkpoint;
          assert forall c :: c in checkpoints ==> c.id < id by {
            forall c | c in checkpoints ensures c.id < id { assert c.id in ids[..i]; }
          }
          IdsAscendSnoc(checkpoints, cp);
          checkpoints := checkpoints + [cp];
        }
      }
      assert ids[..|ids|] == ids;
    }
  }

  ghost predicate IdsAscend(cps: seq<Checkpoint>) {
    forall a, b :: 0 <= a < b < |cps| ==> cps[a].id < cps[b].id
  }

  lemma IdsAscendSnoc(cps: seq<Checkpoint>, cp: Checkpoint)
    requires IdsAscend(cps) && forall c :: c in cps ==> c.id < cp.id
    ensures IdsAscend(cps + [cp])
  {
  }
}
