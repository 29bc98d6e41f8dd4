/** The journal's integrity check and repair. */
module Integrity {
  import opened Objects
  import opened JournalLog

  /** What the scan found; the order of the findings is not kept. */
  datatype Report = Report(
    corrupted: set<Key>,
    orphaned: set<(nat, Ulid)>,
    mismatched: set<(Ulid, nat, nat)>,
    missing: set<(Ulid, nat)>)

  predicate Healthy(r: Report) {
    r.corrupted == {} && r.orphaned == {} && r.mismatched == {} && r.missing == {}
  }

  predicate Damaged(db: Db, k: Key)
    requires k in db
  {
    k.Malformed? || db[k].Corrupt?
  }

  ghost function Findings(db: Db, index: map<Ulid, nat>, scanned: set<Key>, checked: set<Ulid>): Report
    requires scanned <= db.Keys && checked <= index.Keys
  {
    Report(
      set k | k in scanned && Damaged(db, k),
      set k | k in scanned && !Damaged(db, k) && db[k].checkpoint.id !in index
        :: (k.n, db[k].checkpoint.id),
      set k | k in scanned && !Damaged(db, k) && db[k].checkpoint.id in index
              && index[db[k].checkpoint.id] != k.n
        :: (db[k].checkpoint.id, k.n, index[db[k].checkpoint.id]),
      set id | id in checked && Seq(index[id]) !in db :: (id, index[id]))
  }

  ghost function Check(s: State): Report {
    Findings(s.db, s.index, s.db.Keys, s.index.Keys)
  }

  lemma NothingScanned(db: Db, index: map<Ulid, nat>)
    ensures Findings(db, index, {}, {}) == Report({}, {}, {}, {})
  {
  }

  /** The first half of `verify_integrity`: every record against the index. */
  method ScanRecords(db: Db, index: map<Ulid, nat>) returns (r: Report)
    ensures r == Findings(db, index, db.Keys, {})
  {
    hide Findings;
    r := Report({}, {}, {}, {});
    NothingScanned(db, index);
    ghost var scanned: set<Key> := {};
    var rest := db.Keys;
    while rest != {}
      invariant scanned + rest == db.Keys && scanned !! rest
      invariant r == Findings(db, index, scanned, {})
      decreases |rest|
    {
      var k :| k in rest;
      ScanOne(db, index, scanned, k);
      if Damaged(db, k) {
        r := r.(corrupted := r.corrupted + {k});
      } else {
        var id := db[k].checkpoint.id;
        if id !in index {
          r := r.(orphaned := r.orphaned + {(k.n, id)});
        } else if index[id] != k.n {
          r := r.(mismatched := r.mismatched + {(id, k.n, index[id])});
        }
      }
      rest, scanned := rest - {k}, scanned + {k};
    }
    assert scanned == db.Keys;
  }

  /** `verify_integrity`; errors of the database itself are not part of the model. */
  method VerifyIntegrity(j: Journal) returns (r: Report)
    ensures r == Check(j.Value())
  {
    hide Findings;
    r := ScanRecords(j.db, j.index);
    ghost var checked: set<Ulid> := {};
    var ids := j.index.Keys;
    while ids != {}
      invariant checked + ids == j.index.Keys && checked !! ids
      invariant r == Findings(j.db, j.index, j.db.Keys, checked)
      decreases |ids|
    {
      var id :| id in ids;
      CheckOne(j.db, j.index, checked, id);
      if Seq(j.index[id]) !in j.db {
        r := r.(missing := r.missing + {(id, j.index[id])});
      }
      ids, checked := ids - {id}, checked + {id};
    }
    assert checked == j.index.Keys;
  }

  lemma ScanOne(db: Db, index: map<Ulid, nat>, scanned: set<Key>, k: Key)
    requires scanned <= db.Keys && k in db
    ensures var before, after := Findings(db, index, scanned, {}), Findings(db, index, scanned + {k}, {});
            if Damaged(db, k) then after == before.(corrupted := before.corrupted + {k})
            else
              var id := db[k].checkpoint.id;
              if id !in index then after == before.(orphaned := before.orphaned + {(k.n, id)})
              else if index[id] != k.n then
                after == before.(mismatched := before.mismatched + {(id, k.n, index[id])})
              else after == before
  {
  }

  lemma CheckOne(db: Db, index: map<Ulid, nat>, checked: set<Ulid>, id: Ulid)
    requires checked <= index.Keys && id in index
    ensures var before, after := Findings(db, index, db.Keys, checked), Findings(db, index, db.Keys, checked + {id});
            after == if Seq(index[id]) !in db then before.(missing := before.missing + {(id, index[id])}) else before
  {
  }

  // ---------------------------------------------------------------- what a clean report means

  function IdsOf(db: Db): set<Ulid> {
    set k | k in db && db[k].Good? :: db[k].checkpoint.id
  }

  lemma {:induction false} CountIds(db: Db)
    requires Readable(db) && DistinctIds(db)
    ensures |IdsOf(db)| == |db|
  {
    if db == map[] {
      assert IdsOf(db) == {};
    } else {
      var k :| k in db;
      var smaller := db - {k};
      CountIds(smaller);
      forall id | id in IdsOf(db) - {db[k].checkpoint.id} ensures id in IdsOf(smaller) {
        var j :| j in db && db[j].checkpoint.id == id;
        assert j in smaller;
      }
      forall id | id in IdsOf(smaller) ensures id in IdsOf(db) - {db[k].checkpoint.id} {
        var j :| j in smaller && smaller[j].checkpoint.id == id;
        assert j in db && j != k;
      }
      assert IdsOf(db) - {db[k].checkpoint.id} == IdsOf(smaller);
    }
  }

  lemma {:induction false} SubsetOfSameSize<T>(a: set<T>, b: set<T>)
    requires a <= b && |a| == |b|
    ensures a == b
  {
    if a != {} {
      var x :| x in a;
      SubsetOfSameSize(a - {x}, b - {x});
      assert a == a - {x} + {x} && b == b - {x} + {x};
    }
  }

  lemma NothingCorrupted(s: State)
    ensures Check(s).corrupted == {} <==> Readable(s.db)
  {
    if k :| k in s.db && Damaged(s.db, k) { assert k in Check(s).corrupted; }
  }

  lemma NothingOrphaned(s: State)
    ensures Check(s).orphaned == {} <==>
      forall k :: k in s.db && !Damaged(s.db, k) ==> s.db[k].checkpoint.id in s.index
  {
    if k :| k in s.db && !Damaged(s.db, k) && s.db[k].checkpoint.id !in s.index {
      assert (k.n, s.db[k].checkpoint.id) in Check(s).orphaned;
    }
  }

  lemma NothingMismatched(s: State)
    ensures Check(s).mismatched == {} <==>
      (forall k :: k in s.db && !Damaged(s.db, k) && s.db[k].checkpoint.id in s.index ==>
         s.index[s.db[k].checkpoint.id] == k.n)
  {
    if k :| k in s.db && !Damaged(s.db, k) && s.db[k].checkpoint.id in s.index
            && s.index[s.db[k].checkpoint.id] != k.n {
      var id := s.db[k].checkpoint.id;
      assert (id, k.n, s.index[id]) in Check(s).mismatched;
    }
  }

  lemma NothingMissing(s: State)
    ensures Check(s).missing == {} <==> forall id :: id in s.index ==> Seq(s.index[id]) in s.db
  {
    if id :| id in s.index && Seq(s.index[id]) !in s.db { assert (id, s.index[id]) in Check(s).missing; }
  }

  /** The facts a clean report gives directly. */
  lemma CleanReport(s: State)
    ensures Healthy(Check(s)) <==>
      && Readable(s.db)
      && (forall k :: k in s.db ==>
            s.db[k].checkpoint.id in s.index && s.index[s.db[k].checkpoint.id] == k.n)
      && (forall id :: id in s.index ==> Seq(s.index[id]) in s.db)
  {
    hide Check;
    NothingCorrupted(s);
    NothingOrphaned(s);
    NothingMismatched(s);
    NothingMissing(s);
  }

  /** With as many index entries as records, a clean report means exactly an inverse index. */
  lemma HealthyIffInverse(s: State)
    ensures (Healthy(Check(s)) && |s.index| == |s.db|) <==> (Readable(s.db) && IndexInverse(s.db, s.index))
  {
    CleanReport(s);
    if Healthy(Check(s)) && |s.index| == |s.db| {
      CountIds(s.db);
      assert IdsOf(s.db) <= s.index.Keys;
      assert |s.index.Keys| == |s.index|;
      SubsetOfSameSize(IdsOf(s.db), s.index.Keys);
      forall id | id in s.index
        ensures s.db[Seq(s.index[id])].checkpoint.id == id
      {
        assert id in IdsOf(s.db);
        var k :| k in s.db && s.db[k].checkpoint.id == id;
      }
    }
    if Readable(s.db) && IndexInverse(s.db, s.index) {
      CountIds(s.db);
      assert IdsOf(s.db) == s.index.Keys;
      assert |s.index.Keys| == |s.index|;
    }
  }

  /**
   Without the count the report is too weak: two ids may share one record.  No run of the journal's
   own operations leads here; it takes a database changed behind the index.
   */
  lemma HealthyAloneIsNotEnough(cp: Checkpoint)
    requires cp.id == 1
    ensures var s := State(map[Seq(1) := Good(cp)], map[1 := 1, 2 := 1], 2);
            Healthy(Check(s)) && !IndexInverse(s.db, s.index)
  {
    var s := State(map[Seq(1) := Good(cp)], map[1 := 1, 2 := 1], 2);
    CleanReport(s);
    assert 2 in s.index && s.db[Seq(s.index[2])].checkpoint.id != 2;
  }

  // ---------------------------------------------------------------- repair

  /** The records a repair keeps: all that can be read. */
  function Undamaged(db: Db): Db {
    map k | k in db && !Damaged(db, k) :: db[k]
  }

  predicate NeedsRebuild(r: Report) {
    r.orphaned != {} || r.missing != {}
  }

  ghost predicate Repaired(s: State, s': State, rebuilt: bool) {
    && s'.db == Undamaged(s.db)
    && rebuilt == NeedsRebuild(Check(s))
    && (rebuilt ==> ReadOff(s'.db, s'.index) && s'.counter == NextSeq(s'.db) % U64_LIMIT)
    && (!rebuilt ==> s'.index == s.index && s'.counter == s.counter)
  }

  /** The rebuild loop of `repair`. */
  method Rebuild(db: Db) returns (index: map<Ulid, nat>, maxSeq: nat)
    requires Readable(db)
    ensures ReadOff(db, index) && maxSeq + 1 == NextSeq(db)
  {
    index := map[];
    maxSeq := 0;
    var rest := db.Keys;
    while rest != {}
      invariant rest <= db.Keys
      invariant forall k :: k in db.Keys - rest ==> k.n <= maxSeq && db[k].checkpoint.id in index
      invariant maxSeq == 0 || maxSeq in Seqs(db)
      invariant forall id :: id in index ==> Seq(index[id]) in db && db[Seq(index[id])].checkpoint.id == id
      decreases |rest|
    {
      var k :| k in rest;
      assert k.n in Seqs(db);
      index := index[db[k].checkpoint.id := k.n];
      maxSeq := if k.n > maxSeq then k.n else maxSeq;
      rest := rest - {k};
    }
    if Seqs(db) != {} { assert Seq(Max(Seqs(db))) in db; }
  }

  /** `repair`, with the reports before and after. */
  method Repair(j: Journal, dryRun: bool) returns (rebuilt: bool, initial: Report, final: Option<Report>)
    modifies j
    ensures initial == Check(old(j.Value()))
    ensures Healthy(initial) || dryRun ==> j.Value() == old(j.Value()) && !rebuilt && final == None
    ensures !Healthy(initial) && !dryRun ==>
      Repaired(old(j.Value()), j.Value(), rebuilt) && final == Some(Check(j.Value()))
  {
    rebuilt, final := false, None;
    initial := VerifyIntegrity(j);
    if Healthy(initial) || dryRun { return; }
    ghost var s := j.Value();
    assert initial.corrupted == set k | k in j.db && Damaged(j.db, k);
    j.db := j.db - initial.corrupted;
    assert j.db == Undamaged(s.db);
    if NeedsRebuild(initial) {
      var index, maxSeq := Rebuild(j.db);
      j.index := index;
      j.counter := (maxSeq + 1) % U64_LIMIT;
      rebuilt := true;
    }
    var report := VerifyIntegrity(j);
    final := Some(report);
  }

  /** No readable record is lost, whatever the repair does. */
  lemma RepairKeepsRecords(s: State, s': State, rebuilt: bool)
    requires Repaired(s, s', rebuilt)
    ensures Readable(s'.db)
    ensures forall k :: k in s.db && k.Seq? && s.db[k].Good? ==> k in s'.db && s'.db[k] == s.db[k]
    ensures forall k :: k in s'.db ==> k in s.db && s'.db[k] == s.db[k]
  {
  }

  /** The index is rebuilt exactly when a readable record is not indexed, or an index entry leads nowhere. */
  lemma RebuildsExactlyWhen(s: State, s': State, rebuilt: bool)
    requires Repaired(s, s', rebuilt)
    ensures rebuilt <==>
            || (exists k :: k in s.db && k.Seq? && s.db[k].Good? && s.db[k].checkpoint.id !in s.index)
            || (exists id :: id in s.index && Seq(s.index[id]) !in s.db)
  {
    hide Check;
    NothingOrphaned(s);
    NothingMissing(s);
  }

  /** No index entry leads to a damaged record. */
  ghost predicate NothingDangles(s: State) {
    forall id :: id in s.index && Seq(s.index[id]) in s.db ==> !Damaged(s.db, Seq(s.index[id]))
  }

  /**
   When a repair leaves a healthy journal: after a rebuild exactly when the readable records
   have distinct ids; without one exactly when nothing was mismatched and no index entry
   pointed at a record that was removed as damaged.
   */
  lemma RepairHealsExactlyWhen(s: State, s': State, rebuilt: bool)
    requires Repaired(s, s', rebuilt) && !Healthy(Check(s))
    ensures Healthy(Check(s')) <==>
      if rebuilt then DistinctIds(Undamaged(s.db))
      else Check(s).mismatched == {} && NothingDangles(s)
    ensures rebuilt && DistinctIds(Undamaged(s.db)) ==> IndexInverse(s'.db, s'.index)
  {
    CleanReport(s');
    RepairKeepsRecords(s, s', rebuilt);
    if rebuilt {
      if DistinctIds(s'.db) {
        assert forall k :: k in s'.db ==> Seq(s'.index[s'.db[k].checkpoint.id]) == k;
      }
    } else {
      RepairWithoutRebuild(s, s');
    }
  }

  lemma RepairWithoutRebuild(s: State, s': State)
    requires Repaired(s, s', false)
    ensures forall id :: id in s.index ==> Seq(s.index[id]) in s.db
    ensures Healthy(Check(s')) <==>
      Check(s).mismatched == {} && NothingDangles(s)
  {
    hide Check;
    NothingOrphaned(s);
    NothingMissing(s);
    NothingMismatched(s);
    CleanReport(s');
    forall k | k in s.db && !Damaged(s.db, k) ensures k in s'.db && s'.db[k] == s.db[k] { }
  }

  /** After a healing rebuild the journal is in the state every run of it keeps. */
  lemma RebuiltIsValid(s: State, s': State)
    requires Repaired(s, s', true) && DistinctIds(Undamaged(s.db))
    requires forall n :: n in Seqs(s.db) ==> n + 1 < U64_LIMIT
    ensures Valid(s')
  {
    RepairKeepsRecords(s, s', true);
    assert forall k :: k in s'.db ==> Seq(s'.index[s'.db[k].checkpoint.id]) == k;
    assert Seqs(s'.db) <= Seqs(s.db);
  }

  // ---------------------------------------------------------------- acting on the findings

  /** Every finding names the record and the index entry it is about. */
  lemma FindingsAreTrue(s: State)
    ensures var r := Check(s);
            && (forall n, id :: (n, id) in r.orphaned ==>
                  Seq(n) in s.db && s.db[Seq(n)].Good? && s.db[Seq(n)].checkpoint.id == id && id !in s.index)
            && (forall id, stored, indexed :: (id, stored, indexed) in r.mismatched ==>
                  && Seq(stored) in s.db && s.db[Seq(stored)].Good? && s.db[Seq(stored)].checkpoint.id == id
                  && id in s.index && s.index[id] == indexed != stored)
            && (forall id, n :: (id, n) in r.missing ==> id in s.index && s.index[id] == n && Seq(n) !in s.db)
  {
  }

  /** The ids for which the report knows a better place. */
  ghost function Moved(r: Report): set<Ulid> {
    (set o | o in r.orphaned :: o.1) + set m | m in r.mismatched :: m.0
  }

  /** The index after every finding was acted on: orphans and mismatches set right, missing entries dropped. */
  ghost predicate ActedOn(index: map<Ulid, nat>, r: Report, index': map<Ulid, nat>) {
    && (forall n, id :: (n, id) in r.orphaned ==> id in index' && index'[id] == n)
    && (forall id, stored, indexed :: (id, stored, indexed) in r.mismatched ==> id in index' && index'[id] == stored)
    && (forall id :: id in index' && id !in Moved(r) ==>
          id in index && (id, index[id]) !in r.missing && index'[id] == index[id])
    && (forall id :: id in index && id !in Moved(r) && (id, index[id]) !in r.missing ==> id in index')
  }

  lemma ActedOnRecords(s: State, index': map<Ulid, nat>)
    requires DistinctIds(Undamaged(s.db)) && ActedOn(s.index, Check(s), index')
    ensures forall k :: k in Undamaged(s.db) ==> s.db[k].checkpoint.id in index' && index'[s.db[k].checkpoint.id] == k.n
  {
    var r := Check(s);
    FindingsAreTrue(s);
    forall k | k in Undamaged(s.db)
      ensures s.db[k].checkpoint.id in index' && index'[s.db[k].checkpoint.id] == k.n
    {
      var id := s.db[k].checkpoint.id;
      if id !in s.index {
        assert (k.n, id) in r.orphaned;
      } else if s.index[id] != k.n {
        assert (id, k.n, s.index[id]) in r.mismatched;
      } else {
        assert Undamaged(s.db)[k].checkpoint.id == id;
        assert (id, s.index[id]) !in r.missing;
        forall m | m in r.mismatched ensures m.0 != id {
          assert (m.0, m.1, m.2) in r.mismatched && Seq(m.1) in Undamaged(s.db);
        }
        forall o | o in r.orphaned ensures o.1 != id { assert (o.0, o.1) in r.orphaned; }
        assert id !in Moved(r);
      }
    }
  }

  /**
   With distinct ids the report is enough to heal the journal: once the damaged records are gone and
   every finding was acted on, it is healthy exactly when no entry that was left alone led to damage.
   */
  lemma FindingsHealExactly(s: State, index': map<Ulid, nat>, counter: nat)
    requires DistinctIds(Undamaged(s.db)) && ActedOn(s.index, Check(s), index')
    ensures Healthy(Check(State(Undamaged(s.db), index', counter))) <==>
            forall id :: id in s.index && id !in Moved(Check(s)) && Seq(s.index[id]) in s.db ==>
              !Damaged(s.db, Seq(s.index[id]))
  {
    var s' := State(Undamaged(s.db), index', counter);
    CleanReport(s');
    ActedOnRecords(s, index');
    FindingsAreTrue(s);
    forall id | id in index' && id in Moved(Check(s)) ensures Seq(index'[id]) in s'.db { }
    forall id | id in s.index && id !in Moved(Check(s)) && Seq(s.index[id]) in s.db
      ensures id in index' && index'[id] == s.index[id]
    {
    }
  }

  /** One damaged record that is still indexed: repair removes it and leaves the index dangling. */
  lemma RepairLeavesDanglingIndex(id: Ulid)
    ensures var s := State(map[Seq(1) := Corrupt], map[id := 1], 2);
            var s' := State(map[], map[id := 1], 2);
            Repaired(s, s', false) && !Healthy(Check(s'))
  {
    var s := State(map[Seq(1) := Corrupt], map[id := 1], 2);
    var s' := State(map[], map[id := 1], 2);
    assert !NeedsRebuild(Check(s)) by {
      assert Check(s).orphaned == {};
      assert Seq(s.index[id]) in s.db;
      assert Check(s).missing == {};
    }
    assert Undamaged(s.db) == map[];
    assert id in s'.index && (id, 1) in Check(s').missing;
  }
}
