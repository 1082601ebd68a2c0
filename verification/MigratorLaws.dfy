/** What the migrator guarantees over one call and over whole sequences of interrupted calls. */
module MigratorLaws {
  import opened Migrations
  import opened Migrator
  import opened PendingLaws

  // ---------- one call ----------

  /** The database after the first k pending Ups, each run once and to its end. */
  function DbAfter<D>(pending: seq<Migration<D>>, db: D, k: nat): D
    requires k <= |pending|
  {
    if k == 0 then db else RunUp(pending[k - 1], DbAfter(pending, db, k - 1)).db
  }

  ghost predicate CleanTo<D>(pending: seq<Migration<D>>, db: D, k: nat)
    requires k <= |pending|
  {
    forall i :: 0 <= i < k ==> RunUp(pending[i], DbAfter(pending, db, i)).ok
  }

  function Marks<D>(pending: seq<Migration<D>>, batch: int): (records: seq<Record>)
    ensures |records| == |pending|
    ensures forall i :: 0 <= i < |pending| ==> records[i] == Record(pending[i].id, batch)
    ensures Ids(records) == MigrationIds(pending)
  {
    if pending == [] then [] else [Record(pending[0].id, batch)] + Marks(pending[1..], batch)
  }

  function Lines<D>(pending: seq<Migration<D>>): seq<Event> {
    if pending == [] then []
    else
      var last := pending[|pending| - 1].id;
      Lines(pending[..|pending| - 1]) + [Migrating(last), Migrated(last)]
  }

  predicate FaultAt(fault: Fault, k: nat) {
    (fault.InUp? && fault.k == k) || fault == AtInsert(k)
  }

  /** The state once exactly the first k pending migrations have run and are recorded. */
  function After<D>(pending: seq<Migration<D>>, batch: int, s: State<D>, k: nat): State<D>
    requires k <= |pending|
  {
    State(DbAfter(pending, s.db, k), s.records + Marks(pending[..k], batch), s.log + Lines(pending[..k]))
  }

  /** The database that a stop at migration m leaves: its Up cut off, failed by itself, or done but unrecorded. */
  function Leftover<D>(m: Migration<D>, db: D, fault: Fault, k: nat): D {
    if fault.InUp? && fault.k == k then CutUp(m, db, fault.done) else RunUp(m, db).db
  }

  /** The whole outcome of a call that completes exactly the first n pending migrations. */
  ghost predicate Completes<D>(
    pending: seq<Migration<D>>, batch: int, s: State<D>, fault: Fault, r: Result<D>, n: nat)
  {
    && n <= |pending|
    && CleanTo(pending, s.db, n)
    && (forall k :: 0 <= k < n ==> !FaultAt(fault, k))
    && (r.ok <==> n == |pending|)
    && var done := After(pending, batch, s, n);
      if r.ok then r.state == done
      else
        && (FaultAt(fault, n) || !RunUp(pending[n], done.db).ok)
        && r.state
           == State(Leftover(pending[n], done.db, fault, n), done.records, done.log + [Migrating(pending[n].id)])
  }

  lemma MarksSnoc<D>(pending: seq<Migration<D>>, batch: int)
    requires pending != []
    ensures Marks(pending, batch) == Marks(pending[..|pending| - 1], batch) + [Record(pending[|pending| - 1].id, batch)]
  {
    hide Marks, Ids, MigrationIds;
  }

  lemma AfterStep<D>(pending: seq<Migration<D>>, batch: int, s: State<D>, k: nat)
    requires k < |pending|
    ensures var here, id := After(pending, batch, s, k), pending[k].id;
            After(pending, batch, s, k + 1)
            == State(RunUp(pending[k], here.db).db, here.records + [Record(id, batch)],
                     here.log + [Migrating(id)] + [Migrated(id)])
  {
    hide RunUp, Marks;
    assert pending[..k + 1][..k] == pending[..k];
    MarksSnoc(pending[..k + 1], batch);
  }

  lemma AfterRecordsFresh<D>(pending: seq<Migration<D>>, batch: int, s: State<D>, k: nat)
    requires k < |pending| && Distinct(pending) && pending[k].id !in Ids(s.records)
    ensures pending[k].id !in Ids(After(pending, batch, s, k).records)
  {
    hide RunUp, DbAfter, Lines, MigrationIds, Ids;
    IdsAppend(s.records, Marks(pending[..k], batch));
  }

  lemma {:induction false} MigrateFromCompletes<D(!new)>(
    pending: seq<Migration<D>>, batch: int, s: State<D>, fault: Fault, i: nat) returns (n: nat)
    requires i <= |pending| && Distinct(pending) && CleanTo(pending, s.db, i)
    requires forall k :: 0 <= k < |pending| ==> pending[k].id !in Ids(s.records)
    requires forall k :: 0 <= k < i ==> !FaultAt(fault, k)
    ensures Completes(pending, batch, s, fault, MigrateFrom(pending, batch, After(pending, batch, s, i), fault, i), n)
    decreases |pending| - i
  {
    hide RunUp, CutUp, DbAfter, Lines, Marks, Ids;
    n := i;
    if i < |pending| {
      AfterRecordsFresh(pending, batch, s, i);
      if RunUp(pending[i], DbAfter(pending, s.db, i)).ok && !FaultAt(fault, i) {
        AfterStep(pending, batch, s, i);
        n := MigrateFromCompletes(pending, batch, s, fault, i + 1);
      }
    }
  }

  lemma AfterNone<D>(pending: seq<Migration<D>>, batch: int, s: State<D>)
    ensures After(pending, batch, s, 0) == s
  {
  }

  /** Every call that gets past its preparation completes a prefix of the pending list: a failure at the k-th
      Up or insert records exactly the migrations before it, all of them in one fresh batch. */
  lemma MigrateCompletesPrefix<D(!new)>(ms: seq<Migration<D>>, s: State<D>, fault: Fault) returns (n: nat)
    requires Distinct(ms) && !fault.Early?
    ensures Completes(Pending(ms, Ids(s.records)), MaxBatch(s.records) + 1, s, fault, MigrateSpec(ms, s, fault), n)
  {
    hide Pending, Ids, After, MaxBatch, Completes;
    var pending := Pending(ms, Ids(s.records));
    PendingExactly(ms, Ids(s.records));
    assert forall k :: 0 <= k < |pending| ==> pending[k] in pending;
    AfterNone(pending, MaxBatch(s.records) + 1, s);
    n := MigrateFromCompletes(pending, MaxBatch(s.records) + 1, s, fault, 0);
  }

  // ---------- recovery from interruptions ----------

  /** `s` has the first k of `pending` recorded, and a database from which the next Up ends as if run cleanly. */
  ghost predicate Progress<D>(pending: seq<Migration<D>>, s0: State<D>, s: State<D>, k: nat) {
    && k <= |pending|
    && Ids(s.records) == Ids(s0.records) + MigrationIds(pending[..k])
    && var clean := DbAfter(pending, s0.db, k);
      if k < |pending| then RunUp(pending[k], s.db) == RunUp(pending[k], clean) else s.db == clean
  }

  lemma ExecWhole<D>(m: Migration<D>, db: D)
    ensures CutUp(m, db, |m.up(db)|) == RunUp(m, db).db
  {
  }

  lemma LeftoverRestarts<D(!new)>(m: Migration<D>, db: D, fault: Fault, k: nat)
    requires Restartable(m) && RunUp(m, db).ok
    ensures RunUp(m, Leftover(m, db, fault, k)) == RunUp(m, db)
  {
    hide RunUp, CutUp;
    ExecWhole(m, db);
    assert RunUp(m, CutUp(m, db, |m.up(db)|)) == RunUp(m, db);
    if fault.InUp? {
      assert RunUp(m, CutUp(m, db, fault.done)) == RunUp(m, db);
    }
  }

  lemma MigrationIdsSplit<D>(pending: seq<Migration<D>>, k: nat, n: nat)
    requires k + n <= |pending|
    ensures MigrationIds(pending[..k]) + MigrationIds(pending[k..][..n]) == MigrationIds(pending[..k + n])
  {
  }

  /** Progress of the database alone, carried over n more Ups. */
  lemma ProgressDb<D>(pending: seq<Migration<D>>, db0: D, db: D, k: nat, n: nat)
    requires k + n <= |pending|
    requires if k < |pending| then RunUp(pending[k], db) == RunUp(pending[k], DbAfter(pending, db0, k))
             else db == DbAfter(pending, db0, k)
    ensures var here, clean := DbAfter(pending[k..], db, n), DbAfter(pending, db0, k + n);
            if k + n < |pending| then RunUp(pending[k + n], here) == RunUp(pending[k + n], clean) else here == clean
  {
  }

  lemma CompletedRecords<D>(
    pending: seq<Migration<D>>, batch: int, s: State<D>, fault: Fault, r: Result<D>, n: nat)
    requires Completes(pending, batch, s, fault, r, n)
    ensures n <= |pending| && r.state.records == s.records + Marks(pending[..n], batch)
  {
  }

  lemma StopLine<D>(
    pending: seq<Migration<D>>, batch: int, s: State<D>, fault: Fault, r: Result<D>, n: nat)
    requires Completes(pending, batch, s, fault, r, n) && !r.ok
    ensures |r.state.log| > |s.log| && r.state.log[|r.state.log| - 1] == Migrating(pending[n].id)
  {
    hide RunUp, CutUp, DbAfter, Lines, Marks, Leftover;
  }

  lemma RecordedIds<D>(pending: seq<Migration<D>>, before: seq<Record>, s0: seq<Record>, batch: int, k: nat, n: nat)
    requires k + n <= |pending| && Ids(before) == Ids(s0) + MigrationIds(pending[..k])
    ensures Ids(before + Marks(pending[k..][..n], batch)) == Ids(s0) + MigrationIds(pending[..k + n])
  {
    hide Ids, MigrationIds;
    var marks := Marks(pending[k..][..n], batch);
    IdsAppend(before, marks);
    MigrationIdsSplit(pending, k, n);
    assert (Ids(s0) + MigrationIds(pending[..k])) + Ids(marks) == Ids(s0) + (MigrationIds(pending[..k]) + Ids(marks));
  }

  /** Past the first k migrations of a run that can succeed, only an interruption stops a call. */
  lemma StopsOnlyAtFault<D(!new)>(
    pending: seq<Migration<D>>, s0: State<D>, s: State<D>, batch: int, fault: Fault, r: Result<D>, k: nat, n: nat)
    requires CleanTo(pending, s0.db, |pending|)
    requires Progress(pending, s0, s, k) && Completes(pending[k..], batch, s, fault, r, n)
    ensures !r.ok ==> FaultAt(fault, n)
  {
    hide Ids, MigrationIds, RunUp, CutUp, Leftover, Lines, Marks, DbAfter;
    ProgressDb(pending, s0.db, s.db, k, n);
  }

  /** Only the migration at which the call stopped has to be restartable. */
  lemma CompletedDb<D(!new)>(
    pending: seq<Migration<D>>, s0: State<D>, s: State<D>, batch: int, fault: Fault, r: Result<D>, k: nat, n: nat)
    requires CleanTo(pending, s0.db, |pending|)
    requires Progress(pending, s0, s, k) && Completes(pending[k..], batch, s, fault, r, n)
    requires !r.ok ==> Restartable(pending[k + n])
    ensures var clean := DbAfter(pending, s0.db, k + n);
            if k + n < |pending| then RunUp(pending[k + n], r.state.db) == RunUp(pending[k + n], clean)
            else r.state.db == clean
  {
    hide Ids, MigrationIds, RunUp, CutUp, Leftover, Lines, Marks, Restartable, DbAfter;
    ProgressDb(pending, s0.db, s.db, k, n);
    if k + n < |pending| {
      var m := pending[k + n];
      assert RunUp(m, DbAfter(pending, s0.db, k + n)).ok;
      LeftoverRestarts(m, DbAfter(pending[k..], s.db, n), fault, n);
    }
  }

  /** The migration at which an unsuccessful call stopped, the one in its last line, may be restarted; a call
      that logged nothing stopped at none. */
  ghost predicate RestartableStop<D(!new)>(ms: seq<Migration<D>>, s: State<D>, fault: Fault) {
    var r := MigrateSpec(ms, s, fault);
    !r.ok && |r.state.log| > |s.log| ==>
      forall m :: m in ms && r.state.log[|r.state.log| - 1] == Migrating(m.id) ==> Restartable(m)
  }

  /** One call, interrupted or not, never loses progress. */
  lemma CallProgresses<D(!new)>(ms: seq<Migration<D>>, s0: State<D>, s: State<D>, fault: Fault, k: nat)
    returns (k': nat)
    requires Distinct(ms) && RestartableStop(ms, s, fault)
    requires var pending := Pending(ms, Ids(s0.records));
             CleanTo(pending, s0.db, |pending|) && Progress(pending, s0, s, k)
    ensures var pending, r := Pending(ms, Ids(s0.records)), MigrateSpec(ms, s, fault);
            && Progress(pending, s0, r.state, k')
            && (r.ok ==> k' == |pending|)
  {
    hide Pending, Ids, MigrationIds, Restartable, MaxBatch, RunUp, CleanTo, DbAfter, After, Leftover;
    if fault.Early? {
      return k;
    }
    var pending := Pending(ms, Ids(s0.records));
    PendingExactly(ms, Ids(s0.records));
    PendingAfter(ms, Ids(s0.records), k);
    var r := MigrateSpec(ms, s, fault);
    var batch := MaxBatch(s.records) + 1;
    var n := MigrateCompletesPrefix(ms, s, fault);
    CompletedRecords(pending[k..], batch, s, fault, r, n);
    RecordedIds(pending, s.records, s0.records, batch, k, n);
    if !r.ok {
      StopLine(pending[k..], batch, s, fault, r, n);
      assert pending[k + n] in pending;
    }
    CompletedDb(pending, s0, s, batch, fault, r, k, n);
    k' := k + n;
  }

  /** Only an interruption keeps a call from finishing. */
  lemma UndisturbedSucceeds<D(!new)>(ms: seq<Migration<D>>, s0: State<D>, s: State<D>, k: nat)
    requires Distinct(ms)
    requires var pending := Pending(ms, Ids(s0.records));
             CleanTo(pending, s0.db, |pending|) && Progress(pending, s0, s, k)
    ensures MigrateSpec(ms, s, NoFault).ok
  {
    hide Pending, MaxBatch, RunUp, CleanTo, DbAfter, After, Leftover, MigrateFrom;
    var pending := Pending(ms, Ids(s0.records));
    PendingAfter(ms, Ids(s0.records), k);
    var n := MigrateCompletesPrefix(ms, s, NoFault);
    StopsOnlyAtFault(pending, s0, s, MaxBatch(s.records) + 1, NoFault, MigrateSpec(ms, s, NoFault), k, n);
  }

  /** Consecutive Migrate calls, each with its own interruption. */
  function Calls<D>(ms: seq<Migration<D>>, s: State<D>, faults: seq<Fault>): State<D>
    decreases faults
  {
    if faults == [] then s else Calls(ms, MigrateSpec(ms, s, faults[0]).state, faults[1..])
  }

  /** Every migration at which one of the calls stopped may be restarted. */
  ghost predicate RestartableStops<D(!new)>(ms: seq<Migration<D>>, s: State<D>, faults: seq<Fault>)
    decreases faults
  {
    faults == [] ||
    (RestartableStop(ms, s, faults[0]) && RestartableStops(ms, MigrateSpec(ms, s, faults[0]).state, faults[1..]))
  }

  lemma {:induction false} CallsProgress<D(!new)>(
    ms: seq<Migration<D>>, s0: State<D>, s: State<D>, faults: seq<Fault>, k: nat) returns (k': nat)
    requires Distinct(ms) && RestartableStops(ms, s, faults)
    requires var pending := Pending(ms, Ids(s0.records));
             CleanTo(pending, s0.db, |pending|) && Progress(pending, s0, s, k)
    ensures Progress(Pending(ms, Ids(s0.records)), s0, Calls(ms, s, faults), k')
    decreases faults
  {
    hide Progress, CleanTo, MigrateSpec, Pending, RestartableStop;
    k' := k;
    if faults != [] {
      k' := CallProgresses(ms, s0, s, faults[0], k);
      k' := CallsProgress(ms, s0, MigrateSpec(ms, s, faults[0]).state, faults[1..], k');
    }
  }

  /** Crash recovery: after any calls interrupted anywhere, as long as those migrations they stopped at may be
      restarted, one undisturbed call succeeds, and ends with the database and the recorded ids of a single
      undisturbed call from the start. Nothing is asked of the migrations at which no call stopped. */
  lemma CrashRecovery<D(!new)>(ms: seq<Migration<D>>, s0: State<D>, faults: seq<Fault>)
    requires Distinct(ms) && RestartableStops(ms, s0, faults)
    requires MigrateSpec(ms, s0, NoFault).ok
    ensures
      var clean, recovered := MigrateSpec(ms, s0, NoFault), MigrateSpec(ms, Calls(ms, s0, faults), NoFault);
      && recovered.ok
      && recovered.state.db == clean.state.db
      && Ids(recovered.state.records) == Ids(clean.state.records)
  {
    hide Pending, Ids, MigrationIds, Marks, Lines, RunUp, Restartable, MaxBatch, MigrateSpec, Calls, RestartableStops;
    var pending, stopped := Pending(ms, Ids(s0.records)), Calls(ms, s0, faults);
    var n := MigrateCompletesPrefix(ms, s0, NoFault);
    assert MigrationIds(pending[..0]) == [];
    var k := CallProgresses(ms, s0, s0, NoFault, 0);
    k := CallsProgress(ms, s0, s0, faults, 0);
    UndisturbedSucceeds(ms, s0, stopped, k);
    k := CallProgresses(ms, s0, stopped, NoFault, k);
  }

  /** A call stops at a pending migration only, and makes no other migration pending. */
  lemma StopsAtPending<D(!new)>(ms: seq<Migration<D>>, s: State<D>, fault: Fault)
    requires Distinct(ms) && forall m :: m in Pending(ms, Ids(s.records)) ==> Restartable(m)
    ensures RestartableStop(ms, s, fault)
    ensures forall m :: m in Pending(ms, Ids(MigrateSpec(ms, s, fault).state.records)) ==>
              m in Pending(ms, Ids(s.records))
  {
    hide Pending, Ids, MigrationIds, Restartable, MaxBatch, RunUp, MigrateFrom;
    if !fault.Early? {
      var pending, r, batch := Pending(ms, Ids(s.records)), MigrateSpec(ms, s, fault), MaxBatch(s.records) + 1;
      var n := MigrateCompletesPrefix(ms, s, fault);
      CompletedRecords(pending, batch, s, fault, r, n);
      IdsAppend(s.records, Marks(pending[..n], batch));
      PendingExactly(ms, Ids(s.records));
      PendingExactly(ms, Ids(r.state.records));
      if !r.ok {
        StopLine(pending, batch, s, fault, r, n);
        assert pending[n] in pending;
      }
    }
  }

  /** It is enough for recovery that the migrations pending at the start may be restarted. */
  lemma {:induction false} PendingRestartable<D(!new)>(ms: seq<Migration<D>>, s: State<D>, faults: seq<Fault>)
    requires Distinct(ms) && forall m :: m in Pending(ms, Ids(s.records)) ==> Restartable(m)
    ensures RestartableStops(ms, s, faults)
    decreases faults
  {
    hide Pending, Ids, Restartable, MigrateSpec, RestartableStop;
    if faults != [] {
      StopsAtPending(ms, s, faults[0]);
      PendingRestartable(ms, MigrateSpec(ms, s, faults[0]).state, faults[1..]);
    }
  }

  /** A call that reports success is an undisturbed call. */
  lemma SuccessIsUndisturbed<D(!new)>(ms: seq<Migration<D>>, s: State<D>, fault: Fault)
    requires Distinct(ms) && MigrateSpec(ms, s, fault).ok
    ensures MigrateSpec(ms, s, fault) == MigrateSpec(ms, s, NoFault)
  {
    hide Pending, Ids, Marks, Lines, RunUp, MaxBatch, MigrateFrom;
    if !fault.Early? {
      var n := MigrateCompletesPrefix(ms, s, fault);
      var n' := MigrateCompletesPrefix(ms, s, NoFault);
    }
  }

  /** After a success nothing is pending: a further call runs no Up, records nothing and logs nothing. */
  lemma SecondMigrateIsIdle<D(!new)>(ms: seq<Migration<D>>, s: State<D>, fault: Fault, again: Fault)
    requires Distinct(ms) && MigrateSpec(ms, s, fault).ok
    ensures var done := MigrateSpec(ms, s, fault).state;
            Pending(ms, Ids(done.records)) == [] && MigrateSpec(ms, done, again).state == done
  {
    hide Ids, Marks, Lines, RunUp, MaxBatch, Pending, MigrationIds;
    var pending := Pending(ms, Ids(s.records));
    if !fault.Early? {
      var n := MigrateCompletesPrefix(ms, s, fault);
      IdsAppend(s.records, Marks(pending[..n], MaxBatch(s.records) + 1));
      PendingAfter(ms, Ids(s.records), n);
    }
  }
}
