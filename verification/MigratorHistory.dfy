/** Sync and SyncUntil, and what holds over any history of calls on the migrator. */
module MigratorHistory {
  import opened Migrations
  import opened Migrator
  import opened PendingLaws
  import opened MigratorLaws

  // ---------- marking without running ----------

  function MarkLines<D>(pending: seq<Migration<D>>): seq<Event> {
    if pending == [] then []
    else MarkLines(pending[..|pending| - 1]) + [Marked(pending[|pending| - 1].id)]
  }

  /** The state once the first k pending migrations are marked: the database is untouched. */
  function MarkedState<D>(pending: seq<Migration<D>>, batch: int, s: State<D>, k: nat): State<D>
    requires k <= |pending|
  {
    State(s.db, s.records + Marks(pending[..k], batch), s.log + MarkLines(pending[..k]))
  }

  lemma MarkedStep<D>(pending: seq<Migration<D>>, batch: int, s: State<D>, k: nat)
    requires k < |pending|
    ensures var here, id := MarkedState(pending, batch, s, k), pending[k].id;
            MarkedState(pending, batch, s, k + 1)
            == State(here.db, here.records + [Record(id, batch)], here.log + [Marked(id)])
  {
    hide Marks;
    assert pending[..k + 1][..k] == pending[..k];
    MarksSnoc(pending[..k + 1], batch);
  }

  lemma MarkedFresh<D>(pending: seq<Migration<D>>, batch: int, s: State<D>, k: nat)
    requires k < |pending| && Distinct(pending) && pending[k].id !in Ids(s.records)
    ensures pending[k].id !in Ids(MarkedState(pending, batch, s, k).records)
  {
    hide MarkLines, MigrationIds, Ids;
    IdsAppend(s.records, Marks(pending[..k], batch));
  }

  lemma {:induction false} MarkFromMarks<D(!new)>(
    pending: seq<Migration<D>>, count: nat, batch: int, s: State<D>, fault: Fault, i: nat)
    requires i <= count <= |pending| && Distinct(pending)
    requires forall k :: 0 <= k < |pending| ==> pending[k].id !in Ids(s.records)
    requires fault.AtInsert? ==> i <= fault.k
    ensures var stop := if fault.AtInsert? && fault.k < count then fault.k else count;
            MarkFrom(pending, count, batch, MarkedState(pending, batch, s, i), fault, i)
            == Result(MarkedState(pending, batch, s, stop), stop == count)
    decreases count - i
  {
    hide Marks, MarkLines, Ids, MarkedState;
    if i < count && fault != AtInsert(i) {
      MarkedFresh(pending, batch, s, i);
      MarkedStep(pending, batch, s, i);
      assert MarkedState(pending, batch, s, i).db == MarkedState(pending, batch, s, i + 1).db;
      MarkFromMarks(pending, count, batch, s, fault, i + 1);
    }
  }

  lemma MarkedNone<D>(pending: seq<Migration<D>>, batch: int, s: State<D>)
    ensures MarkedState(pending, batch, s, 0) == s
  {
  }

  /** SyncUntil records the pending migrations up to and including `untilId` in one fresh batch, or those
      before the failing insert, and runs no Up at all. */
  lemma SyncUntilMarksPrefix<D(!new)>(ms: seq<Migration<D>>, s: State<D>, untilId: string, fault: Fault)
    requires Distinct(ms) && !fault.Early?
    ensures var pending := Pending(ms, Ids(s.records));
            var count := CountUntil(pending, untilId);
            var stop := if fault.AtInsert? && fault.k < count then fault.k else count;
            SyncUntilSpec(ms, s, untilId, fault)
            == Result(MarkedState(pending, MaxBatch(s.records) + 1, s, stop), stop == count)
  {
    hide Pending, Ids, MarkFrom, MaxBatch, MarkedState, CountUntil;
    var pending := Pending(ms, Ids(s.records));
    PendingExactly(ms, Ids(s.records));
    assert forall k :: 0 <= k < |pending| ==> pending[k] in pending;
    MarkedNone(pending, MaxBatch(s.records) + 1, s);
    MarkFromMarks(pending, CountUntil(pending, untilId), MaxBatch(s.records) + 1, s, fault, 0);
  }

  /** A call that fails in its preparation changes nothing at all. */
  lemma EarlyChangesNothing<D(!new)>(ms: seq<Migration<D>>, s: State<D>, untilId: string)
    ensures MigrateSpec(ms, s, Early) == SyncSpec(ms, s, Early) == Result(s, false)
    ensures SyncUntilSpec(ms, s, untilId, Early) == Result(s, false)
  {
  }

  /** Sync is SyncUntil for an id that is not pending: it marks everything. */
  lemma SyncIsSyncUntilUnknown<D(!new)>(ms: seq<Migration<D>>, s: State<D>, unknown: string, fault: Fault)
    requires forall m :: m in Pending(ms, Ids(s.records)) ==> m.id != unknown
    ensures SyncUntilSpec(ms, s, unknown, fault) == SyncSpec(ms, s, fault)
  {
  }

  /** What stays pending after SyncUntil: exactly the migrations after `untilId`; nothing, if it was not pending. */
  lemma SyncUntilLeaves<D(!new)>(ms: seq<Migration<D>>, s: State<D>, untilId: string)
    requires Distinct(ms)
    ensures var pending, r := Pending(ms, Ids(s.records)), SyncUntilSpec(ms, s, untilId, NoFault);
            && r.ok && r.state.db == s.db
            && Ids(r.state.records) == Ids(s.records) + MigrationIds(pending[..CountUntil(pending, untilId)])
            && Pending(ms, Ids(r.state.records)) == pending[CountUntil(pending, untilId)..]
  {
    hide Pending, Ids, MigrationIds, Marks, MarkLines, MarkFrom, MaxBatch, CountUntil, SyncUntilSpec;
    var pending := Pending(ms, Ids(s.records));
    var n := CountUntil(pending, untilId);
    SyncUntilMarksPrefix(ms, s, untilId, NoFault);
    IdsAppend(s.records, Marks(pending[..n], MaxBatch(s.records) + 1));
    PendingAfter(ms, Ids(s.records), n);
  }

  /** SyncUntil(untilId) then Migrate: Up runs for exactly the suffix after `untilId`, in timestamp order, and
      exactly the pending set ends up recorded. */
  lemma SyncUntilThenMigrate<D(!new)>(ms: seq<Migration<D>>, s: State<D>, i: nat, fault: Fault)
    requires Distinct(ms) && i < |Pending(ms, Ids(s.records))|
    requires MigrateSpec(ms, SyncUntilSpec(ms, s, Pending(ms, Ids(s.records))[i].id, NoFault).state, fault).ok
    ensures var pending := Pending(ms, Ids(s.records));
            var marked := SyncUntilSpec(ms, s, pending[i].id, NoFault).state;
            var r := MigrateSpec(ms, marked, fault);
            && Ids(r.state.records) == Ids(s.records) + MigrationIds(pending)
            && r.state.db == DbAfter(pending[i + 1..], s.db, |pending| - i - 1)
            && r.state.log == marked.log + Lines(pending[i + 1..])
  {
    hide Pending, Ids, MigrationIds, Marks, Lines, MaxBatch, SyncUntilSpec, MigrateFrom, RunUp, CountUntil, DbAfter;
    var pending := Pending(ms, Ids(s.records));
    var untilId := pending[i].id;
    var marked := SyncUntilSpec(ms, s, untilId, NoFault).state;
    PendingExactly(ms, Ids(s.records));
    var n := CountUntil(pending, untilId);
    assert n == i + 1;
    SyncUntilLeaves(ms, s, untilId);
    var rest := pending[n..];
    var k := MigrateCompletesPrefix(ms, marked, fault);
    assert rest[..k] == rest && pending[..n + k] == pending;
    RecordedIds(pending, marked.records, s.records, MaxBatch(marked.records) + 1, n, k);
  }

  // ---------- histories ----------

  datatype Call = MigrateCall(fault: Fault) | SyncCall(fault: Fault) | SyncUntilCall(untilId: string, fault: Fault)

  function Perform<D>(ms: seq<Migration<D>>, s: State<D>, call: Call): State<D> {
    match call
    case MigrateCall(fault) => MigrateSpec(ms, s, fault).state
    case SyncCall(fault) => SyncSpec(ms, s, fault).state
    case SyncUntilCall(untilId, fault) => SyncUntilSpec(ms, s, untilId, fault).state
  }

  function History<D>(ms: seq<Migration<D>>, s: State<D>, calls: seq<Call>): State<D>
    decreases calls
  {
    if calls == [] then s else History(ms, Perform(ms, s, calls[0]), calls[1..])
  }

  predicate Records(e: Event) {
    e.Migrated? || e.Marked?
  }

  /** No Up starts for an id recorded before the history began, or recorded earlier in it. */
  ghost predicate NoRestart(before: seq<string>, log: seq<Event>) {
    forall j :: 0 <= j < |log| && log[j].Migrating? ==>
      log[j].id !in before && forall i :: 0 <= i < j && Records(log[i]) ==> log[i].id != log[j].id
  }

  ghost predicate LogMatches(before: seq<string>, log: seq<Event>, ran: seq<string>) {
    && (forall id :: id in before ==> id in ran)
    && (forall i :: 0 <= i < |log| && Records(log[i]) ==> log[i].id in ran)
    && NoRestart(before, log)
  }

  /** Recorded ids stay distinct, and batches never decrease along the table. */
  ghost predicate TableOk(records: seq<Record>) {
    forall i, j :: 0 <= i < j < |records| ==>
      records[i].migration != records[j].migration && records[i].batch <= records[j].batch
  }

  ghost predicate HistoryOk<D>(before: seq<string>, s: State<D>) {
    LogMatches(before, s.log, Ids(s.records)) && TableOk(s.records)
  }

  lemma {:induction false} IdsHas(records: seq<Record>, i: nat)
    requires i < |records|
    ensures records[i].migration in Ids(records)
  {
    if i > 0 {
      IdsHas(records[1..], i - 1);
    }
  }

  lemma RecordKeeps<D(!new)>(before: seq<string>, s: State<D>, r: Record, lines: seq<Event>)
    requires HistoryOk(before, s) && r.migration !in Ids(s.records)
    requires forall x :: x in s.records ==> x.batch <= r.batch
    requires lines == [Migrating(r.migration), Migrated(r.migration)] || lines == [Marked(r.migration)]
    ensures HistoryOk(before, State(s.db, s.records + [r], s.log + lines))
  {
    IdsAppend(s.records, [r]);
    hide Ids;
    assert Ids([r]) == [r.migration] by { assert [r][1..] == []; OneId(r); }
    forall i | 0 <= i < |s.records| ensures s.records[i].migration != r.migration && s.records[i].batch <= r.batch {
      IdsHas(s.records, i);
      assert s.records[i] in s.records;
    }
  }

  lemma OneId(r: Record)
    ensures Ids([r]) == [r.migration]
  {
  }

  lemma StartKeeps<D(!new)>(before: seq<string>, s: State<D>, id: string, db: D)
    requires HistoryOk(before, s) && id !in Ids(s.records)
    ensures HistoryOk(before, State(db, s.records, s.log + [Migrating(id)]))
  {
  }

  ghost predicate Unmarked<D>(pending: seq<Migration<D>>, ran: seq<string>, i: nat) {
    forall k :: i <= k < |pending| ==> pending[k].id !in ran
  }

  lemma UnmarkedStep<D>(pending: seq<Migration<D>>, records: seq<Record>, batch: int, i: nat)
    requires i < |pending| && Distinct(pending) && Unmarked(pending, Ids(records), i)
    ensures Unmarked(pending, Ids(records + [Record(pending[i].id, batch)]), i + 1)
  {
    IdsAppend(records, [Record(pending[i].id, batch)]);
    OneId(Record(pending[i].id, batch));
  }

  lemma {:induction false} MigrateFromKeeps<D(!new)>(
    before: seq<string>, pending: seq<Migration<D>>, batch: int, s: State<D>, fault: Fault, i: nat)
    requires i <= |pending| && Distinct(pending) && Unmarked(pending, Ids(s.records), i)
    requires HistoryOk(before, s) && forall x :: x in s.records ==> x.batch <= batch
    ensures HistoryOk(before, MigrateFrom(pending, batch, s, fault, i).state)
    decreases |pending| - i
  {
    hide HistoryOk, RunUp, CutUp, Ids;
    if i < |pending| {
      var id := pending[i].id;
      var r := MigrateFrom(pending, batch, s, fault, i);
      StartKeeps(before, s, id, r.state.db);
      var ran := RunUp(pending[i], s.db);
      if !FaultAt(fault, i) && ran.ok {
        RecordKeeps(before, s, Record(id, batch), [Migrating(id), Migrated(id)]);
        UnmarkedStep(pending, s.records, batch, i);
        var next := State(ran.db, s.records + [Record(id, batch)], s.log + [Migrating(id)] + [Migrated(id)]);
        assert s.log + [Migrating(id)] + [Migrated(id)] == s.log + [Migrating(id), Migrated(id)];
        DbIrrelevant(before, State(s.db, next.records, next.log), ran.db);
        MigrateFromKeeps(before, pending, batch, next, fault, i + 1);
      }
    }
  }

  lemma DbIrrelevant<D(!new)>(before: seq<string>, s: State<D>, db: D)
    requires HistoryOk(before, s)
    ensures HistoryOk(before, State(db, s.records, s.log))
  {
  }

  lemma {:induction false} MarkFromKeeps<D(!new)>(
    before: seq<string>, pending: seq<Migration<D>>, count: nat, batch: int, s: State<D>, fault: Fault, i: nat)
    requires i <= count <= |pending| && Distinct(pending) && Unmarked(pending, Ids(s.records), i)
    requires HistoryOk(before, s) && forall x :: x in s.records ==> x.batch <= batch
    ensures HistoryOk(before, MarkFrom(pending, count, batch, s, fault, i).state)
    decreases count - i
  {
    hide HistoryOk, Ids;
    if i < count && fault != AtInsert(i) {
      var id := pending[i].id;
      RecordKeeps(before, s, Record(id, batch), [Marked(id)]);
      UnmarkedStep(pending, s.records, batch, i);
      MarkFromKeeps(before, pending, count, batch,
                    State(s.db, s.records + [Record(id, batch)], s.log + [Marked(id)]), fault, i + 1);
    }
  }

  lemma PerformKeeps<D(!new)>(ms: seq<Migration<D>>, before: seq<string>, s: State<D>, call: Call)
    requires Distinct(ms) && HistoryOk(before, s)
    ensures HistoryOk(before, Perform(ms, s, call))
  {
    hide HistoryOk, Ids, Pending, MaxBatch, MigrateFrom, MarkFrom;
    var pending, batch := Pending(ms, Ids(s.records)), MaxBatch(s.records) + 1;
    PendingExactly(ms, Ids(s.records));
    assert forall k :: 0 <= k < |pending| ==> pending[k] in pending;
    MaxBatchAbove(s.records);
    match call {
      case MigrateCall(fault) => MigrateFromKeeps(before, pending, batch, s, fault, 0);
      case SyncCall(fault) => MarkFromKeeps(before, pending, |pending|, batch, s, fault, 0);
      case SyncUntilCall(untilId, fault) =>
        MarkFromKeeps(before, pending, CountUntil(pending, untilId), batch, s, fault, 0);
    }
  }

  lemma {:induction false} HistoryKeeps<D(!new)>(
    ms: seq<Migration<D>>, before: seq<string>, s: State<D>, calls: seq<Call>)
    requires Distinct(ms) && HistoryOk(before, s)
    ensures HistoryOk(before, History(ms, s, calls))
    decreases calls
  {
    hide HistoryOk, Perform;
    if calls != [] {
      PerformKeeps(ms, before, s, calls[0]);
      HistoryKeeps(ms, before, Perform(ms, s, calls[0]), calls[1..]);
    }
  }

  /** Over any history of interrupted Migrate, Sync and SyncUntil calls: no Up starts once its id is recorded,
      no id is recorded twice, and batches never decrease. */
  lemma NoUpAfterRecord<D(!new)>(ms: seq<Migration<D>>, db: D, records: seq<Record>, calls: seq<Call>)
    requires Distinct(ms) && TableOk(records)
    ensures var s := History(ms, State(db, records, []), calls);
            NoRestart(Ids(records), s.log) && TableOk(s.records)
  {
    HistoryKeeps(ms, Ids(records), State(db, records, []), calls);
  }
}
