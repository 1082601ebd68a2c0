/** The up-only migrator: pending migrations in timestamp order, batches, and recovery from interruptions. */
module Migrator {
  import opened Migrations

  datatype Record = Record(migration: string, batch: int)

  /** The lines the migrator logs: before an Up, after its record insert, and after a mark without an Up. */
  datatype Event = Migrating(id: string) | Migrated(id: string) | Marked(id: string)

  datatype State<D> = State(db: D, records: seq<Record>, log: seq<Event>)
  datatype Result<D> = Result(state: State<D>, ok: bool)

  /** Where one call is interrupted: before its loop, inside the k-th Up, or at the k-th record insert. */
  datatype Fault = NoFault | Early | InUp(k: nat, done: nat) | AtInsert(k: nat)

  // ---------- pending migrations ----------

  function Ids(records: seq<Record>): seq<string> {
    if records == [] then [] else [records[0].migration] + Ids(records[1..])
  }

  function MigrationIds<D>(ms: seq<Migration<D>>): (ids: seq<string>)
    ensures |ids| == |ms| && forall i :: 0 <= i < |ms| ==> ids[i] == ms[i].id
  {
    if ms == [] then [] else [ms[0].id] + MigrationIds(ms[1..])
  }

  function Unrecorded<D>(ms: seq<Migration<D>>, ran: seq<string>): seq<Migration<D>> {
    if ms == [] then []
    else
      var front := Unrecorded(ms[..|ms| - 1], ran);
      if ms[|ms| - 1].id in ran then front else front + [ms[|ms| - 1]]
  }

  function Insert<D>(m: Migration<D>, sorted: seq<Migration<D>>): seq<Migration<D>> {
    if sorted == [] || m.timestamp < sorted[0].timestamp then [m] + sorted
    else [sorted[0]] + Insert(m, sorted[1..])
  }

  /** Stands for sort.Slice by timestamp; SortedUnique shows that no sorting algorithm can differ from it. */
  function SortByTimestamp<D>(ms: seq<Migration<D>>): seq<Migration<D>> {
    if ms == [] then [] else Insert(ms[0], SortByTimestamp(ms[1..]))
  }

  function Pending<D>(ms: seq<Migration<D>>, ran: seq<string>): seq<Migration<D>> {
    SortByTimestamp(Unrecorded(ms, ran))
  }

  function MaxBatch(records: seq<Record>): int {
    if records == [] then 0
    else
      var rest := MaxBatch(records[..|records| - 1]);
      if records[|records| - 1].batch > rest then records[|records| - 1].batch else rest
  }

  /** The maximum bounds every batch, and is attained or 0. */
  lemma {:induction false} MaxBatchAbove(records: seq<Record>)
    ensures forall r :: r in records ==> r.batch <= MaxBatch(records)
    ensures MaxBatch(records) == 0 || exists r :: r in records && r.batch == MaxBatch(records)
  {
    if records != [] {
      var front, last := records[..|records| - 1], records[|records| - 1];
      assert records == front + [last];
      MaxBatchAbove(front);
    }
  }

  // ---------- the specification of one call ----------

  /** Migrate's loop over `pending` from index i on. */
  function MigrateFrom<D>(pending: seq<Migration<D>>, batch: int, s: State<D>, fault: Fault, i: nat): Result<D>
    requires i <= |pending|
    decreases |pending| - i
  {
    if i == |pending| then Result(s, true)
    else
      var m := pending[i];
      var started := s.log + [Migrating(m.id)];
      if fault.InUp? && fault.k == i then
        Result(State(CutUp(m, s.db, fault.done), s.records, started), false)
      else
        var ran := RunUp(m, s.db);
        if !ran.ok || fault == AtInsert(i) || m.id in Ids(s.records) then
          Result(State(ran.db, s.records, started), false)
        else
          MigrateFrom(pending, batch,
                      State(ran.db, s.records + [Record(m.id, batch)], started + [Migrated(m.id)]), fault, i + 1)
  }

  function MigrateSpec<D>(ms: seq<Migration<D>>, s: State<D>, fault: Fault): Result<D> {
    if fault.Early? then Result(s, false)
    else MigrateFrom(Pending(ms, Ids(s.records)), MaxBatch(s.records) + 1, s, fault, 0)
  }

  /** The marking loop of Sync and SyncUntil over the first `count` pending migrations, from index i on. */
  function MarkFrom<D>(pending: seq<Migration<D>>, count: nat, batch: int, s: State<D>, fault: Fault, i: nat): Result<D>
    requires i <= count <= |pending|
    decreases count - i
  {
    if i == count then Result(s, true)
    else if fault == AtInsert(i) || pending[i].id in Ids(s.records) then Result(s, false)
    else
      MarkFrom(pending, count, batch,
               State(s.db, s.records + [Record(pending[i].id, batch)], s.log + [Marked(pending[i].id)]), fault, i + 1)
  }

  /** How many pending migrations SyncUntil marks: up to and including `untilId`, or all when it is not there. */
  function CountUntil<D>(pending: seq<Migration<D>>, untilId: string): (n: nat)
    ensures n <= |pending|
    ensures forall i :: 0 <= i < n - 1 ==> pending[i].id != untilId
    ensures n < |pending| ==> n > 0 && pending[n - 1].id == untilId
  {
    if pending == [] then 0
    else if pending[0].id == untilId then 1
    else 1 + CountUntil(pending[1..], untilId)
  }

  function SyncSpec<D>(ms: seq<Migration<D>>, s: State<D>, fault: Fault): Result<D> {
    var pending := Pending(ms, Ids(s.records));
    if fault.Early? then Result(s, false)
    else MarkFrom(pending, |pending|, MaxBatch(s.records) + 1, s, fault, 0)
  }

  function SyncUntilSpec<D>(ms: seq<Migration<D>>, s: State<D>, untilId: string, fault: Fault): Result<D> {
    var pending := Pending(ms, Ids(s.records));
    if fault.Early? then Result(s, false)
    else MarkFrom(pending, CountUntil(pending, untilId), MaxBatch(s.records) + 1, s, fault, 0)
  }

  // ---------- the migrator object ----------

  class Migrator<D> {
    const migrations: seq<Migration<D>>
    var db: D
    var records: seq<Record>
    var log: seq<Event>

    ghost function View(): State<D>
      reads this
    {
      State(db, records, log)
    }

    constructor (registered: seq<Migration<D>>, db: D)
      ensures migrations == registered && View() == State(db, [], [])
    {
      migrations := registered;
      this.db, records, log := db, [], [];
    }

    method GetRanMigrations() returns (ran: seq<string>)
      ensures ran == Ids(records)
    {
      ran := Ids(records);
    }

    method GetPendingMigrations() returns (pending: seq<Migration<D>>)
      ensures pending == Pending(migrations, Ids(records))
    {
      var ran := GetRanMigrations();
      var ranMap: map<string, bool> := map[];
      for i := 0 to |ran|
        invariant forall name :: name in ranMap <==> name in ran[..i]
      {
        ranMap := ranMap[ran[i] := true];
      }
      assert ran[..|ran|] == ran;
      pending := [];
      for i := 0 to |migrations|
        invariant pending == Unrecorded(migrations[..i], ran)
      {
        assert migrations[..i + 1][..i] == migrations[..i];
        if migrations[i].id !in ranMap {
          pending := pending + [migrations[i]];
        }
      }
      assert migrations[..|migrations|] == migrations;
      pending := SortByTimestamp(pending);
    }

    method GetNextBatch() returns (batch: int)
      ensures batch == MaxBatch(records) + 1
      ensures forall r :: r in records ==> r.batch < batch
    {
      MaxBatchAbove(records);
      batch := MaxBatch(records) + 1;
    }

    /** db.Create on the records table, whose migration column is unique. */
    method CreateRecord(record: Record, broken: bool) returns (ok: bool)
      modifies `records
      ensures ok == (!broken && record.migration !in Ids(old(records)))
      ensures records == if ok then old(records) + [record] else old(records)
    {
      ok := !broken && record.migration !in Ids(records);
      if ok {
        records := records + [record];
      }
    }

    method Migrate(fault: Fault) returns (ok: bool)
      modifies this
      ensures Result(View(), ok) == MigrateSpec(migrations, old(View()), fault)
    {
      hide Pending, Ids, MaxBatch, RunUp, CutUp;
      if fault.Early? {
        return false;
      }
      var pending := GetPendingMigrations();
      if |pending| == 0 {
        return true;
      }
      var batch := GetNextBatch();
      for i := 0 to |pending|
        invariant MigrateFrom(pending, batch, View(), fault, i) == MigrateSpec(migrations, old(View()), fault)
      {
        var m := pending[i];
        log := log + [Migrating(m.id)];
        if fault.InUp? && fault.k == i {
          db := CutUp(m, db, fault.done);
          return false;
        }
        var ran := RunUp(m, db);
        db := ran.db;
        if !ran.ok {
          return false;
        }
        var created := CreateRecord(Record(m.id, batch), fault == AtInsert(i));
        if !created {
          return false;
        }
        log := log + [Migrated(m.id)];
      }
      return true;
    }

    method Sync(fault: Fault) returns (ok: bool)
      modifies this
      ensures Result(View(), ok) == SyncSpec(migrations, old(View()), fault)
    {
      hide Pending, Ids, MaxBatch;
      if fault.Early? {
        return false;
      }
      var pending := GetPendingMigrations();
      if |pending| == 0 {
        return true;
      }
      var batch := GetNextBatch();
      for i := 0 to |pending|
        invariant MarkFrom(pending, |pending|, batch, View(), fault, i) == SyncSpec(migrations, old(View()), fault)
      {
        var created := CreateRecord(Record(pending[i].id, batch), fault == AtInsert(i));
        if !created {
          return false;
        }
        log := log + [Marked(pending[i].id)];
      }
      return true;
    }

    method SyncUntil(untilId: string, fault: Fault) returns (ok: bool)
      modifies this
      ensures Result(View(), ok) == SyncUntilSpec(migrations, old(View()), untilId, fault)
    {
      hide Pending, Ids, MaxBatch;
      if fault.Early? {
        return false;
      }
      var pending := GetPendingMigrations();
      var batch := GetNextBatch();
      ghost var n := CountUntil(pending, untilId);
      for i := 0 to |pending|
        invariant i < n || i == |pending| == n
        invariant MarkFrom(pending, n, batch, View(), fault, i)
               == SyncUntilSpec(migrations, old(View()), untilId, fault)
      {
        var created := CreateRecord(Record(pending[i].id, batch), fault == AtInsert(i));
        if !created {
          return false;
        }
        log := log + [Marked(pending[i].id)];
        if pending[i].id == untilId {
          break;
        }
      }
      return true;
    }
  }
}
