/** The two restartable migrations side by side in one database, under the migrator. */
module RegisteredMigrations {
  import opened Options
  import opened Migrations
  import opened Migrator
  import opened PendingLaws
  import opened MigratorLaws
  import ServicesDefault
  import SshKeysIsGlobal

  // ---------- a migration of one part of a larger database ----------

  datatype Lens<!S, !D> = Lens(get: S -> D, put: (S, D) -> S)

  ghost predicate Lawful<S(!new), D(!new)>(lens: Lens<S, D>) {
    && (forall s, d :: lens.get(lens.put(s, d)) == d)
    && (forall s :: lens.put(s, lens.get(s)) == s)
    && (forall s, a, b :: lens.put(lens.put(s, a), b) == lens.put(s, b))
  }

  function LiftStatement<S, D>(lens: Lens<S, D>, statement: Statement<D>): Statement<S> {
    s =>
      match statement(lens.get(s))
      case None => None
      case Some(d) => Some(lens.put(s, d))
  }

  function LiftAll<S, D>(lens: Lens<S, D>, statements: seq<Statement<D>>): (r: seq<Statement<S>>)
    ensures |r| == |statements| && forall i :: 0 <= i < |r| ==> r[i] == LiftStatement(lens, statements[i])
  {
    if statements == [] then [] else [LiftStatement(lens, statements[0])] + LiftAll(lens, statements[1..])
  }

  function Lift<S, D>(lens: Lens<S, D>, m: Migration<D>): Migration<S> {
    Migration(m.id, m.timestamp, s => LiftAll(lens, m.up(lens.get(s))))
  }

  lemma {:induction false} ExecLift<S(!new), D(!new)>(lens: Lens<S, D>, statements: seq<Statement<D>>, s: S)
    requires Lawful(lens)
    ensures Exec(LiftAll(lens, statements), s)
         == Ran(lens.put(s, Exec(statements, lens.get(s)).db), Exec(statements, lens.get(s)).ok)
    decreases statements
  {
    if statements != [] {
      assert LiftAll(lens, statements)[1..] == LiftAll(lens, statements[1..]);
      if statements[0](lens.get(s)).Some? {
        ExecLift(lens, statements[1..], lens.put(s, statements[0](lens.get(s)).value));
      }
    }
  }

  lemma RunLift<S(!new), D(!new)>(lens: Lens<S, D>, m: Migration<D>, s: S, done: nat)
    requires Lawful(lens)
    ensures RunUp(Lift(lens, m), s) == Ran(lens.put(s, RunUp(m, lens.get(s)).db), RunUp(m, lens.get(s)).ok)
    ensures CutUp(Lift(lens, m), s, done) == lens.put(s, CutUp(m, lens.get(s), done))
  {
    hide Exec;
    var statements := m.up(lens.get(s));
    ExecLift(lens, statements, s);
    if done < |statements| {
      ExecLift(lens, statements[..done], s);
      assert LiftAll(lens, statements)[..done] == LiftAll(lens, statements[..done]);
    }
  }

  /** A migration that may be restarted may be restarted inside any larger database. */
  lemma LiftRestartable<S(!new), D(!new)>(lens: Lens<S, D>, m: Migration<D>)
    requires Lawful(lens) && Restartable(m)
    ensures Restartable(Lift(lens, m))
  {
    hide RunUp, CutUp, Lift;
    forall s, done: nat | RunUp(Lift(lens, m), s).ok
      ensures RunUp(Lift(lens, m), CutUp(Lift(lens, m), s, done)) == RunUp(Lift(lens, m), s)
    {
      RunLift(lens, m, s, done);
      RunLift(lens, m, lens.put(s, CutUp(m, lens.get(s), done)), 0);
    }
  }

  // ---------- a database that has both, and anything else ----------

  datatype AppDb<R> = AppDb(isGlobal: SshKeysIsGlobal.Column, services: ServicesDefault.ServicesDb, rest: R)

  function ColumnLens<R>(): Lens<AppDb<R>, SshKeysIsGlobal.Column> {
    Lens((s: AppDb<R>) => s.isGlobal, (s: AppDb<R>, d) => s.(isGlobal := d))
  }

  function ServicesLens<R>(): Lens<AppDb<R>, ServicesDefault.ServicesDb> {
    Lens((s: AppDb<R>) => s.services, (s: AppDb<R>, d) => s.(services := d))
  }

  function Convert<R>(): Migration<AppDb<R>> {
    Lift(ColumnLens(), SshKeysIsGlobal.CONVERT_IS_GLOBAL)
  }

  function Fix<R>(): Migration<AppDb<R>> {
    Lift(ServicesLens(), ServicesDefault.FIX_SERVICES_IS_DEFAULT)
  }

  lemma BothRestartable<R(!new)>()
    ensures Restartable(Convert<R>()) && Restartable(Fix<R>())
  {
    hide Restartable;
    SshKeysIsGlobal.ConvertIsRestartable();
    ServicesDefault.FixIsRestartable();
    LiftRestartable(ColumnLens<R>(), SshKeysIsGlobal.CONVERT_IS_GLOBAL);
    LiftRestartable(ServicesLens<R>(), ServicesDefault.FIX_SERVICES_IS_DEFAULT);
  }

  // ---------- any registry that holds both ----------

  /** An unsuccessful call stopped inside 0048 or 0054, or before any Up: its last new line says so. */
  predicate StoppedAtEither<R>(ms: seq<Migration<AppDb<R>>>, s: State<AppDb<R>>, fault: Fault) {
    var r := MigrateSpec(ms, s, fault);
    !r.ok && |r.state.log| > |s.log| ==>
      r.state.log[|r.state.log| - 1] in {Migrating(Convert<R>().id), Migrating(Fix<R>().id)}
  }

  predicate AllStoppedAtEither<R>(ms: seq<Migration<AppDb<R>>>, s: State<AppDb<R>>, faults: seq<Fault>)
    decreases faults
  {
    faults == [] ||
    (StoppedAtEither(ms, s, faults[0]) && AllStoppedAtEither(ms, MigrateSpec(ms, s, faults[0]).state, faults[1..]))
  }

  lemma SameId<D(!new)>(ms: seq<Migration<D>>, a: Migration<D>, b: Migration<D>)
    requires Distinct(ms) && a in ms && b in ms && a.id == b.id
    ensures a == b
  {
  }

  lemma {:induction false} EitherIsRestartable<R(!new)>(
    ms: seq<Migration<AppDb<R>>>, s: State<AppDb<R>>, faults: seq<Fault>)
    requires Distinct(ms) && Convert() in ms && Fix() in ms && AllStoppedAtEither(ms, s, faults)
    ensures RestartableStops(ms, s, faults)
    decreases faults
  {
    hide MigrateSpec, Restartable, Convert, Fix, Distinct;
    if faults != [] {
      var r := MigrateSpec(ms, s, faults[0]);
      BothRestartable<R>();
      forall m | m in ms && |r.state.log| > 0 && r.state.log[|r.state.log| - 1] == Migrating(m.id)
        ensures !r.ok && |r.state.log| > |s.log| ==> Restartable(m)
      {
        if m.id == Convert<R>().id {
          SameId(ms, m, Convert());
        } else if m.id == Fix<R>().id {
          SameId(ms, m, Fix());
        }
      }
      EitherIsRestartable(ms, r.state, faults[1..]);
    }
  }

  /** Any registry that holds both, whatever else it registers (0010 included) and whatever is recorded already: as
      long as calls were interrupted only at these two, one undisturbed Migrate makes up for all of them. */
  lemma InterruptionsAtEitherConverge<R(!new)>(
    ms: seq<Migration<AppDb<R>>>, s0: State<AppDb<R>>, faults: seq<Fault>)
    requires Distinct(ms) && Convert() in ms && Fix() in ms
    requires MigrateSpec(ms, s0, NoFault).ok && AllStoppedAtEither(ms, s0, faults)
    ensures var clean, r := MigrateSpec(ms, s0, NoFault), MigrateSpec(ms, Calls(ms, s0, faults), NoFault);
            r.ok && r.state.db == clean.state.db && Ids(r.state.records) == Ids(clean.state.records)
  {
    hide MigrateSpec, Calls, AllStoppedAtEither, RestartableStops, Convert, Fix;
    EitherIsRestartable(ms, s0, faults);
    CrashRecovery(ms, s0, faults);
  }

  // ---------- when only these two are pending ----------

  /** The database after both. */
  function Repaired<R>(db: AppDb<R>): AppDb<R> {
    AppDb(SshKeysIsGlobal.Clean(SshKeysIsGlobal.Truths(db.isGlobal)),
          ServicesDefault.ServicesDb(false, ServicesDefault.Repair(db.services.rows)), db.rest)
  }

  lemma RunsSucceed<R(!new)>(db: AppDb<R>)
    ensures RunUp(Convert(), db) == Ran(db.(isGlobal := Repaired(db).isGlobal), true)
    ensures RunUp(Fix(), db) == Ran(db.(services := Repaired(db).services), true)
  {
    hide RunUp, CutUp;
    RunLift(ColumnLens(), SshKeysIsGlobal.CONVERT_IS_GLOBAL, db, 0);
    SshKeysIsGlobal.CleanRun(db.isGlobal);
    RunLift(ServicesLens(), ServicesDefault.FIX_SERVICES_IS_DEFAULT, db, 0);
    ServicesDefault.FixOutcome(db.services, 0);
  }

  /** Both are registered and pending, and everything else registered is recorded. */
  ghost predicate OnlyBothPending<R(!new)>(ms: seq<Migration<AppDb<R>>>, ran: seq<string>) {
    && Convert() in ms && Fix() in ms && Convert<R>().id !in ran && Fix<R>().id !in ran
    && forall m :: m in ms && m.id !in ran ==> m == Convert() || m == Fix()
  }

  lemma PendingBoth<R(!new)>(ms: seq<Migration<AppDb<R>>>, ran: seq<string>)
    requires Distinct(ms) && OnlyBothPending(ms, ran)
    ensures Pending(ms, ran) == [Convert(), Fix()]
  {
    hide Pending, Distinct;
    assert Convert<R>().timestamp < Fix<R>().timestamp;
    PendingExactly(ms, ran);
    var both: seq<Migration<AppDb<R>>> := [Convert(), Fix()];
    assert forall m :: m in Pending(ms, ran) <==> m in both;
    SortedUnique(Pending(ms, ran), both);
  }

  /** However the two are registered, and wherever earlier calls were interrupted, one undisturbed Migrate leaves
      is_global clean, the defaults repaired, all else as it was, and both recorded in timestamp order. */
  lemma InterruptedMigrationsConverge<R(!new)>(
    ms: seq<Migration<AppDb<R>>>, s0: State<AppDb<R>>, faults: seq<Fault>)
    requires Distinct(ms) && OnlyBothPending(ms, Ids(s0.records))
    ensures var r := MigrateSpec(ms, Calls(ms, s0, faults), NoFault);
            && r.ok && r.state.db == Repaired(s0.db)
            && Ids(r.state.records) == Ids(s0.records) + [Convert<R>().id, Fix<R>().id]
  {
    hide RunUp, CutUp, Calls, MigrateSpec, Convert, Fix, Repaired, Pending, RestartableStops;
    PendingBoth(ms, Ids(s0.records));
    CleanBoth(ms, s0);
    BothRestartable<R>();
    PendingRestartable(ms, s0, faults);
    CrashRecovery(ms, s0, faults);
  }

  lemma CleanBoth<R(!new)>(ms: seq<Migration<AppDb<R>>>, s0: State<AppDb<R>>)
    requires Distinct(ms) && Pending(ms, Ids(s0.records)) == [Convert(), Fix()]
    ensures var clean := MigrateSpec(ms, s0, NoFault);
            && clean.ok && clean.state.db == Repaired(s0.db)
            && Ids(clean.state.records) == Ids(s0.records) + [Convert<R>().id, Fix<R>().id]
  {
    hide RunUp, CutUp, Pending, Repaired, Convert, Fix, MigrateSpec, Ids, MaxBatch;
    var both: seq<Migration<AppDb<R>>> := [Convert(), Fix()];
    var db := s0.db;
    var n := MigrateCompletesPrefix(ms, s0, NoFault);
    RunsSucceed(db);
    RunsSucceed(db.(isGlobal := Repaired(db).isGlobal));
    RepairedParts(db);
    assert DbAfter(both, db, 0) == db;
    assert DbAfter(both, db, 1) == db.(isGlobal := Repaired(db).isGlobal);
    assert DbAfter(both, db, 2) == Repaired(db);
    assert n == 2 && both[..2] == both;
    IdsAppend(s0.records, Marks(both, MaxBatch(s0.records) + 1));
    assert MigrationIds(both) == [Convert<R>().id, Fix<R>().id];
  }

  lemma RepairedParts<R(!new)>(db: AppDb<R>)
    ensures Repaired(db.(isGlobal := Repaired(db).isGlobal)).services == Repaired(db).services
    ensures Repaired(db).rest == db.rest
  {
  }
}
