/** Migration 0010: team_id columns, backfilled table by table from the parent each row points to. */
module TeamIdBackfill {
  import opened Options
  import opened Migrations

  /** A row: the ids in its foreign-key columns (a NULL key is absent) and its team_id. */
  datatype Row = Row(keys: map<string, string>, teamId: Option<string>)

  datatype Table = Table(rows: map<string, Row>, hasTeamId: bool, notNull: bool, indexed: bool, constrained: bool)

  datatype Db = Db(tables: map<string, Table>, teams: set<string>)

  datatype TableConfig = TableConfig(table: string, parentTable: string, parentFK: string)

  // ---------- the statements, with the errors Postgres reports ----------

  function Put(db: Db, name: string, t: Table): Db {
    db.(tables := db.tables[name := t])
  }

  function WithNullColumn(t: Table): Table {
    t.(hasTeamId := true, notNull := false, rows := map id | id in t.rows :: t.rows[id].(teamId := None))
  }

  /** ALTER TABLE ... ADD COLUMN team_id CHAR(26) NULL. */
  function AddColumn(name: string, db: Db): Option<Db> {
    if name in db.tables && !db.tables[name].hasTeamId
    then Some(Put(db, name, WithNullColumn(db.tables[name])))
    else None
  }

  /** UPDATE t SET team_id = p.team_id FROM parent p WHERE t.fk = p.id: unmatched rows keep their value. */
  function FilledRow(row: Row, fk: string, parent: Table): Row {
    if fk in row.keys && row.keys[fk] in parent.rows
    then row.(teamId := parent.rows[row.keys[fk]].teamId)
    else row
  }

  function Backfill(cfg: TableConfig, db: Db): Option<Db> {
    if cfg.table in db.tables && cfg.parentTable in db.tables &&
       db.tables[cfg.table].hasTeamId && db.tables[cfg.parentTable].hasTeamId
    then
      var t, parent := db.tables[cfg.table], db.tables[cfg.parentTable];
      Some(Put(db, cfg.table, t.(rows := map id | id in t.rows :: FilledRow(t.rows[id], cfg.parentFK, parent))))
    else None
  }

  /** What the backfill statement does: it gives each row that has a parent the parent's team_id, and leaves all other
      rows, all keys and all other tables as they are. */
  lemma BackfillMeaning(cfg: TableConfig, db: Db, table: string, id: string)
    requires Backfill(cfg, db).Some? && table in db.tables && id in db.tables[table].rows
    ensures var after, row := Backfill(cfg, db).value, db.tables[table].rows[id];
            && after.teams == db.teams && after.tables.Keys == db.tables.Keys
            && id in after.tables[table].rows && after.tables[table].rows[id].keys == row.keys
            && after.tables[table].rows[id].teamId ==
               if table == cfg.table && cfg.parentFK in row.keys && cfg.parentTable in db.tables &&
                  row.keys[cfg.parentFK] in db.tables[cfg.parentTable].rows
               then db.tables[cfg.parentTable].rows[row.keys[cfg.parentFK]].teamId
               else row.teamId
  {
  }

  function SetNotNull(name: string, db: Db): Option<Db> {
    if name in db.tables && db.tables[name].hasTeamId &&
       (forall id | id in db.tables[name].rows :: db.tables[name].rows[id].teamId.Some?)
    then Some(Put(db, name, db.tables[name].(notNull := true)))
    else None
  }

  function CreateIndex(name: string, db: Db): Option<Db> {
    if name in db.tables && !db.tables[name].indexed
    then Some(Put(db, name, db.tables[name].(indexed := true)))
    else None
  }

  /** The foreign key to teams(id) holds for every team_id that is not NULL. */
  function AddForeignKey(name: string, db: Db): Option<Db> {
    if name in db.tables && !db.tables[name].constrained &&
       (forall id | id in db.tables[name].rows ::
          db.tables[name].rows[id].teamId.Some? ==> db.tables[name].rows[id].teamId.value in db.teams)
    then Some(Put(db, name, db.tables[name].(constrained := true)))
    else None
  }

  function ColumnSteps(cfg: TableConfig): seq<Statement<Db>> {
    [db => AddColumn(cfg.table, db), db => Backfill(cfg, db), db => SetNotNull(cfg.table, db),
     db => CreateIndex(cfg.table, db), db => AddForeignKey(cfg.table, db)]
  }

  function AllColumnSteps(cfgs: seq<TableConfig>): seq<Statement<Db>> {
    if cfgs == [] then [] else AllColumnSteps(cfgs[..|cfgs| - 1]) + ColumnSteps(cfgs[|cfgs| - 1])
  }

  function NotNullSteps(names: seq<string>): seq<Statement<Db>> {
    if names == [] then [] else NotNullSteps(names[..|names| - 1]) + [db => SetNotNull(names[|names| - 1], db)]
  }

  // ---------- one table ----------

  function FilledTable(t: Table, fk: string, parent: Table): Table {
    Table(map id | id in t.rows :: FilledRow(t.rows[id].(teamId := None), fk, parent), true, true, true, true)
  }

  /** Exactly when the five statements for one table succeed. */
  ghost predicate ColumnReady(cfg: TableConfig, db: Db) {
    && cfg.table in db.tables && cfg.parentTable in db.tables
    && var t, parent := db.tables[cfg.table], db.tables[cfg.parentTable];
      && !t.hasTeamId && !t.indexed && !t.constrained
      && (parent.hasTeamId || (cfg.parentTable == cfg.table && t.rows == map[]))
      && forall id :: id in t.rows ==>
        && cfg.parentFK in t.rows[id].keys && t.rows[id].keys[cfg.parentFK] in parent.rows
        && var team := parent.rows[t.rows[id].keys[cfg.parentFK]].teamId;
          team.Some? && team.value in db.teams
  }

  /** The five statements in a row, as far as none fails. */
  function AddTeamIDColumn(cfg: TableConfig, db: Db): Option<Db> {
    match AddColumn(cfg.table, db)
    case None => None
    case Some(d1) =>
      match Backfill(cfg, d1)
      case None => None
      case Some(d2) =>
        match SetNotNull(cfg.table, d2)
        case None => None
        case Some(d3) =>
          match CreateIndex(cfg.table, d3)
          case None => None
          case Some(d4) => AddForeignKey(cfg.table, d4)
  }

  lemma ExecIsChain(cfg: TableConfig, db: Db)
    ensures Exec(ColumnSteps(cfg), db).ok <==> AddTeamIDColumn(cfg, db).Some?
    ensures AddTeamIDColumn(cfg, db).Some? ==> Exec(ColumnSteps(cfg), db).db == AddTeamIDColumn(cfg, db).value
  {
  }

  lemma ExecNone(db: Db)
    ensures forall d :: Exec<Db>([], d) == Ran(d, true)
  {
  }

  lemma PutTwice(db: Db, name: string, a: Table, b: Table)
    ensures Put(Put(db, name, a), name, b) == Put(db, name, b)
  {
  }

  /** The table after the backfill statement, before the constraints. */
  lemma Backfilled(cfg: TableConfig, db: Db)
    requires cfg.table in db.tables && !db.tables[cfg.table].hasTeamId
    requires cfg.parentTable in db.tables && cfg.parentTable != cfg.table && db.tables[cfg.parentTable].hasTeamId
    ensures var t := db.tables[cfg.table];
            var filled := FilledTable(t, cfg.parentFK, db.tables[cfg.parentTable]);
            Backfill(cfg, AddColumn(cfg.table, db).value)
            == Some(Put(db, cfg.table, filled.(notNull := false, indexed := t.indexed, constrained := t.constrained)))
  {
    hide FilledRow;
    var t, parent := db.tables[cfg.table], db.tables[cfg.parentTable];
    var d1 := AddColumn(cfg.table, db).value;
    assert d1.tables[cfg.parentTable] == parent;
    var done := Backfill(cfg, d1).value.tables[cfg.table];
    PutTwice(db, cfg.table, WithNullColumn(t), done);
    assert done.rows == FilledTable(t, cfg.parentFK, parent).rows;
  }

  /** The backfill leaves no NULL and no stray team exactly when every row points to a parent with a team. */
  lemma FilledCompleteIff(t: Table, fk: string, parent: Table, teams: set<string>)
    ensures (forall id :: id in t.rows ==>
              var team := FilledTable(t, fk, parent).rows[id].teamId; team.Some? && team.value in teams)
      <==> (forall id :: id in t.rows ==>
        && fk in t.rows[id].keys && t.rows[id].keys[fk] in parent.rows
        && var team := parent.rows[t.rows[id].keys[fk]].teamId;
          team.Some? && team.value in teams)
  {
    assert forall id :: id in t.rows ==>
      FilledTable(t, fk, parent).rows[id] == FilledRow(t.rows[id].(teamId := None), fk, parent);
  }

  /** The three statements after the backfill. */
  lemma Constrained(cfg: TableConfig, db: Db)
    requires cfg.table in db.tables && !db.tables[cfg.table].hasTeamId
    requires cfg.parentTable in db.tables && cfg.parentTable != cfg.table && db.tables[cfg.parentTable].hasTeamId
    ensures AddTeamIDColumn(cfg, db).Some? <==> ColumnReady(cfg, db)
    ensures ColumnReady(cfg, db) ==>
      AddTeamIDColumn(cfg, db)
      == Some(Put(db, cfg.table, FilledTable(db.tables[cfg.table], cfg.parentFK, db.tables[cfg.parentTable])))
  {
    hide Backfill, AddColumn, FilledRow;
    Backfilled(cfg, db);
    var t, parent := db.tables[cfg.table], db.tables[cfg.parentTable];
    var filled := FilledTable(t, cfg.parentFK, parent);
    assert AddColumn(cfg.table, db).Some? by { AddColumnRuns(cfg.table, db); }
    FilledCompleteIff(t, cfg.parentFK, parent, db.teams);
    var d2 := Put(db, cfg.table, filled.(notNull := false, indexed := t.indexed, constrained := t.constrained));
    var d3 := Put(db, cfg.table, filled.(indexed := t.indexed, constrained := t.constrained));
    var d4 := Put(db, cfg.table, filled.(constrained := t.constrained));
    PutTwice(db, cfg.table, d2.tables[cfg.table], d3.tables[cfg.table]);
    PutTwice(db, cfg.table, d3.tables[cfg.table], d4.tables[cfg.table]);
    PutTwice(db, cfg.table, d4.tables[cfg.table], filled);
  }

  /** A table that is its own parent finds only the NULLs just added, so it must be empty. */
  lemma SelfParent(cfg: TableConfig, db: Db)
    requires cfg.table in db.tables && cfg.parentTable == cfg.table && !db.tables[cfg.table].hasTeamId
    ensures AddTeamIDColumn(cfg, db).Some? <==> ColumnReady(cfg, db)
    ensures ColumnReady(cfg, db) ==>
      AddTeamIDColumn(cfg, db)
      == Some(Put(db, cfg.table, FilledTable(db.tables[cfg.table], cfg.parentFK, db.tables[cfg.parentTable])))
  {
    var t := db.tables[cfg.table];
    var d1 := AddColumn(cfg.table, db).value;
    var d2 := Backfill(cfg, d1).value;
    assert forall id :: id in t.rows ==> d2.tables[cfg.table].rows[id].teamId == None;
    if t.rows == map[] {
      var done := FilledTable(t, cfg.parentFK, t);
      assert d2.tables[cfg.table].rows == map[] == done.rows;
      var t2 := done.(notNull := false, indexed := t.indexed, constrained := t.constrained);
      var t3 := done.(indexed := t.indexed, constrained := t.constrained);
      var t4 := done.(constrained := t.constrained);
      PutTwice(db, cfg.table, WithNullColumn(t), t2);
      PutTwice(db, cfg.table, t2, t3);
      PutTwice(db, cfg.table, t3, t4);
      PutTwice(db, cfg.table, t4, done);
      assert d2 == Put(db, cfg.table, t2);
    } else {
      var ids := t.rows.Keys;
      assert exists id :: id in t.rows;
    }
  }

  lemma AddColumnRuns(name: string, db: Db)
    requires name in db.tables && !db.tables[name].hasTeamId
    ensures AddColumn(name, db).Some?
  {
  }

  /** The outcome of one table's statements: success exactly when ready, and then only that table changes. */
  lemma ColumnOutcome(cfg: TableConfig, db: Db)
    ensures Exec(ColumnSteps(cfg), db).ok <==> ColumnReady(cfg, db)
    ensures ColumnReady(cfg, db) ==>
      Exec(ColumnSteps(cfg), db).db
      == Put(db, cfg.table, FilledTable(db.tables[cfg.table], cfg.parentFK, db.tables[cfg.parentTable]))
  {
    hide Exec, ColumnSteps;
    ExecIsChain(cfg, db);
    if cfg.table in db.tables && !db.tables[cfg.table].hasTeamId && cfg.parentTable in db.tables {
      if cfg.parentTable != cfg.table && db.tables[cfg.parentTable].hasTeamId {
        Constrained(cfg, db);
      } else if cfg.parentTable == cfg.table {
        SelfParent(cfg, db);
      }
    }
  }

  // ---------- the whole list ----------

  predicate Listed(cfgs: seq<TableConfig>, table: string) {
    exists i | 0 <= i < |cfgs| :: cfgs[i].table == table
  }

  /** The team of the row that foreign keys lead to, followed from table to table until one not in the list. */
  function RootTeam(cfgs: seq<TableConfig>, db: Db, table: string, id: string): Option<string>
    decreases |cfgs|
  {
    if table !in db.tables || id !in db.tables[table].rows then None
    else if cfgs == [] then db.tables[table].rows[id].teamId
    else
      var front, last := cfgs[..|cfgs| - 1], cfgs[|cfgs| - 1];
      var keys := db.tables[table].rows[id].keys;
      if last.table != table then RootTeam(front, db, table, id)
      else if last.parentFK in keys then RootTeam(front, db, last.parentTable, keys[last.parentFK])
      else None
  }

  /** What the i-th entry needs of the database before the migration: a table without team_id not listed before,
      a parent with team_id or listed before, and every row on a chain of existing rows to an existing team. */
  ghost predicate EntryReady(cfgs: seq<TableConfig>, db: Db, i: nat)
    requires i < |cfgs|
  {
    var c, front := cfgs[i], cfgs[..i];
    && c.table in db.tables && c.parentTable in db.tables && !Listed(front, c.table)
    && var t, parent := db.tables[c.table], db.tables[c.parentTable];
      && !t.hasTeamId && !t.indexed && !t.constrained
      && (parent.hasTeamId || Listed(front, c.parentTable) || (c.parentTable == c.table && t.rows == map[]))
      && forall id :: id in t.rows ==>
        && c.parentFK in t.rows[id].keys
        && var team := RootTeam(front, db, c.parentTable, t.rows[id].keys[c.parentFK]);
          team.Some? && team.value in db.teams
  }

  /** Every row of the entry's table has the team_id of the parent row it points to. */
  ghost predicate Linked(db: Db, c: TableConfig) {
    && c.table in db.tables && db.tables[c.table].hasTeamId && db.tables[c.table].notNull
    && forall id :: id in db.tables[c.table].rows ==>
      var row := db.tables[c.table].rows[id];
      && row.teamId.Some? && row.teamId.value in db.teams
      && c.parentTable in db.tables && db.tables[c.parentTable].hasTeamId
      && c.parentFK in row.keys && row.keys[c.parentFK] in db.tables[c.parentTable].rows
      && row.teamId == db.tables[c.parentTable].rows[row.keys[c.parentFK]].teamId
  }

  /** Teams, table names, rows and keys are kept, and tables not listed are untouched. */
  ghost predicate Framed(cfgs: seq<TableConfig>, before: Db, db: Db) {
    && db.teams == before.teams && db.tables.Keys == before.tables.Keys
    && (forall table :: table in db.tables && !Listed(cfgs, table) ==> db.tables[table] == before.tables[table])
    && (forall table :: table in db.tables ==> db.tables[table].rows.Keys == before.tables[table].rows.Keys)
    && (forall table, id :: table in db.tables && id in db.tables[table].rows ==>
          db.tables[table].rows[id].keys == before.tables[table].rows[id].keys)
  }

  /** Every team_id is the one of its root row before the migration. */
  ghost predicate Rooted(cfgs: seq<TableConfig>, before: Db, db: Db) {
    forall table, id :: table in db.tables && db.tables[table].hasTeamId && id in db.tables[table].rows ==>
      db.tables[table].rows[id].teamId == RootTeam(cfgs, before, table, id)
  }

  /** The database once the listed tables are filled. */
  ghost predicate Filled(cfgs: seq<TableConfig>, before: Db, db: Db) {
    Framed(cfgs, before, db) && Rooted(cfgs, before, db) && forall i :: 0 <= i < |cfgs| ==> Linked(db, cfgs[i])
  }

  lemma ListedSnoc(front: seq<TableConfig>, last: TableConfig, table: string)
    ensures Listed(front + [last], table) <==> Listed(front, table) || last.table == table
  {
    var cfgs := front + [last];
    if Listed(front, table) {
      var i :| 0 <= i < |front| && front[i].table == table;
      assert cfgs[i].table == table;
    }
    assert cfgs[|front|] == last;
  }

  lemma ReadyNext(front: seq<TableConfig>, last: TableConfig, before: Db, db: Db)
    requires Filled(front, before, db)
    ensures ColumnReady(last, db) <==> EntryReady(front + [last], before, |front|)
  {
  }

  function FillOne(last: TableConfig, db: Db): Db
    requires last.table in db.tables && last.parentTable in db.tables
  {
    Put(db, last.table, FilledTable(db.tables[last.table], last.parentFK, db.tables[last.parentTable]))
  }

  lemma FilledTableKeeps(t: Table, fk: string, parent: Table)
    ensures FilledTable(t, fk, parent).rows.Keys == t.rows.Keys
    ensures forall id :: id in t.rows ==> FilledTable(t, fk, parent).rows[id].keys == t.rows[id].keys
  {
  }

  lemma FramedNext(front: seq<TableConfig>, last: TableConfig, before: Db, db: Db)
    requires Framed(front, before, db) && ColumnReady(last, db)
    ensures Framed(front + [last], before, FillOne(last, db))
  {
    assert last.table in db.tables && last.parentTable in db.tables;
    hide Listed, ColumnReady, FilledTable, FilledRow;
    forall table ensures Listed(front + [last], table) <==> Listed(front, table) || last.table == table {
      ListedSnoc(front, last, table);
    }
    FilledTableKeeps(db.tables[last.table], last.parentFK, db.tables[last.parentTable]);
  }

  lemma RootedNext(front: seq<TableConfig>, last: TableConfig, before: Db, db: Db)
    requires Framed(front, before, db) && Rooted(front, before, db) && ColumnReady(last, db)
    ensures Rooted(front + [last], before, FillOne(last, db))
  {
    hide Listed;
    var cfgs := front + [last];
    assert cfgs[..|front|] == front && cfgs[|front|] == last;
  }

  lemma LinkedNext(front: seq<TableConfig>, last: TableConfig, db: Db, i: nat)
    requires ColumnReady(last, db) && forall i :: 0 <= i < |front| ==> Linked(db, front[i])
    requires i <= |front|
    ensures Linked(FillOne(last, db), (front + [last])[i])
  {
  }

  lemma FilledNext(front: seq<TableConfig>, last: TableConfig, before: Db, db: Db)
    requires Filled(front, before, db) && ColumnReady(last, db)
    ensures Filled(front + [last], before, FillOne(last, db))
  {
    hide Framed, Rooted, Linked;
    FramedNext(front, last, before, db);
    RootedNext(front, last, before, db);
    forall i | 0 <= i < |front + [last]| ensures Linked(FillOne(last, db), (front + [last])[i]) {
      LinkedNext(front, last, db, i);
    }
  }

  ghost predicate AllReady(cfgs: seq<TableConfig>, before: Db) {
    forall i :: 0 <= i < |cfgs| ==> EntryReady(cfgs, before, i)
  }

  lemma AllReadySnoc(front: seq<TableConfig>, last: TableConfig, before: Db)
    ensures AllReady(front + [last], before) <==> AllReady(front, before) && EntryReady(front + [last], before, |front|)
  {
    hide EntryReady;
    var cfgs := front + [last];
    forall i | 0 <= i < |front| ensures EntryReady(cfgs, before, i) <==> EntryReady(front, before, i) {
      EntryPrefix(front, last, before, i);
    }
    if AllReady(cfgs, before) {
      forall i | 0 <= i < |front| ensures EntryReady(front, before, i) {
        assert EntryReady(cfgs, before, i);
      }
    }
  }

  /** The backfill of a list succeeds exactly when every entry is ready for it, and then fills every table. */
  lemma {:induction false} BackfillIff(cfgs: seq<TableConfig>, before: Db)
    ensures var r := Exec(AllColumnSteps(cfgs), before);
            && (r.ok <==> AllReady(cfgs, before))
            && (r.ok ==> Filled(cfgs, before, r.db))
    decreases |cfgs|
  {
    hide EntryReady, ColumnReady, ColumnSteps, Exec, Filled, AllReady;
    if cfgs == [] {
      ExecNone(before);
      NothingFilled(before);
    } else {
      var front, last := cfgs[..|cfgs| - 1], cfgs[|cfgs| - 1];
      assert cfgs == front + [last];
      BackfillIff(front, before);
      ExecAppend(AllColumnSteps(front), ColumnSteps(last), before);
      AllReadySnoc(front, last, before);
      var r := Exec(AllColumnSteps(front), before);
      if r.ok {
        ReadyNext(front, last, before, r.db);
        ColumnOutcome(last, r.db);
        if ColumnReady(last, r.db) {
          ReadyTables(last, r.db);
          FilledNext(front, last, before, r.db);
        }
      }
    }
  }

  lemma NothingFilled(db: Db)
    ensures Filled([], db, db) && AllReady([], db)
  {
  }

  lemma EntryPrefix(front: seq<TableConfig>, last: TableConfig, before: Db, i: nat)
    requires i < |front|
    ensures EntryReady(front + [last], before, i) <==> EntryReady(front, before, i)
  {
    assert (front + [last])[..i] == front[..i];
  }

  lemma ReadyTables(cfg: TableConfig, db: Db)
    requires ColumnReady(cfg, db)
    ensures cfg.table in db.tables && cfg.parentTable in db.tables
  {
  }

  // ---------- the NOT NULL loop and the whole migration ----------

  /** Same rows and same columns; only NOT NULL marks may have been added. */
  ghost predicate OnlyMarked(before: Db, db: Db) {
    && db.teams == before.teams && db.tables.Keys == before.tables.Keys
    && forall table :: table in db.tables ==>
      db.tables[table].(notNull := true) == before.tables[table].(notNull := true) &&
      (before.tables[table].notNull ==> db.tables[table].notNull)
  }

  ghost predicate NoNullTeams(db: Db, name: string) {
    && name in db.tables && db.tables[name].hasTeamId
    && forall id :: id in db.tables[name].rows ==> db.tables[name].rows[id].teamId.Some?
  }

  lemma SameNulls(before: Db, db: Db, name: string)
    requires OnlyMarked(before, db)
    ensures NoNullTeams(db, name) <==> NoNullTeams(before, name)
  {
  }

  lemma {:induction false} NotNullIff(names: seq<string>, before: Db)
    ensures var r := Exec(NotNullSteps(names), before);
            && (r.ok <==> forall name :: name in names ==> NoNullTeams(before, name))
            && OnlyMarked(before, r.db)
            && (r.ok ==> forall name :: name in names ==> r.db.tables[name].notNull)
    decreases |names|
  {
    if names != [] {
      var front, last := names[..|names| - 1], names[|names| - 1];
      var step: Statement<Db> := db => SetNotNull(last, db);
      assert names == front + [last];
      NotNullIff(front, before);
      ExecAppend(NotNullSteps(front), [step], before);
      assert NotNullSteps(names) == NotNullSteps(front) + [step];
      var mid := Exec(NotNullSteps(front), before).db;
      ExecOne(step, mid);
      SameNulls(before, mid, last);
      assert step(mid).Some? <==> NoNullTeams(mid, last);
      assert forall name :: name in names <==> name in front || name == last;
    }
  }

  function UpSteps(cfgs: seq<TableConfig>, nullable: seq<string>): seq<Statement<Db>> {
    AllColumnSteps(cfgs) + NotNullSteps(nullable)
  }

  /** For any table list, a successful run leaves every row of every listed table with a non-NULL team_id equal
      to its parent's and to its root's, and changes no row of a table that was filled before. */
  lemma TeamIdsFollowRoots(cfgs: seq<TableConfig>, nullable: seq<string>, before: Db)
    requires Exec(UpSteps(cfgs, nullable), before).ok
    ensures var db := Exec(UpSteps(cfgs, nullable), before).db;
            && (forall i :: 0 <= i < |cfgs| ==> Linked(db, cfgs[i]))
            && Rooted(cfgs, before, db)
            && db.tables.Keys == before.tables.Keys
            && (forall table :: table in db.tables && before.tables[table].hasTeamId ==>
                  db.tables[table].rows == before.tables[table].rows)
            && (forall name :: name in nullable ==> name in db.tables && db.tables[name].notNull)
  {
    hide Exec, EntryReady;
    ExecAppend(AllColumnSteps(cfgs), NotNullSteps(nullable), before);
    BackfillIff(cfgs, before);
    var mid := Exec(AllColumnSteps(cfgs), before).db;
    NotNullIff(nullable, mid);
    assert forall i :: 0 <= i < |cfgs| ==> Linked(mid, cfgs[i]);
    FilledTablesWereEmpty(cfgs, before);
  }

  lemma FilledTablesWereEmpty(cfgs: seq<TableConfig>, before: Db)
    requires AllReady(cfgs, before)
    ensures forall table :: table in before.tables && before.tables[table].hasTeamId ==> !Listed(cfgs, table)
  {
    hide RootTeam;
    forall table | table in before.tables && Listed(cfgs, table) ensures !before.tables[table].hasTeamId {
      var i :| 0 <= i < |cfgs| && cfgs[i].table == table;
      assert EntryReady(cfgs, before, i);
    }
  }

  // ---------- the migration as registered ----------

  const TABLES_TO_UPDATE: seq<TableConfig> := [
    TableConfig("sites", "servers", "server_id"),
    TableConfig("databases", "servers", "server_id"),
    TableConfig("backups", "servers", "server_id"),
    TableConfig("database_users", "servers", "server_id"),
    TableConfig("certificates", "sites", "site_id"),
    TableConfig("commands", "sites", "site_id"),
    TableConfig("deployments", "sites", "site_id"),
    TableConfig("queues", "sites", "site_id"),
    TableConfig("redirects", "sites", "site_id"),
    TableConfig("backup_jobs", "backups", "backup_id"),
    TableConfig("dns_records", "domains", "domain_id")
  ]

  const EXISTING_NULLABLE_TABLES: seq<string> := ["source_controls", "domains", "domain_providers", "storage_providers"]

  function AddTeamIdMigration(cfgs: seq<TableConfig>, nullable: seq<string>): Migration<Db> {
    Migration("0010_01_18_000000_add_team_id_to_all_tables", 1263772800, db => UpSteps(cfgs, nullable))
  }

  const ADD_TEAM_ID: Migration<Db> := AddTeamIdMigration(TABLES_TO_UPDATE, EXISTING_NULLABLE_TABLES)

  /** The registered list is in dependency order: each parent is servers or domains, or is listed earlier; and no
      table is listed twice. */
  lemma RegisteredOrder()
    ensures forall i :: 0 <= i < |TABLES_TO_UPDATE| ==>
              && !Listed(TABLES_TO_UPDATE[..i], TABLES_TO_UPDATE[i].table)
              && (TABLES_TO_UPDATE[i].parentTable in ["servers", "domains"] ||
                  Listed(TABLES_TO_UPDATE[..i], TABLES_TO_UPDATE[i].parentTable))
  {
    var t := TABLES_TO_UPDATE;
    forall i | 0 <= i < |t|
      ensures !Listed(t[..i], t[i].table) &&
              (t[i].parentTable in ["servers", "domains"] || Listed(t[..i], t[i].parentTable))
    {
      if 4 <= i < 9 {
        assert t[..i][0].table == "sites";
      } else if i == 9 {
        assert t[..i][2].table == "backups";
      }
    }
  }

  class TeamIdSchema {
    var db: Db

    constructor (db: Db)
      ensures this.db == db
    {
      this.db := db;
    }

    method Execute(statement: Statement<Db>) returns (ok: bool)
      modifies this
      ensures ok == statement(old(db)).Some?
      ensures db == if ok then statement(old(db)).value else old(db)
    {
      var next := statement(db);
      ok := next.Some?;
      if ok {
        db := next.value;
      }
    }

    /** Runs one table's statements; on success exactly that table has been filled. */
    method AddTeamIDColumnFor(cfg: TableConfig) returns (ok: bool)
      modifies this
      ensures Ran(db, ok) == Exec(ColumnSteps(cfg), old(db))
    {
      ok := Execute(db => AddColumn(cfg.table, db));
      if ok {
        ok := Execute(db => Backfill(cfg, db));
      }
      if ok {
        ok := Execute(db => SetNotNull(cfg.table, db));
      }
      if ok {
        ok := Execute(db => CreateIndex(cfg.table, db));
      }
      if ok {
        ok := Execute(db => AddForeignKey(cfg.table, db));
      }
    }

    /** The migration: both loops stop at the first error, and together they run exactly the planned statements. */
    method AddTeamIDToAllTablesUp(cfgs: seq<TableConfig>, nullable: seq<string>) returns (ok: bool)
      modifies this
      ensures Ran(db, ok) == Exec(UpSteps(cfgs, nullable), old(db))
    {
      hide Exec, ColumnSteps;
      ghost var before := db;
      ExecNone(before);
      for i := 0 to |cfgs|
        invariant Ran(db, true) == Exec(AllColumnSteps(cfgs[..i]), before)
      {
        assert cfgs[..i + 1][..i] == cfgs[..i];
        ExecAppend(AllColumnSteps(cfgs[..i]), ColumnSteps(cfgs[i]), before);
        ok := AddTeamIDColumnFor(cfgs[i]);
        if !ok {
          ghost var rest := ColumnStepsPrefix(cfgs, i + 1);
          ExecAppend(AllColumnSteps(cfgs[..i + 1]), rest, before);
          ExecAppend(AllColumnSteps(cfgs), NotNullSteps(nullable), before);
          return;
        }
      }
      assert cfgs[..|cfgs|] == cfgs;
      ExecAppend(AllColumnSteps(cfgs), NotNullSteps(nullable), before);
      ghost var mid := db;
      ExecNone(mid);
      for i := 0 to |nullable|
        invariant Ran(db, true) == Exec(NotNullSteps(nullable[..i]), mid)
      {
        ghost var step: Statement<Db> := db => SetNotNull(nullable[i], db);
        assert nullable[..i + 1][..i] == nullable[..i];
        assert NotNullSteps(nullable[..i + 1]) == NotNullSteps(nullable[..i]) + [step];
        ExecAppend(NotNullSteps(nullable[..i]), [step], mid);
        ExecOne(step, db);
        ok := Execute(db => SetNotNull(nullable[i], db));
        if !ok {
          ghost var rest := NotNullStepsPrefix(nullable, i + 1);
          ExecAppend(NotNullSteps(nullable[..i + 1]), rest, mid);
          return;
        }
      }
      assert nullable[..|nullable|] == nullable;
      return true;
    }
  }

  lemma {:induction false} ColumnStepsPrefix(cfgs: seq<TableConfig>, i: nat) returns (rest: seq<Statement<Db>>)
    requires i <= |cfgs|
    ensures AllColumnSteps(cfgs) == AllColumnSteps(cfgs[..i]) + rest
    decreases |cfgs|
  {
    if i == |cfgs| {
      assert cfgs[..i] == cfgs;
      rest := [];
    } else {
      var front := cfgs[..|cfgs| - 1];
      rest := ColumnStepsPrefix(front, i);
      assert front[..i] == cfgs[..i];
      rest := rest + ColumnSteps(cfgs[|cfgs| - 1]);
    }
  }

  lemma {:induction false} NotNullStepsPrefix(names: seq<string>, i: nat) returns (rest: seq<Statement<Db>>)
    requires i <= |names|
    ensures NotNullSteps(names) == NotNullSteps(names[..i]) + rest
    decreases |names|
  {
    if i == |names| {
      assert names[..i] == names;
      rest := [];
    } else {
      var front := names[..|names| - 1];
      rest := NotNullStepsPrefix(front, i);
      assert front[..i] == names[..i];
      rest := rest + [NotNullSteps(names)[|NotNullSteps(names)| - 1]];
    }
  }

  // ---------- this migration cannot be restarted ----------

  ghost predicate KeepsColumn(statement: Statement<Db>, name: string) {
    forall db: Db :: name in db.tables && db.tables[name].hasTeamId && statement(db).Some? ==>
      name in statement(db).value.tables && statement(db).value.tables[name].hasTeamId
  }

  ghost predicate AllKeep(statements: seq<Statement<Db>>, name: string) {
    forall s :: s in statements ==> KeepsColumn(s, name)
  }

  lemma ColumnStepsKeep(cfg: TableConfig, name: string)
    ensures AllKeep(ColumnSteps(cfg), name)
  {
    var steps := ColumnSteps(cfg);
    assert KeepsColumn(steps[0], name);
    assert KeepsColumn(steps[1], name) by { hide FilledRow; }
    assert KeepsColumn(steps[2], name);
    assert KeepsColumn(steps[3], name);
    assert KeepsColumn(steps[4], name);
    hide KeepsColumn;
  }

  lemma {:induction false} AllColumnStepsKeep(cfgs: seq<TableConfig>, name: string)
    ensures AllKeep(AllColumnSteps(cfgs), name)
    decreases |cfgs|
  {
    hide KeepsColumn, ColumnSteps;
    if cfgs != [] {
      AllColumnStepsKeep(cfgs[..|cfgs| - 1], name);
      ColumnStepsKeep(cfgs[|cfgs| - 1], name);
    }
  }

  lemma {:induction false} NotNullStepsKeep(names: seq<string>, name: string)
    ensures AllKeep(NotNullSteps(names), name)
    decreases |names|
  {
    hide KeepsColumn;
    if names != [] {
      NotNullStepsKeep(names[..|names| - 1], name);
      NotNullKeeps(names[|names| - 1], name);
      var last: Statement<Db> := db => SetNotNull(names[|names| - 1], db);
      assert NotNullSteps(names) == NotNullSteps(names[..|names| - 1]) + [last];
    }
  }

  lemma NotNullKeeps(marked: string, name: string)
    ensures KeepsColumn(db => SetNotNull(marked, db), name)
  {
  }

  lemma {:induction false} ExecKeepsColumn(statements: seq<Statement<Db>>, db: Db, name: string)
    requires forall s :: s in statements ==> KeepsColumn(s, name)
    requires name in db.tables && db.tables[name].hasTeamId
    ensures var after := Exec(statements, db).db; name in after.tables && after.tables[name].hasTeamId
    decreases statements
  {
    if statements != [] && statements[0](db).Some? {
      assert KeepsColumn(statements[0], name);
      ExecKeepsColumn(statements[1..], statements[0](db).value, name);
    }
  }

  /** Once the first ADD COLUMN has committed, no later run of the migration succeeds; so where a clean run
      would succeed, a restart does so exactly when nothing had been done. */
  lemma RestartIff(cfgs: seq<TableConfig>, nullable: seq<string>, db: Db, done: nat)
    requires cfgs != [] && RunUp(AddTeamIdMigration(cfgs, nullable), db).ok
    ensures var m := AddTeamIdMigration(cfgs, nullable);
            RunUp(m, CutUp(m, db, done)).ok <==> done == 0
  {
    var steps := UpSteps(cfgs, nullable);
    var name := cfgs[0].table;
    var rest := ColumnStepsPrefix(cfgs, 1);
    assert cfgs[..1][..0] == [] && AllColumnSteps(cfgs[..1]) == ColumnSteps(cfgs[0]);
    assert steps[0] == ColumnSteps(cfgs[0])[0];
    var m := AddTeamIdMigration(cfgs, nullable);
    if done == 0 {
      ExecNone(db);
      assert steps[..0] == [];
    } else {
      var cut := if done < |steps| then steps[..done] else steps;
      AllColumnStepsKeep(cfgs, name);
      NotNullStepsKeep(nullable, name);
      assert forall s :: s in cut[1..] ==> s in steps;
      ExecKeepsColumn(cut[1..], steps[0](db).value, name);
      assert Exec(cut, db) == Exec(cut[1..], steps[0](db).value);
      assert steps[0](CutUp(m, db, done)) == None;
    }
  }

  /** A schema with no rows yet, in which exactly the tables not listed have a team_id. */
  function EmptySchema(cfgs: seq<TableConfig>, nullable: seq<string>): Db {
    var names := (set c | c in cfgs :: c.table) + (set c | c in cfgs :: c.parentTable) + (set n | n in nullable);
    Db(map name | name in names :: Table(map[], !Listed(cfgs, name), false, false, false), {})
  }

  lemma EmptyTableReady(cfgs: seq<TableConfig>, db: Db, i: nat)
    requires i < |cfgs| && !Listed(cfgs[..i], cfgs[i].table)
    requires cfgs[i].table in db.tables && cfgs[i].parentTable in db.tables
    requires db.tables[cfgs[i].table] == Table(map[], false, false, false, false)
    requires db.tables[cfgs[i].parentTable].hasTeamId || Listed(cfgs[..i], cfgs[i].parentTable)
    ensures EntryReady(cfgs, db, i)
  {
  }

  lemma EmptySchemaRuns(cfgs: seq<TableConfig>, nullable: seq<string>)
    requires forall i :: 0 <= i < |cfgs| ==>
               && !Listed(cfgs[..i], cfgs[i].table)
               && (Listed(cfgs, cfgs[i].parentTable) ==> Listed(cfgs[..i], cfgs[i].parentTable))
    requires forall name :: name in nullable ==> !Listed(cfgs, name)
    ensures RunUp(AddTeamIdMigration(cfgs, nullable), EmptySchema(cfgs, nullable)).ok
  {
    hide Exec, EntryReady, Filled;
    var db := EmptySchema(cfgs, nullable);
    forall i | 0 <= i < |cfgs| ensures EntryReady(cfgs, db, i) {
      assert cfgs[i] in cfgs;
      EmptyTableReady(cfgs, db, i);
    }
    BackfillIff(cfgs, db);
    var mid := Exec(AllColumnSteps(cfgs), db).db;
    forall name | name in nullable ensures NoNullTeams(mid, name) {
      EmptyStaysEmpty(cfgs, db, mid, name);
    }
    NotNullIff(nullable, mid);
    ExecAppend(AllColumnSteps(cfgs), NotNullSteps(nullable), db);
  }

  lemma EmptyStaysEmpty(cfgs: seq<TableConfig>, db: Db, mid: Db, name: string)
    requires Filled(cfgs, db, mid) && name in db.tables && !Listed(cfgs, name)
    requires db.tables[name].hasTeamId && db.tables[name].rows == map[]
    ensures NoNullTeams(mid, name)
  {
  }

  /** Tables that no entry of the registered list fills. */
  lemma RootsAreNotListed()
    ensures forall name :: name in EXISTING_NULLABLE_TABLES + ["servers"] ==> !Listed(TABLES_TO_UPDATE, name)
  {
  }

  /** So the registered migration does not meet the migrator's condition for crash recovery. */
  lemma AddTeamIdIsNotRestartable()
    ensures !Restartable(ADD_TEAM_ID)
  {
    hide RunUp, CutUp;
    var cfgs, nullable := TABLES_TO_UPDATE, EXISTING_NULLABLE_TABLES;
    var db := EmptySchema(cfgs, nullable);
    RegisteredOrder();
    RootsAreNotListed();
    EmptySchemaRuns(cfgs, nullable);
    RestartIff(cfgs, nullable, db, 1);
    assert RunUp(ADD_TEAM_ID, CutUp(ADD_TEAM_ID, db, 1)) != RunUp(ADD_TEAM_ID, db);
  }
}
