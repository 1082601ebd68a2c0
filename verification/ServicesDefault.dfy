/** Migration 0054: one default service for each (server, type), decided by a correlated UPDATE. */
module ServicesDefault {
  import opened Options
  import opened Migrations
  import opened Sets

  /** The columns the repair reads; created_at is nullable. */
  datatype Service = Service(serverId: string, kind: string, isDefault: bool, createdAt: Option<int>)

  /** Rows by primary key; keys are compared as the database orders ids. */
  type Table = map<int, Service>

  /** SQL's `older.created_at < s.created_at OR (older.created_at = s.created_at AND older.id < s.id)`:
      a NULL on either side makes both comparisons unknown. */
  predicate Precedes(t: Table, older: int, id: int)
    requires older in t && id in t
  {
    && t[older].createdAt.Some? && t[id].createdAt.Some?
    && (t[older].createdAt.value < t[id].createdAt.value ||
        (t[older].createdAt.value == t[id].createdAt.value && older < id))
  }

  predicate SameGroup(t: Table, a: int, b: int)
    requires a in t && b in t
  {
    t[a].serverId == t[b].serverId && t[a].kind == t[b].kind
  }

  /** The EXISTS subquery. */
  predicate Beaten(t: Table, id: int)
    requires id in t
  {
    exists older | older in t :: SameGroup(t, older, id) && t[older].isDefault && Precedes(t, older, id)
  }

  function RepairedRow(t: Table, id: int): Service
    requires id in t
  {
    if t[id].isDefault && Beaten(t, id) then t[id].(isDefault := false) else t[id]
  }

  /** The set-based UPDATE: every row is decided on the table as it was before the statement. */
  function Repair(t: Table): Table {
    map id | id in t :: RepairedRow(t, id)
  }

  // ---------- the survivors of one group ----------

  function Defaults(t: Table, serverId: string, kind: string): set<int> {
    set id | id in t && t[id].serverId == serverId && t[id].kind == kind && t[id].isDefault
  }

  function Dated(t: Table, serverId: string, kind: string): set<int> {
    set id | id in Defaults(t, serverId, kind) && t[id].createdAt.Some?
  }

  function Undated(t: Table, serverId: string, kind: string): set<int> {
    set id | id in Defaults(t, serverId, kind) && t[id].createdAt.None?
  }

  /** `m` is the least of `ids` by (created_at, id). */
  ghost predicate IsOldest(t: Table, ids: set<int>, m: int)
    requires forall id :: id in ids ==> id in t
  {
    m in ids && forall id :: id in ids && id != m ==> Precedes(t, m, id)
  }

  lemma {:induction false} OldestExists(t: Table, ids: set<int>) returns (m: int)
    requires ids != {} && forall id :: id in ids ==> id in t && t[id].createdAt.Some?
    ensures IsOldest(t, ids, m)
  {
    var first := AnyMember(ids);
    var rest := ids - {first};
    m := first;
    if rest != {} {
      var other := OldestExists(t, rest);
      m := if Precedes(t, other, first) then other else first;
      assert forall id :: id in ids ==> id == first || id == other || (id in rest && Precedes(t, other, id));
    } else {
      assert forall id :: id in ids ==> id == first || id in rest;
    }
  }

  /** Exactly which defaults of a group survive: the oldest dated one (the least id among equally old ones), and
      every one without a date. */
  lemma Survivors(t: Table, serverId: string, kind: string, m: int)
    requires Dated(t, serverId, kind) != {} ==> m in Dated(t, serverId, kind)
    requires forall id :: id in Dated(t, serverId, kind) && id != m ==>
               t[m].createdAt.value < t[id].createdAt.value || (t[m].createdAt == t[id].createdAt && m < id)
    ensures Defaults(Repair(t), serverId, kind)
         == Undated(t, serverId, kind) + if Dated(t, serverId, kind) == {} then {} else {m}
  {
    var dated := Dated(t, serverId, kind);
    forall id | id in Defaults(t, serverId, kind)
      ensures Beaten(t, id) <==> id in dated && id != m
    {
      if Beaten(t, id) {
        var older :| older in t && SameGroup(t, older, id) && t[older].isDefault && Precedes(t, older, id);
        assert older in dated && id in dated;
      } else if id in dated && id != m {
        assert SameGroup(t, m, id) && t[m].isDefault;
      }
    }
  }

  /** The repair leaves exactly one default in a group iff the group had one undated default and no dated one,
      or dated defaults and no undated one. */
  lemma OneDefaultLeftIff(t: Table, serverId: string, kind: string)
    ensures |Defaults(Repair(t), serverId, kind)| == 1
      <==> |Undated(t, serverId, kind)| + (if Dated(t, serverId, kind) == {} then 0 else 1) == 1
  {
    var dated, undated := Dated(t, serverId, kind), Undated(t, serverId, kind);
    var m := 0;
    if dated != {} {
      m := OldestExists(t, dated);
      assert m !in undated;
    }
    Survivors(t, serverId, kind, m);
  }

  /** With every created_at set: a group with a default keeps exactly its oldest one (the least id among equally old
      ones), a group without stays so. */
  lemma OneDefaultPerGroup(t: Table, serverId: string, kind: string) returns (m: int)
    requires forall id :: id in t ==> t[id].createdAt.Some?
    ensures Defaults(t, serverId, kind) == {} ==> Defaults(Repair(t), serverId, kind) == {}
    ensures Defaults(t, serverId, kind) != {} ==>
              && m in Defaults(t, serverId, kind) && Defaults(Repair(t), serverId, kind) == {m}
              && forall id :: id in Defaults(t, serverId, kind) && id != m ==>
                t[m].createdAt.value < t[id].createdAt.value || (t[m].createdAt == t[id].createdAt && m < id)
  {
    m := 0;
    var all := Defaults(t, serverId, kind);
    assert forall id :: id in all ==> t[id].createdAt.Some?;
    assert Dated(t, serverId, kind) == all;
    assert Undated(t, serverId, kind) == {};
    if all != {} {
      m := OldestExists(t, Dated(t, serverId, kind));
    }
    Survivors(t, serverId, kind, m);
  }

  /** Beside a dated default, one without a date keeps the group at two defaults. */
  lemma UndatedStaysBeside(serverId: string, kind: string, createdAt: int)
    ensures var t := map[1 := Service(serverId, kind, true, None), 2 := Service(serverId, kind, true, Some(createdAt))];
            Defaults(Repair(t), serverId, kind) == {1, 2}
  {
    var t := map[1 := Service(serverId, kind, true, None), 2 := Service(serverId, kind, true, Some(createdAt))];
    assert t.Keys == {1, 2} && 1 in Undated(t, serverId, kind) && 2 in Dated(t, serverId, kind);
    assert Dated(t, serverId, kind) == {2} && Undated(t, serverId, kind) == {1};
    Survivors(t, serverId, kind, 2);
  }

  // ---------- updating in place, in any order ----------

  /** A table part of the way through an in-place update of t. */
  ghost predicate Between(t: Table, now: Table) {
    now.Keys == t.Keys && forall id :: id in t ==> now[id] == t[id] || now[id] == RepairedRow(t, id)
  }

  /** An unbeaten default never falls, so the subquery gives the same answer at every point of the update. */
  lemma BeatenAtAnyTime(t: Table, now: Table, id: int)
    requires Between(t, now) && id in t
    ensures Beaten(now, id) <==> Beaten(t, id)
  {
    if Beaten(now, id) {
      var older :| older in now && SameGroup(now, older, id) && now[older].isDefault && Precedes(now, older, id);
      assert SameGroup(t, older, id) && t[older].isDefault && Precedes(t, older, id);
    }
    if Beaten(t, id) {
      var older :| older in t && SameGroup(t, older, id) && t[older].isDefault && Precedes(t, older, id);
      var dated := Dated(t, t[id].serverId, t[id].kind);
      assert older in dated;
      var m := OldestExists(t, dated);
      assert forall x :: x in t && SameGroup(t, x, m) && t[x].isDefault && Precedes(t, x, m) ==> x in dated;
      assert now[m] == t[m];
      assert m == older || Precedes(t, m, older);
      assert SameGroup(now, m, id) && now[m].isDefault && Precedes(now, m, id);
    }
  }

  class ServicesTable {
    var columnDefault: bool
    var rows: Table

    constructor (columnDefault: bool, rows: Table)
      ensures this.columnDefault == columnDefault && this.rows == rows
    {
      this.columnDefault, this.rows := columnDefault, rows;
    }

    /** The migration, updating rows one at a time in an arbitrary order. */
    method FixServicesIsDefaultUp()
      modifies this
      ensures !columnDefault
      ensures rows == Repair(old(rows))
    {
      columnDefault := false;
      ghost var before := rows;
      var todo := rows.Keys;
      while todo != {}
        invariant !columnDefault && todo <= before.Keys && Between(before, rows)
        invariant forall id :: id in before && id !in todo ==> rows[id] == RepairedRow(before, id)
        decreases todo
      {
        ghost var some := AnyMember(todo);
        var id :| id in todo;
        BeatenAtAnyTime(before, rows, id);
        if rows[id].isDefault && Beaten(rows, id) {
          rows := rows[id := rows[id].(isDefault := false)];
        }
        todo := todo - {id};
      }
    }
  }

  /** A second repair changes nothing, and no repair touches a column other than is_default. */
  lemma RepairIdempotent(t: Table)
    ensures Repair(Repair(t)) == Repair(t)
    ensures forall id :: id in t ==> Repair(t)[id].(isDefault := t[id].isDefault) == t[id]
  {
  }

  // ---------- as a migration ----------

  datatype ServicesDb = ServicesDb(columnDefault: bool, rows: Table)

  function SetDefaultFalse(db: ServicesDb): Option<ServicesDb> {
    Some(db.(columnDefault := false))
  }

  function UpdateRows(db: ServicesDb): Option<ServicesDb> {
    Some(db.(rows := Repair(db.rows)))
  }

  const FIX_SERVICES_IS_DEFAULT: Migration<ServicesDb> :=
    Migration("0054_05_31_120000_fix_services_is_default", 1780228800, db => [SetDefaultFalse, UpdateRows])

  lemma FixOutcome(db: ServicesDb, done: nat)
    ensures RunUp(FIX_SERVICES_IS_DEFAULT, db) == Ran(ServicesDb(false, Repair(db.rows)), true)
    ensures CutUp(FIX_SERVICES_IS_DEFAULT, db, done)
         == ServicesDb(done == 0 && db.columnDefault, if done < 2 then db.rows else Repair(db.rows))
  {
    hide Repair;
    var both: seq<Statement<ServicesDb>> := [SetDefaultFalse, UpdateRows];
    assert FIX_SERVICES_IS_DEFAULT.up(db) == both;
    assert both[1..] == [UpdateRows] && both[..1] == [SetDefaultFalse] && both[..0] == [];
    ExecOne(UpdateRows, db.(columnDefault := false));
    ExecOne(SetDefaultFalse, db);
    assert Exec(both, db) == Exec(both[1..], db.(columnDefault := false));
  }

  lemma FixIsRestartable()
    ensures Restartable(FIX_SERVICES_IS_DEFAULT)
  {
    hide Repair, RunUp, CutUp;
    forall db, done: nat
      ensures RunUp(FIX_SERVICES_IS_DEFAULT, CutUp(FIX_SERVICES_IS_DEFAULT, db, done))
           == RunUp(FIX_SERVICES_IS_DEFAULT, db)
    {
      FixOutcome(db, done);
      FixOutcome(CutUp(FIX_SERVICES_IS_DEFAULT, db, done), 0);
      RepairIdempotent(db.rows);
    }
  }
}
