/** Migration 0048: ssh_keys.is_global from smallint to boolean, restartable after any auto-committed statement. */
module SshKeysIsGlobal {
  import opened Options
  import opened Migrations

  /** The cells (None is NULL) and the default, in the type the catalogue shows. */
  datatype Body =
    | SmallInt(ints: seq<Option<int>>, intDefault: Option<int>)
    | Boolean(flags: seq<Option<bool>>, flagDefault: Option<bool>)

  datatype Column = Column(body: Body, notNull: bool)

  // ---------- the statements, with the errors Postgres reports ----------

  function DropDefault(c: Column): Option<Column> {
    Some(c.(body := if c.body.SmallInt? then SmallInt(c.body.ints, None) else Boolean(c.body.flags, None)))
  }

  /** `is_global <> 0`, which is NULL for NULL. */
  function NonZero(cell: Option<int>): Option<bool> {
    if cell.None? then None else Some(cell.value != 0)
  }

  function ConvertCells(ints: seq<Option<int>>): (flags: seq<Option<bool>>)
    ensures |flags| == |ints| && forall i :: 0 <= i < |ints| ==> flags[i] == NonZero(ints[i])
  {
    seq(|ints|, i requires 0 <= i < |ints| => NonZero(ints[i]))
  }

  /** Refused while a smallint default is attached, and for a boolean, which does not compare with 0. */
  function AlterTypeBoolean(c: Column): Option<Column> {
    if c.body.SmallInt? && c.body.intDefault.None?
    then Some(c.(body := Boolean(ConvertCells(c.body.ints), None)))
    else None
  }

  function SetDefaultFalse(c: Column): Option<Column> {
    if c.body.Boolean? then Some(c.(body := Boolean(c.body.flags, Some(false)))) else None
  }

  function FillNulls(flags: seq<Option<bool>>): (filled: seq<Option<bool>>)
    ensures |filled| == |flags|
    ensures forall i :: 0 <= i < |flags| ==> filled[i] == if flags[i].None? then Some(false) else flags[i]
  {
    seq(|flags|, i requires 0 <= i < |flags| => if flags[i].None? then Some(false) else flags[i])
  }

  function BackfillNulls(c: Column): Option<Column> {
    if c.body.Boolean? then Some(c.(body := Boolean(FillNulls(c.body.flags), c.body.flagDefault))) else None
  }

  predicate HasNull(b: Body) {
    match b
    case SmallInt(ints, _) => None in ints
    case Boolean(flags, _) => None in flags
  }

  function SetNotNull(c: Column): Option<Column> {
    if HasNull(c.body) then None else Some(c.(notNull := true))
  }

  /** The Up: the type change is skipped once the column is boolean already. */
  function Plan(c: Column): seq<Statement<Column>> {
    if c.body.Boolean? then [SetDefaultFalse, BackfillNulls, SetNotNull]
    else [DropDefault, AlterTypeBoolean, SetDefaultFalse, BackfillNulls, SetNotNull]
  }

  const CONVERT_IS_GLOBAL: Migration<Column> :=
    Migration("0048_05_28_000000_convert_ssh_keys_is_global_to_boolean", 1779926400, Plan)

  // ---------- the clean column ----------

  /** Row by row, whether the value is neither NULL nor zero (nor false, once converted). */
  function Truths(c: Column): (ts: seq<bool>)
    ensures |ts| == match c.body case SmallInt(ints, _) => |ints| case Boolean(flags, _) => |flags|
    ensures c.body.SmallInt? ==>
      forall i :: 0 <= i < |ts| ==> ts[i] == (c.body.ints[i].Some? && c.body.ints[i].value != 0)
    ensures c.body.Boolean? ==> forall i :: 0 <= i < |ts| ==> ts[i] == (c.body.flags[i].Some? && c.body.flags[i].value)
  {
    match c.body
    case SmallInt(ints, _) => seq(|ints|, i requires 0 <= i < |ints| => ints[i].Some? && ints[i].value != 0)
    case Boolean(flags, _) => seq(|flags|, i requires 0 <= i < |flags| => flags[i].Some? && flags[i].value)
  }

  function Flags(ts: seq<bool>): (flags: seq<Option<bool>>)
    ensures |flags| == |ts| && forall i :: 0 <= i < |ts| ==> flags[i] == Some(ts[i])
  {
    seq(|ts|, i requires 0 <= i < |ts| => Some(ts[i]))
  }

  /** A boolean column, default false, NOT NULL, holding the given truths. */
  function Clean(ts: seq<bool>): Column {
    Column(Boolean(Flags(ts), Some(false)), true)
  }

  /** Backfilling a boolean column leaves no NULL and each row's truth. */
  lemma FilledFlags(c: Column)
    requires c.body.Boolean?
    ensures FillNulls(c.body.flags) == Flags(Truths(c)) && None !in Flags(Truths(c))
  {
  }

  ghost predicate KeepsTruths(statement: Statement<Column>) {
    forall c :: statement(c).Some? ==> Truths(statement(c).value) == Truths(c)
  }

  lemma StatementsKeepTruths()
    ensures KeepsTruths(DropDefault) && KeepsTruths(AlterTypeBoolean) && KeepsTruths(SetDefaultFalse)
    ensures KeepsTruths(BackfillNulls) && KeepsTruths(SetNotNull)
  {
  }

  lemma {:induction false} ExecKeepsTruths(statements: seq<Statement<Column>>, c: Column)
    requires forall s :: s in statements ==> KeepsTruths(s)
    ensures Truths(Exec(statements, c).db) == Truths(c)
    decreases statements
  {
    if statements != [] && statements[0](c).Some? {
      assert KeepsTruths(statements[0]);
      ExecKeepsTruths(statements[1..], statements[0](c).value);
    }
  }

  lemma CutKeepsTruths(c: Column, done: nat)
    ensures Truths(CutUp(CONVERT_IS_GLOBAL, c, done)) == Truths(c)
  {
    hide KeepsTruths, Truths;
    StatementsKeepTruths();
    var statements := CONVERT_IS_GLOBAL.up(c);
    ExecKeepsTruths(if done < |statements| then statements[..done] else statements, c);
  }

  class SshKeysTable {
    var isGlobal: Column

    constructor (c: Column)
      ensures isGlobal == c
    {
      isGlobal := c;
    }

    method Execute(statement: Statement<Column>) returns (ok: bool)
      modifies this
      ensures ok == statement(old(isGlobal)).Some?
      ensures isGlobal == if ok then statement(old(isGlobal)).value else old(isGlobal)
    {
      var next := statement(isGlobal);
      ok := next.Some?;
      if ok {
        isGlobal := next.value;
      }
    }

    /** From any column whatever, the migration succeeds and leaves the one clean column. */
    method ConvertSSHKeysIsGlobalToBooleanUp() returns (ok: bool)
      modifies this
      ensures ok && isGlobal == Clean(Truths(old(isGlobal)))
    {
      StatementsKeepTruths();
      if !isGlobal.body.Boolean? {
        ok := Execute(DropDefault);
        if !ok {
          return;
        }
        ok := Execute(AlterTypeBoolean);
        if !ok {
          return;
        }
      }
      assert Truths(isGlobal) == Truths(old(isGlobal));
      FilledFlags(isGlobal);
      ok := Execute(SetDefaultFalse);
      if !ok {
        return;
      }
      ok := Execute(BackfillNulls);
      if !ok {
        return;
      }
      ok := Execute(SetNotNull);
    }
  }

  /** The last three statements turn any boolean column into its clean column. */
  lemma FinishClean(c: Column)
    requires c.body.Boolean?
    ensures RunUp(CONVERT_IS_GLOBAL, c) == Ran(Clean(Truths(c)), true)
  {
    var statements: seq<Statement<Column>> := [SetDefaultFalse, BackfillNulls, SetNotNull];
    assert CONVERT_IS_GLOBAL.up(c) == statements;
    assert statements[1..] == [BackfillNulls, SetNotNull] && statements[1..][1..] == [SetNotNull];
    var c1 := SetDefaultFalse(c).value;
    var c2 := BackfillNulls(c1).value;
    FilledFlags(c);
    ExecOne(SetNotNull, c2);
    assert SetNotNull(c2) == Some(Clean(Truths(c)));
    assert Exec([BackfillNulls, SetNotNull], c1) == Exec([SetNotNull], c2);
  }

  /** One clean run, from any column: boolean, default false, NOT NULL, and each row true iff its original
      value was neither NULL nor zero. */
  lemma CleanRun(c: Column)
    ensures RunUp(CONVERT_IS_GLOBAL, c) == Ran(Clean(Truths(c)), true)
  {
    if c.body.Boolean? {
      FinishClean(c);
    } else {
      var statements := CONVERT_IS_GLOBAL.up(c);
      var c1 := DropDefault(c).value;
      var c2 := AlterTypeBoolean(c1).value;
      assert Truths(c2) == Truths(c);
      assert statements[1..][0] == AlterTypeBoolean && statements[1..][1..] == CONVERT_IS_GLOBAL.up(c2);
      assert Exec(statements, c) == Exec(statements[1..], c1) == Exec(statements[1..][1..], c2);
      FinishClean(c2);
    }
  }

  /** Each statement and the type guard are needed: without the guard a converted column fails, without DROP DEFAULT one
      with a default does, without the backfill one with a NULL does, and without the type change neither the default
      nor the backfill goes through. */
  lemma EachStepNeeded(c: Column)
    ensures c.body.Boolean? ==>
              !Exec([DropDefault, AlterTypeBoolean, SetDefaultFalse, BackfillNulls, SetNotNull], c).ok
    ensures c.body.SmallInt? && c.body.intDefault.Some? ==>
              !Exec([AlterTypeBoolean, SetDefaultFalse, BackfillNulls, SetNotNull], c).ok
    ensures c.body.SmallInt? && None in c.body.ints ==>
              !Exec([DropDefault, AlterTypeBoolean, SetDefaultFalse, SetNotNull], c).ok
    ensures c.body.SmallInt? ==> !Exec([SetDefaultFalse], c).ok && !Exec([BackfillNulls], c).ok
  {
    if c.body.SmallInt? && None in c.body.ints {
      var i :| 0 <= i < |c.body.ints| && c.body.ints[i] == None;
      var flags := ConvertCells(c.body.ints);
      assert flags[i] == None;
      var c1 := DropDefault(c).value;
      var c2 := AlterTypeBoolean(c1).value;
      var c3 := SetDefaultFalse(c2).value;
      assert HasNull(c3.body) && SetNotNull(c3).None?;
      var steps: seq<Statement<Column>> := [DropDefault, AlterTypeBoolean, SetDefaultFalse, SetNotNull];
      ExecOne(SetNotNull, c3);
      assert steps[1..] == [AlterTypeBoolean, SetDefaultFalse, SetNotNull];
      assert steps[1..][1..] == [SetDefaultFalse, SetNotNull] && steps[1..][1..][1..] == [SetNotNull];
      assert Exec(steps, c) == Exec(steps[1..], c1) == Exec(steps[1..][1..], c2) == Exec(steps[1..][1..][1..], c3);
    }
  }

  lemma ConvertIsRestartable()
    ensures Restartable(CONVERT_IS_GLOBAL)
  {
    hide RunUp, CutUp, Clean;
    forall c, done: nat
      ensures RunUp(CONVERT_IS_GLOBAL, CutUp(CONVERT_IS_GLOBAL, c, done)) == RunUp(CONVERT_IS_GLOBAL, c)
    {
      CutKeepsTruths(c, done);
      CleanRun(c);
      CleanRun(CutUp(CONVERT_IS_GLOBAL, c, done));
    }
  }

  /** The column after any number of runs, the i-th one cut off after cuts[i] statements. */
  function AfterCuts(c: Column, cuts: seq<nat>): Column
    decreases cuts
  {
    if cuts == [] then c else AfterCuts(CutUp(CONVERT_IS_GLOBAL, c, cuts[0]), cuts[1..])
  }

  /** However many runs were cut off, and wherever, one full run ends exactly as one clean run would have. */
  lemma {:induction false} CutRunsThenFull(c: Column, cuts: seq<nat>)
    ensures RunUp(CONVERT_IS_GLOBAL, AfterCuts(c, cuts)) == Ran(Clean(Truths(c)), true)
    decreases cuts
  {
    hide RunUp, CutUp, Truths, Clean;
    if cuts == [] {
      CleanRun(c);
    } else {
      CutKeepsTruths(c, cuts[0]);
      CutRunsThenFull(CutUp(CONVERT_IS_GLOBAL, c, cuts[0]), cuts[1..]);
    }
  }
}
