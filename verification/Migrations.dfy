/** What one migration does to a database: a sequence of statements, each committed on its own. */
module Migrations {
  import opened Options

  /** One SQL statement: the database after it, or None when the database reports an error. */
  type Statement<!D> = D -> Option<D>

  /** `up` plans its statements from the database it finds, since an Up may query before it alters. */
  datatype Migration<!D> = Migration(id: string, timestamp: int, up: D -> seq<Statement<D>>)

  datatype Ran<D> = Ran(db: D, ok: bool)

  /** Executes statements in order and stops at the first error. */
  function Exec<D>(statements: seq<Statement<D>>, db: D): Ran<D> {
    if statements == [] then Ran(db, true)
    else
      match statements[0](db)
      case None => Ran(db, false)
      case Some(next) => Exec(statements[1..], next)
  }

  lemma ExecOne<D>(statement: Statement<D>, db: D)
    ensures Exec([statement], db)
         == if statement(db).None? then Ran(db, false) else Ran(statement(db).value, true)
  {
  }

  lemma {:induction false} ExecAppend<D>(a: seq<Statement<D>>, b: seq<Statement<D>>, db: D)
    ensures Exec(a + b, db) == if Exec(a, db).ok then Exec(b, Exec(a, db).db) else Exec(a, db)
    decreases a
  {
    if a == [] {
      assert a + b == b;
    } else {
      assert (a + b)[1..] == a[1..] + b;
      if a[0](db).Some? {
        ExecAppend(a[1..], b, a[0](db).value);
      }
    }
  }

  function RunUp<D>(m: Migration<D>, db: D): Ran<D> {
    Exec(m.up(db), db)
  }

  /** The database left behind when an Up is cut off after `done` of its statements. */
  function CutUp<D>(m: Migration<D>, db: D, done: nat): D {
    var statements := m.up(db);
    Exec(if done < |statements| then statements[..done] else statements, db).db
  }

  /** Wherever a run that would succeed is cut off, even after its last statement, running the Up again
      succeeds and ends in the same database. */
  ghost predicate Restartable<D(!new)>(m: Migration<D>) {
    forall db, done: nat :: RunUp(m, db).ok ==> RunUp(m, CutUp(m, db, done)) == RunUp(m, db)
  }
}
