/**
 The migration runner. Each migration is one transaction that changes the schema and records the
 version, both or neither; a run may be interrupted between two transactions, or after the last one
 and before the version is written to `app_meta`. The effect of SQL is a parameter: the content
 after a script, possibly changed in part, and whether the script went through.
 */
module Migrations {
  import opened Basics

  datatype Migration = Migration(version: nat, name: string, checksum: string, sql: string)

  datatype Row = Row(name: string, checksum: string)

  /** Schema content, the `schema_migrations` rows, and the schema version in `app_meta`. */
  datatype Db<S> = Db(schema: S, rows: map<nat, Row>, metaVersion: nat)

  /** The content after a script, and whether the script went through. */
  type Exec<!S> = (S, string) -> (S, bool)

  const SUPPORTED_VERSION: nat := 10

  datatype Ending = Completed | Interrupted | MigrationFailed | ChecksumMismatch | SchemaTooNew

  /** One migration in a transaction: nothing is kept when the SQL or the insert fails. */
  function ApplyOne<S>(exec: Exec<S>, db: Db<S>, m: Migration): Option<Db<S>> {
    var (schema, ok) := exec(db.schema, m.sql);
    if !ok || m.version in db.rows then None
    else Some(db.(schema := schema, rows := db.rows[m.version := Row(m.name, m.checksum)]))
  }

  function Pending<S>(db: Db<S>, discovered: seq<Migration>): seq<Migration> {
    if discovered == [] then []
    else (if discovered[0].version in db.rows then [] else [discovered[0]]) + Pending(db, discovered[1..])
  }

  predicate ChecksumsMatch<S>(db: Db<S>, discovered: seq<Migration>) {
    forall i :: 0 <= i < |discovered| && discovered[i].version in db.rows ==>
      db.rows[discovered[i].version].checksum == discovered[i].checksum
  }

  /** Up to `k` migrations in order, stopping at one that fails: the database and whether one failed. */
  function ApplySome<S>(exec: Exec<S>, db: Db<S>, ms: seq<Migration>, k: nat): (Db<S>, bool)
    decreases |ms|
  {
    if ms == [] || k == 0 then (db, false)
    else match ApplyOne(exec, db, ms[0])
      case None => (db, true)
      case Some(next) => ApplySome(exec, next, ms[1..], k - 1)
  }

  function MaxVersion(discovered: seq<Migration>): nat {
    if discovered == [] then 0
    else
      var rest := MaxVersion(discovered[1..]);
      if discovered[0].version > rest then discovered[0].version else rest
  }

  /** A run; `stop` says after how many of the pending migrations it is interrupted, if it is. */
  function Migrate<S>(exec: Exec<S>, db: Db<S>, discovered: seq<Migration>, stop: Option<nat>): (Db<S>, Ending) {
    if !ChecksumsMatch(db, discovered) then (db, ChecksumMismatch)
    else if db.metaVersion > SUPPORTED_VERSION then (db, SchemaTooNew)
    else
      var pending := Pending(db, discovered);
      if pending == [] then (db, Completed)
      else
        var limit := if stop.Some? then stop.value else |pending|;
        var (db', failed) := ApplySome(exec, db, pending, limit);
        if failed then (db', MigrationFailed)
        else if stop.Some? then (db', Interrupted)
        else (db'.(metaVersion := MaxVersion(discovered)), Completed)
  }

  /** Runs in a row, each interrupted where `stops` says. */
  function MigrateAgain<S>(exec: Exec<S>, db: Db<S>, discovered: seq<Migration>, stops: seq<nat>): Db<S>
    decreases |stops|
  {
    if stops == [] then db
    else MigrateAgain(exec, Migrate(exec, db, discovered, Some(stops[0])).0, discovered, stops[1..])
  }

  // ---------------------------------------------------------------- the runner's loops

  method CollectPending<S>(db: Db<S>, discovered: seq<Migration>) returns (mismatch: bool, pending: seq<Migration>)
    ensures mismatch <==> !ChecksumsMatch(db, discovered)
    ensures !mismatch ==> pending == Pending(db, discovered)
  {
    mismatch, pending := false, [];
    hide Pending;
    PendingNone(db, discovered);
    var i := 0;
    while i < |discovered|
      invariant 0 <= i <= |discovered|
      invariant forall k :: 0 <= k < i && discovered[k].version in db.rows ==>
                  db.rows[discovered[k].version].checksum == discovered[k].checksum
      invariant pending == Pending(db, discovered[..i])
    {
      var m := discovered[i];
      PendingOneMore(db, discovered[..i], m);
      assert discovered[..i + 1] == discovered[..i] + [m];
      if m.version in db.rows {
        if db.rows[m.version].checksum != m.checksum { return true, []; }
      } else {
        pending := pending + [m];
      }
      i := i + 1;
    }
    assert discovered[..i] == discovered;
  }

  lemma PendingNone<S>(db: Db<S>, discovered: seq<Migration>)
    ensures Pending(db, discovered[..0]) == []
  {}

  lemma {:induction false} PendingOneMore<S>(db: Db<S>, ms: seq<Migration>, m: Migration)
    ensures Pending(db, ms + [m]) == Pending(db, ms) + if m.version in db.rows then [] else [m]
  {
    if ms == [] {
      assert ms + [m] == [m] && [m][1..] == [];
    } else {
      PendingOneMore(db, ms[1..], m);
      assert (ms + [m])[0] == ms[0] && (ms + [m])[1..] == ms[1..] + [m];
      var head := if ms[0].version in db.rows then [] else [ms[0]];
      assert Pending(db, ms + [m]) == head + Pending(db, ms[1..] + [m]);
      assert Pending(db, ms) == head + Pending(db, ms[1..]);
    }
  }

  /** The connection: what is stored, changed statement by statement. */
  class Connection<S> {
    var schema: S
    var rows: map<nat, Row>
    var metaVersion: nat

    constructor (db: Db<S>)
      ensures Contents() == db
    {
      schema, rows, metaVersion := db.schema, db.rows, db.metaVersion;
    }

    function Contents(): Db<S>
      reads this
    {
      Db(schema, rows, metaVersion)
    }

    /** The transaction around one migration; a failure rolls back whatever the script had changed. */
    method ApplyMigration(exec: Exec<S>, m: Migration) returns (ok: bool)
      modifies this
      ensures ok == ApplyOne(exec, old(Contents()), m).Some?
      ensures Contents() == if ok then ApplyOne(exec, old(Contents()), m).value else old(Contents())
    {
      var before := Contents();
      var (after, done) := exec(schema, m.sql);
      schema, ok := after, done;
      if ok {
        ok := m.version !in rows;
        if ok { rows := rows[m.version := Row(m.name, m.checksum)]; }
      }
      if !ok { schema, rows := before.schema, before.rows; }
    }

    /** The runner: collect what is pending, then apply it one transaction at a time. */
    method RunMigrations(exec: Exec<S>, discovered: seq<Migration>, stop: Option<nat>)
      returns (ending: Ending)
      modifies this
      ensures (Contents(), ending) == Migrate(exec, old(Contents()), discovered, stop)
    {
      hide ChecksumsMatch, Pending, MaxVersion, ApplyOne;
      var mismatch, pending := CollectPending(Contents(), discovered);
      if mismatch { return ChecksumMismatch; }
      if metaVersion > SUPPORTED_VERSION { return SchemaTooNew; }
      if |pending| == 0 { return Completed; }
      var limit := if stop.Some? then stop.value else |pending|;
      var i := 0;
      while i < |pending| && i < limit
        invariant 0 <= i <= |pending| && i <= limit
        invariant ApplySome(exec, old(Contents()), pending, limit)
                  == ApplySome(exec, Contents(), pending[i..], limit - i)
      {
        assert pending[i..][1..] == pending[i + 1..];
        var ok := ApplyMigration(exec, pending[i]);
        if !ok { return MigrationFailed; }
        i := i + 1;
      }
      if stop.Some? { return Interrupted; }
      metaVersion := MaxVersion(discovered);
      ending := Completed;
    }
  }
}
