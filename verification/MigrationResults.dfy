/**
 What migration runs leave behind: when interruptions matter, what a completed run has applied, and
 when the schema version in `app_meta` is written.
 */
module MigrationResults {
  import opened Basics
  import opened Migrations

  ghost predicate DistinctVersions(discovered: seq<Migration>) {
    forall i, j :: 0 <= i < j < |discovered| ==> discovered[i].version != discovered[j].version
  }

  lemma {:induction false} PendingMembers<S(!new)>(db: Db<S>, discovered: seq<Migration>, m: Migration)
    ensures m in Pending(db, discovered) <==> m in discovered && m.version !in db.rows
  {
    if discovered != [] { PendingMembers(db, discovered[1..], m); }
  }

  /** What is pending after more versions were recorded: what was pending and is not among them. */
  lemma {:induction false} PendingLess<S(!new)>(db: Db<S>, db': Db<S>, discovered: seq<Migration>)
    requires db.rows.Keys <= db'.rows.Keys
    ensures Pending(db', discovered) == Pending(db', Pending(db, discovered))
  {
    if discovered != [] {
      PendingLess(db, db', discovered[1..]);
      var rest := Pending(db, discovered[1..]);
      if discovered[0].version in db.rows {
        assert Pending(db, discovered) == rest;
        assert discovered[0].version in db'.rows;
        assert Pending(db', discovered) == Pending(db', discovered[1..]);
      } else {
        assert Pending(db, discovered) == [discovered[0]] + rest;
        assert Pending(db, discovered)[1..] == rest;
      }
    }
  }

  lemma {:induction false} NonePending<S(!new)>(db: Db<S>, ms: seq<Migration>)
    requires forall i :: 0 <= i < |ms| ==> ms[i].version !in db.rows
    ensures Pending(db, ms) == ms
  {
    if ms != [] { NonePending(db, ms[1..]); }
  }

  /** Rows are added and never changed. */
  ghost predicate Grows<S(!new)>(db: Db<S>, db': Db<S>) {
    && db.rows.Keys <= db'.rows.Keys && db'.metaVersion == db.metaVersion
    && forall v :: v in db.rows ==> db'.rows[v] == db.rows[v]
  }

  lemma {:induction false} RowsOnlyAdded<S(!new)>(exec: Exec<S>, db: Db<S>, ms: seq<Migration>, k: nat)
    ensures Grows(db, ApplySome(exec, db, ms, k).0)
    decreases |ms|
  {
    if ms != [] && k > 0 {
      match ApplyOne(exec, db, ms[0])
      case None =>
      case Some(next) =>
        assert Grows(db, next);
        RowsOnlyAdded(exec, next, ms[1..], k - 1);
    }
  }

  /** Stopping early adds no more rows than going on. */
  lemma {:induction false} StopsBehind<S(!new)>(exec: Exec<S>, db: Db<S>, ms: seq<Migration>, k: nat)
    ensures Grows(ApplySome(exec, db, ms, k).0, ApplySome(exec, db, ms, |ms|).0)
    ensures ApplySome(exec, db, ms, k).1 ==> ApplySome(exec, db, ms, k) == ApplySome(exec, db, ms, |ms|)
    decreases |ms|
  {
    hide Grows;
    if ms == [] || k == 0 {
      RowsOnlyAdded(exec, db, ms, |ms|);
      assert ApplySome(exec, db, ms, k).0 == db;
    } else {
      match ApplyOne(exec, db, ms[0])
      case None => SameGrows(db);
      case Some(next) => StopsBehind(exec, next, ms[1..], k - 1);
    }
  }

  lemma SameGrows<S(!new)>(db: Db<S>)
    ensures Grows(db, db)
  {}

  // ---------------------------------------------------------------- failures that last

  /** The first of `ms` that is not recorded, if there is one, cannot be executed. */
  predicate Stuck<S>(exec: Exec<S>, db: Db<S>, ms: seq<Migration>) {
    var left := Pending(db, ms);
    left != [] && !exec(db.schema, left[0].sql).1
  }

  predicate StuckIfFailed<S>(exec: Exec<S>, db: Db<S>, ms: seq<Migration>) {
    ApplySome(exec, db, ms, |ms|).1 ==> Stuck(exec, ApplySome(exec, db, ms, |ms|).0, ms)
  }

  /** What is pending is stuck, also when less is taken as recorded. */
  lemma {:induction false} StuckFails<S(!new)>(exec: Exec<S>, db: Db<S>, e: Db<S>, ms: seq<Migration>)
    requires e.rows.Keys <= db.rows.Keys && Stuck(exec, db, ms)
    ensures ApplySome(exec, db, Pending(e, ms), |Pending(e, ms)|) == (db, true)
    decreases |ms|
  {
    var m := ms[0];
    if m.version in e.rows {
      assert Pending(e, ms) == Pending(e, ms[1..]) && Pending(db, ms) == Pending(db, ms[1..]);
      StuckFails(exec, db, e, ms[1..]);
    } else {
      assert Pending(e, ms)[0] == m;
      assert m.version !in db.rows ==> Pending(db, ms)[0] == m;
    }
  }

  /** Leaving out what is recorded does not change a pass that succeeds or gets stuck. */
  lemma {:induction false} SkippingRecorded<S(!new)>(exec: Exec<S>, db: Db<S>, e: Db<S>, ms: seq<Migration>)
    requires e.rows.Keys <= db.rows.Keys
    requires StuckIfFailed(exec, db, ms)
    ensures ApplySome(exec, db, Pending(e, ms), |Pending(e, ms)|) == ApplySome(exec, db, ms, |ms|)
    decreases |ms|
  {
    hide Stuck, ApplySome, ApplyOne, Pending, Grows;
    if ms == [] {
      NoneLeft(e);
    } else if ApplyOne(exec, db, ms[0]).None? {
      FirstFails(exec, db, ms);
      StuckFails(exec, db, e, ms);
    } else {
      var next, rest := ApplyOne(exec, db, ms[0]).value, Pending(e, ms[1..]);
      FirstApplied(exec, db, ms, |ms|);
      var (full, failed) := ApplySome(exec, db, ms, |ms|);
      FirstRecorded(full, ms);
      if failed { StuckSame(exec, full, ms, ms[1..]); }
      FirstLeft(exec, db, e, ms);
      SkippingRecorded(exec, next, e, ms[1..]);
      assert ([ms[0]] + rest)[1..] == rest;
      FirstApplied(exec, db, [ms[0]] + rest, |rest| + 1);
    }
  }

  lemma NoneLeft<S(!new)>(db: Db<S>)
    ensures Pending(db, []) == []
  {}

  lemma FirstFails<S(!new)>(exec: Exec<S>, db: Db<S>, ms: seq<Migration>)
    requires ms != [] && ApplyOne(exec, db, ms[0]).None?
    ensures ApplySome(exec, db, ms, |ms|) == (db, true)
  {}

  lemma FirstLeft<S(!new)>(exec: Exec<S>, db: Db<S>, e: Db<S>, ms: seq<Migration>)
    requires ms != [] && ApplyOne(exec, db, ms[0]).Some? && e.rows.Keys <= db.rows.Keys
    ensures Pending(e, ms) == [ms[0]] + Pending(e, ms[1..])
    ensures e.rows.Keys <= ApplyOne(exec, db, ms[0]).value.rows.Keys
  {}

  lemma FirstRecorded<S(!new)>(db: Db<S>, ms: seq<Migration>)
    requires ms != [] && ms[0].version in db.rows
    ensures Pending(db, ms) == Pending(db, ms[1..])
  {}

  /** Where `k` transactions leave off, the next run takes up. */
  lemma {:induction false} ResumesAt<S(!new)>(exec: Exec<S>, db: Db<S>, ms: seq<Migration>, k: nat)
    requires StuckIfFailed(exec, db, ms)
    ensures var left := Pending(ApplySome(exec, db, ms, k).0, ms);
            ApplySome(exec, ApplySome(exec, db, ms, k).0, left, |left|) == ApplySome(exec, db, ms, |ms|)
    decreases |ms|
  {
    hide Stuck, ApplySome, ApplyOne, Pending, Grows;
    if ms == [] || k == 0 || ApplyOne(exec, db, ms[0]).None? {
      NothingApplied(exec, db, ms, k);
      SkippingRecorded(exec, db, db, ms);
    } else {
      var next, rest := ApplyOne(exec, db, ms[0]).value, ms[1..];
      FirstApplied(exec, db, ms, k);
      FirstApplied(exec, db, ms, |ms|);
      var (full, failed) := ApplySome(exec, db, ms, |ms|);
      FirstRecorded(full, ms);
      FirstRecorded(ApplySome(exec, db, ms, k).0, ms);
      if failed { StuckSame(exec, full, ms, rest); }
      ResumesAt(exec, next, rest, k - 1);
    }
  }

  lemma NothingApplied<S(!new)>(exec: Exec<S>, db: Db<S>, ms: seq<Migration>, k: nat)
    requires ms == [] || k == 0 || ApplyOne(exec, db, ms[0]).None?
    ensures ApplySome(exec, db, ms, k).0 == db
  {}

  lemma FirstApplied<S(!new)>(exec: Exec<S>, db: Db<S>, ms: seq<Migration>, k: nat)
    requires ms != [] && k > 0 && ApplyOne(exec, db, ms[0]).Some?
    ensures ApplySome(exec, db, ms, k) == ApplySome(exec, ApplyOne(exec, db, ms[0]).value, ms[1..], k - 1)
    ensures ms[0].version in ApplySome(exec, db, ms, k).0.rows
  {
    RowsOnlyAdded(exec, ApplyOne(exec, db, ms[0]).value, ms[1..], k - 1);
  }

  /** How much is left after `k` transactions of a pass that succeeds. */
  lemma {:induction false} LeftAfter<S(!new)>(exec: Exec<S>, db: Db<S>, ms: seq<Migration>, k: nat)
    requires !ApplySome(exec, db, ms, |ms|).1
    ensures |Pending(ApplySome(exec, db, ms, k).0, ms)| == if k <= |ms| then |ms| - k else 0
    decreases |ms|
  {
    if ms == [] || k == 0 {
      AppliedAreDistinct(exec, db, ms);
      NonePending(db, ms);
    } else {
      var next := ApplyOne(exec, db, ms[0]).value;
      RowsOnlyAdded(exec, next, ms[1..], k - 1);
      LeftAfter(exec, next, ms[1..], k - 1);
    }
  }

  /**
   A failure that lasts: what the run has recorded agrees with the files, and the first file it has
   not recorded cannot be executed.
   */
  predicate FailsForGood<S>(exec: Exec<S>, db: Db<S>, discovered: seq<Migration>) {
    var ms := Pending(db, discovered);
    var full := ApplySome(exec, db, ms, |ms|).0;
    ChecksumsMatch(full, discovered) && Stuck(exec, full, discovered)
  }

  /** A full run completes, is refused by its checks, or fails for good. */
  predicate Decided<S>(exec: Exec<S>, db: Db<S>, discovered: seq<Migration>) {
    Migrate(exec, db, discovered, None).1 == MigrationFailed ==> FailsForGood(exec, db, discovered)
  }

  lemma CompletedChecksums<S(!new)>(exec: Exec<S>, db: Db<S>, discovered: seq<Migration>)
    requires ChecksumsMatch(db, discovered)
             && !ApplySome(exec, db, Pending(db, discovered), |Pending(db, discovered)|).1
    ensures ChecksumsMatch(ApplySome(exec, db, Pending(db, discovered), |Pending(db, discovered)|).0, discovered)
  {
    hide ApplySome, ApplyOne, Pending;
    AllRecorded(exec, db, Pending(db, discovered));
    forall i | 0 <= i < |discovered| && discovered[i].version !in db.rows
      ensures discovered[i] in Pending(db, discovered)
    {
      PendingMembers(db, discovered, discovered[i]);
    }
  }

  lemma ChecksumsBehind<S(!new)>(db: Db<S>, full: Db<S>, discovered: seq<Migration>)
    requires Grows(db, full) && ChecksumsMatch(full, discovered)
    ensures ChecksumsMatch(db, discovered)
  {}

  /** What is stored when a run that passes its checks is interrupted. */
  lemma Interruption<S(!new)>(exec: Exec<S>, db: Db<S>, discovered: seq<Migration>, k: nat)
    requires ChecksumsMatch(db, discovered) && db.metaVersion <= SUPPORTED_VERSION && Decided(exec, db, discovered)
    ensures var ms := Pending(db, discovered);
            var db' := ApplySome(exec, db, ms, k).0;
            var left := Pending(db', discovered);
            && ChecksumsMatch(db', discovered) && db'.metaVersion == db.metaVersion
            && ApplySome(exec, db', left, |left|) == ApplySome(exec, db, ms, |ms|)
            && (!ApplySome(exec, db, ms, |ms|).1 ==> |left| == if k <= |ms| then |ms| - k else 0)
  {
    var ms := Pending(db, discovered);
    var db' := ApplySome(exec, db, ms, k).0;
    var (full, failed) := ApplySome(exec, db, ms, |ms|);
    assert failed ==> FailsForGood(exec, db, discovered) by { hide FailsForGood; }
    RowsOnlyAdded(exec, db, ms, k);
    RowsOnlyAdded(exec, db, ms, |ms|);
    hide ApplyOne, ApplySome, ChecksumsMatch, Pending, Decided;
    PendingLess(db, full, discovered);
    PendingLess(db, db', discovered);
    ResumesAt(exec, db, ms, k);
    StopsBehind(exec, db, ms, k);
    if !failed {
      CompletedChecksums(exec, db, discovered);
      LeftAfter(exec, db, ms, k);
    }
    ChecksumsBehind(db', full, discovered);
  }

  /** The schema content, the rows and the ending of a full run from `db` and from `db'` agree. */
  predicate SameResult<S(==)>(exec: Exec<S>, discovered: seq<Migration>, db: Db<S>, db': Db<S>) {
    var (full, ending), (full', ending') := Migrate(exec, db, discovered, None), Migrate(exec, db', discovered, None);
    full'.schema == full.schema && full'.rows == full.rows && ending' == ending
  }

  /** One interrupted run changes nothing about what a full run comes to, if that is decided. */
  lemma OneInterruption<S(!new)>(exec: Exec<S>, db: Db<S>, discovered: seq<Migration>, k: nat)
    requires Decided(exec, db, discovered)
    ensures var db' := Migrate(exec, db, discovered, Some(k)).0;
            && SameResult(exec, discovered, db, db') && Decided(exec, db', discovered)
            && db'.metaVersion == db.metaVersion
            && (Migrate(exec, db, discovered, None).1 == Completed ==>
                  |Pending(db', discovered)| == if k <= |Pending(db, discovered)| then |Pending(db, discovered)| - k
                    else 0)
  {
    hide ApplyOne, MaxVersion, ChecksumsMatch, Pending, Stuck, ApplySome;
    if ChecksumsMatch(db, discovered) && db.metaVersion <= SUPPORTED_VERSION {
      Interruption(exec, db, discovered, k);
      NothingToApply(exec, db, k);
      NothingToApply(exec, Migrate(exec, db, discovered, Some(k)).0, 0);
    }
  }

  lemma NothingToApply<S(!new)>(exec: Exec<S>, db: Db<S>, k: nat)
    ensures ApplySome(exec, db, [], k) == (db, false)
  {}

  /** Any number of interrupted runs and then a full one come to what a full run comes to, if that is decided. */
  lemma {:induction false} InterruptionsIrrelevant<S(!new)>(
      exec: Exec<S>, db: Db<S>, discovered: seq<Migration>, stops: seq<nat>)
    requires Decided(exec, db, discovered)
    ensures SameResult(exec, discovered, db, MigrateAgain(exec, db, discovered, stops))
    decreases |stops|
  {
    hide Migrate, Decided;
    if stops != [] {
      OneInterruption(exec, db, discovered, stops[0]);
      InterruptionsIrrelevant(exec, Migrate(exec, db, discovered, Some(stops[0])).0, discovered, stops[1..]);
    }
  }

  /**
   Any number of interrupted runs, then one that is not: the schema content, the migration rows and
   the ending are those of a single uninterrupted run, for all interruptions, exactly when that run
   does not fail or fails for good.
   */
  lemma InterruptionsIrrelevantExactly<S(!new)>(exec: Exec<S>, db: Db<S>, discovered: seq<Migration>)
    ensures (forall stops :: SameResult(exec, discovered, db, MigrateAgain(exec, db, discovered, stops)))
            <==> Decided(exec, db, discovered)
  {
    hide SameResult, Migrate, Decided;
    if Decided(exec, db, discovered) {
      forall stops ensures SameResult(exec, discovered, db, MigrateAgain(exec, db, discovered, stops)) {
        InterruptionsIrrelevant(exec, db, discovered, stops);
      }
    } else {
      var n := |Pending(db, discovered)|;
      UndecidedDiffers(exec, db, discovered);
      var stops: seq<nat> := [n];
      assert stops[1..] == [];
      assert MigrateAgain(exec, db, discovered, stops) == Migrate(exec, db, discovered, Some(n)).0;
      assert !SameResult(exec, discovered, db, MigrateAgain(exec, db, discovered, stops));
    }
  }

  /** A failure that does not last: the run after it ends otherwise or records one more file. */
  lemma UndecidedDiffers<S(!new)>(exec: Exec<S>, db: Db<S>, discovered: seq<Migration>)
    requires !Decided(exec, db, discovered)
    ensures !SameResult(exec, discovered, db, Migrate(exec, db, discovered, Some(|Pending(db, discovered)|)).0)
  {
    hide ApplyOne, MaxVersion, ChecksumsMatch, Pending, ApplySome;
    var ms := Pending(db, discovered);
    var full := ApplySome(exec, db, ms, |ms|).0;
    RowsOnlyAdded(exec, db, ms, |ms|);
    var left := Pending(full, discovered);
    if ChecksumsMatch(full, discovered) && left != [] {
      PendingMembers(full, discovered, left[0]);
      CanApply(exec, full, left[0]);
      FirstApplied(exec, full, left, |left|);
    }
  }

  lemma CanApply<S(!new)>(exec: Exec<S>, db: Db<S>, m: Migration)
    requires exec(db.schema, m.sql).1 && m.version !in db.rows
    ensures ApplyOne(exec, db, m).Some?
  {}

  /** No file shares its version with one that the run applies. */
  predicate NoneRepeated<S>(exec: Exec<S>, db: Db<S>, ms: seq<Migration>)
    decreases |ms|
  {
    ms == [] ||
    match ApplyOne(exec, db, ms[0])
    case None => true
    case Some(next) =>
      (forall i :: 0 < i < |ms| ==> ms[i].version != ms[0].version) && NoneRepeated(exec, next, ms[1..])
  }

  lemma {:induction false} DistinctNotRepeated<S(!new)>(exec: Exec<S>, db: Db<S>, ms: seq<Migration>)
    requires DistinctVersions(ms)
    ensures NoneRepeated(exec, db, ms)
    decreases |ms|
  {
    if ms != [] && ApplyOne(exec, db, ms[0]).Some? {
      DistinctNotRepeated(exec, ApplyOne(exec, db, ms[0]).value, ms[1..]);
    }
  }

  /** The rows of `full` that `db` has not are those of files in `ms`, and no other file has their versions. */
  ghost predicate OwnRows<S(!new)>(db: Db<S>, ms: seq<Migration>, full: Db<S>) {
    forall i :: 0 <= i < |ms| && ms[i].version in full.rows && ms[i].version !in db.rows ==>
      full.rows[ms[i].version] == Row(ms[i].name, ms[i].checksum)
  }

  lemma {:induction false} FailureStays<S(!new)>(exec: Exec<S>, db: Db<S>, ms: seq<Migration>)
    requires NoneRepeated(exec, db, ms) && ApplySome(exec, db, ms, |ms|).1
    requires forall i :: 0 <= i < |ms| ==> ms[i].version !in db.rows
    ensures Stuck(exec, ApplySome(exec, db, ms, |ms|).0, ms) && OwnRows(db, ms, ApplySome(exec, db, ms, |ms|).0)
    decreases |ms|
  {
    var full := ApplySome(exec, db, ms, |ms|).0;
    if ApplyOne(exec, db, ms[0]).Some? {
      var next := ApplyOne(exec, db, ms[0]).value;
      assert forall i :: 0 <= i < |ms[1..]| ==> ms[1..][i] == ms[i + 1];
      FailureStays(exec, next, ms[1..]);
      RowsOnlyAdded(exec, next, ms[1..], |ms| - 1);
      assert Pending(full, ms) == Pending(full, ms[1..]);
      forall i | 0 <= i < |ms| && ms[i].version in full.rows && ms[i].version !in db.rows
        ensures full.rows[ms[i].version] == Row(ms[i].name, ms[i].checksum)
      {
        if i > 0 { assert ms[i] == ms[1..][i - 1]; }
      }
    }
  }

  /** Interruptions are irrelevant when no pending file shares its version with one the run applies. */
  lemma NotRepeatedIsDecided<S(!new)>(exec: Exec<S>, db: Db<S>, discovered: seq<Migration>)
    requires NoneRepeated(exec, db, Pending(db, discovered))
    ensures Decided(exec, db, discovered)
  {
    var ms := Pending(db, discovered);
    if Migrate(exec, db, discovered, None).1 == MigrationFailed {
      var full := ApplySome(exec, db, ms, |ms|).0;
      hide ApplySome, ApplyOne, Pending, Migrate, NoneRepeated, Stuck;
      forall m ensures m in ms <==> m in discovered && m.version !in db.rows { PendingMembers(db, discovered, m); }
      FailureStays(exec, db, ms);
      RowsOnlyAdded(exec, db, ms, |ms|);
      PendingLess(db, full, discovered);
      StuckSame(exec, full, ms, discovered);
      forall i | 0 <= i < |discovered| && discovered[i].version in full.rows
        ensures full.rows[discovered[i].version].checksum == discovered[i].checksum
      {
        if discovered[i].version !in db.rows {
          assert discovered[i] in ms;
          var j :| 0 <= j < |ms| && ms[j] == discovered[i];
        }
      }
    }
  }

  lemma StuckSame<S(!new)>(exec: Exec<S>, db: Db<S>, ms: seq<Migration>, discovered: seq<Migration>)
    requires Stuck(exec, db, ms) && Pending(db, ms) == Pending(db, discovered)
    ensures Stuck(exec, db, discovered)
  {}

  /** So they are when the pending files have distinct versions. */
  lemma DistinctIsDecided<S(!new)>(exec: Exec<S>, db: Db<S>, discovered: seq<Migration>)
    requires DistinctVersions(Pending(db, discovered))
    ensures Decided(exec, db, discovered)
  {
    hide *;
    DistinctNotRepeated(exec, db, Pending(db, discovered));
    NotRepeatedIsDecided(exec, db, discovered);
  }

  /**
   The condition on the files alone: whatever their SQL does and wherever runs are interrupted, the
   result is that of an uninterrupted run, exactly when the pending files have distinct versions or
   the checks refuse every run.
   */
  lemma IrrelevantForAllSql<S(!new)>(db: Db<S>, discovered: seq<Migration>)
    ensures (forall exec: Exec<S>, stops: seq<nat> ::
               SameResult(exec, discovered, db, MigrateAgain(exec, db, discovered, stops)))
            <==> (ChecksumsMatch(db, discovered) && db.metaVersion <= SUPPORTED_VERSION ==>
                    DistinctVersions(Pending(db, discovered)))
  {
    hide SameResult, MigrateAgain, DistinctVersions, ChecksumsMatch, Pending, Decided;
    if ChecksumsMatch(db, discovered) && db.metaVersion <= SUPPORTED_VERSION
      && !DistinctVersions(Pending(db, discovered)) {
      var exec: Exec<S> := (schema, _) => (schema, true);
      RepeatedUndecided(exec, db, discovered);
      InterruptionsIrrelevantExactly(exec, db, discovered);
    } else {
      forall exec: Exec<S>, stops: seq<nat>
        ensures SameResult(exec, discovered, db, MigrateAgain(exec, db, discovered, stops))
      {
        if DistinctVersions(Pending(db, discovered)) {
          DistinctIsDecided(exec, db, discovered);
        } else {
          RefusedIsDecided(exec, db, discovered);
        }
        InterruptionsIrrelevant(exec, db, discovered, stops);
      }
    }
  }

  lemma RefusedIsDecided<S(!new)>(exec: Exec<S>, db: Db<S>, discovered: seq<Migration>)
    requires !ChecksumsMatch(db, discovered) || db.metaVersion > SUPPORTED_VERSION
    ensures Decided(exec, db, discovered)
  {
    hide ChecksumsMatch;
  }

  /** When every script goes through, a repeated pending version fails the run, and not for good. */
  lemma RepeatedUndecided<S(!new)>(exec: Exec<S>, db: Db<S>, discovered: seq<Migration>)
    requires ChecksumsMatch(db, discovered) && db.metaVersion <= SUPPORTED_VERSION
    requires !DistinctVersions(Pending(db, discovered)) && forall schema, sql :: exec(schema, sql).1
    ensures !Decided(exec, db, discovered)
  {
    hide ChecksumsMatch, Pending, ApplySome, DistinctVersions, MaxVersion;
    DuplicatesNeverComplete(exec, db, discovered);
  }

  /** Two files of one version: the uninterrupted run fails, and after an interruption between them it completes. */
  lemma InterruptionCanMatter()
    ensures var exec := (schema: int, sql: string) => (schema + 1, true);
            var discovered := [Migration(1, "a", "c", "sql"), Migration(1, "b", "c", "sql")];
            var db := Db(0, map[], 0);
            && Migrate(exec, db, discovered, None).1 == MigrationFailed
            && Migrate(exec, Migrate(exec, db, discovered, Some(1)).0, discovered, None).1 == Completed
  {
    var exec := (schema: int, sql: string) => (schema + 1, true);
    var a, b := Migration(1, "a", "c", "sql"), Migration(1, "b", "c", "sql");
    var discovered := [a, b];
    var db := Db(0, map[], 0);
    var one := Db(1, map[1 := Row("a", "c")], 0);
    assert discovered[1..] == [b];
    assert Pending(db, [b]) == [b];
    assert Pending(db, discovered) == discovered;
    assert ApplyOne(exec, db, a) == Some(one) && ApplyOne(exec, one, b) == None;
    assert ApplySome(exec, one, [b], 1) == (one, true);
    assert ApplySome(exec, db, discovered, 2) == (one, true);
    assert ApplySome(exec, db, discovered, 1) == (one, false);
    assert Pending(one, [b]) == [];
    assert Pending(one, discovered) == [];
  }

  /**
   Failing before the first repeated version is not enough: a later file that repeats an applied
   version with another checksum turns the failure into a mismatch.
   */
  lemma FailureCanTurn()
    ensures var exec := (schema: int, sql: string) => (schema, sql != "bad");
            var discovered :=
              [Migration(1, "a", "c", "sql"), Migration(2, "b", "d", "bad"), Migration(1, "e", "f", "sql2")];
            var db := Db(0, map[], 0);
            && Migrate(exec, db, discovered, None).1 == MigrationFailed
            && Migrate(exec, Migrate(exec, db, discovered, Some(1)).0, discovered, None).1 == ChecksumMismatch
  {
    var exec := (schema: int, sql: string) => (schema, sql != "bad");
    var a, b, e := Migration(1, "a", "c", "sql"), Migration(2, "b", "d", "bad"), Migration(1, "e", "f", "sql2");
    var discovered := [a, b, e];
    var db := Db(0, map[], 0);
    var one := Db(0, map[1 := Row("a", "c")], 0);
    assert discovered[1..] == [b, e] && [b, e][1..] == [e];
    assert Pending(db, [e]) == [e];
    assert Pending(db, [b, e]) == [b, e];
    assert Pending(db, discovered) == discovered;
    assert ApplyOne(exec, db, a) == Some(one) && ApplyOne(exec, one, b) == None;
    assert ApplySome(exec, one, [b, e], 2) == (one, true);
    assert ApplySome(exec, db, discovered, 3) == (one, true);
    assert ApplySome(exec, db, discovered, 1) == (one, false);
    assert discovered[2].version in one.rows && one.rows[1].checksum != discovered[2].checksum;
    assert !ChecksumsMatch(one, discovered);
  }

  function Sum(stops: seq<nat>): nat {
    if stops == [] then 0 else stops[0] + Sum(stops[1..])
  }

  /** How much interrupted runs leave to do, when nothing fails. */
  lemma {:induction false} LeftToDo<S(!new)>(exec: Exec<S>, db: Db<S>, discovered: seq<Migration>, stops: seq<nat>)
    requires Migrate(exec, db, discovered, None).1 == Completed
    ensures var before := |Pending(db, discovered)|;
            var after := MigrateAgain(exec, db, discovered, stops);
            && after.metaVersion == db.metaVersion
            && |Pending(after, discovered)| == if Sum(stops) <= before then before - Sum(stops) else 0
    decreases |stops|
  {
    hide Migrate, Pending;
    if stops != [] {
      OneInterruption(exec, db, discovered, stops[0]);
      LeftToDo(exec, Migrate(exec, db, discovered, Some(stops[0])).0, discovered, stops[1..]);
    }
  }

  /**
   The schema version in `app_meta`, unlike the rows, does depend on interruptions: the final run
   writes it exactly when the interrupted ones have left something pending.
   */
  lemma MetaVersionExactly<S(!new)>(exec: Exec<S>, db: Db<S>, discovered: seq<Migration>, stops: seq<nat>)
    requires Migrate(exec, db, discovered, None).1 == Completed
    ensures Migrate(exec, MigrateAgain(exec, db, discovered, stops), discovered, None).0.metaVersion
         == if Sum(stops) < |Pending(db, discovered)| then MaxVersion(discovered) else db.metaVersion
  {
    LeftToDo(exec, db, discovered, stops);
    InterruptionsIrrelevant(exec, db, discovered, stops);
    hide ApplySome, ChecksumsMatch, MaxVersion, MigrateAgain;
  }

  /** Interrupted after its only migration, a run leaves version 0 recorded for good. */
  lemma MetaVersionCanStayBehind()
    ensures var exec := (schema: int, sql: string) => (schema + 1, true);
            var discovered := [Migration(1, "init", "c1", "create")];
            var db := Db(0, map[], 0);
            var interrupted := Migrate(exec, db, discovered, Some(1)).0;
            && Migrate(exec, db, discovered, None).0.metaVersion == 1
            && Migrate(exec, interrupted, discovered, None).0.metaVersion == 0
            && Migrate(exec, interrupted, discovered, None).1 == Completed
  {
    var exec := (schema: int, sql: string) => (schema + 1, true);
    var discovered := [Migration(1, "init", "c1", "create")];
    var db := Db(0, map[], 0);
    assert Pending(db, discovered) == discovered;
    assert ApplySome(exec, db, discovered, 1) == (Db(1, map[1 := Row("init", "c1")], 0), false);
    assert MaxVersion(discovered) == 1 by { assert MaxVersion(discovered[1..]) == 0; }
    var interrupted := Migrate(exec, db, discovered, Some(1)).0;
    assert Pending(interrupted, discovered) == [];
  }

  /** The rows after `ms` were applied to `db`: the old ones and one for each of `ms`, no others. */
  ghost predicate Recorded<S(!new)>(db: Db<S>, ms: seq<Migration>, full: Db<S>) {
    && (forall v :: v in db.rows ==> v in full.rows && full.rows[v] == db.rows[v])
    && (forall m :: m in ms ==> m.version in full.rows && full.rows[m.version] == Row(m.name, m.checksum))
    && (forall v :: v in full.rows && v !in db.rows ==> exists i :: 0 <= i < |ms| && ms[i].version == v)
  }

  lemma {:induction false} AllRecorded<S(!new)>(exec: Exec<S>, db: Db<S>, ms: seq<Migration>)
    requires !ApplySome(exec, db, ms, |ms|).1
    ensures Recorded(db, ms, ApplySome(exec, db, ms, |ms|).0)
    decreases |ms|
  {
    hide Recorded;
    if ms == [] {
      NoneRecorded(db);
    } else {
      var next := ApplyOne(exec, db, ms[0]).value;
      AllRecorded(exec, next, ms[1..]);
      OneMoreRecorded(db, next, ms, ApplySome(exec, db, ms, |ms|).0);
    }
  }

  lemma NoneRecorded<S(!new)>(db: Db<S>)
    ensures Recorded(db, [], db)
  {}

  lemma OneMoreRecorded<S(!new)>(db: Db<S>, next: Db<S>, ms: seq<Migration>, full: Db<S>)
    requires ms != [] && ms[0].version !in db.rows && Recorded(next, ms[1..], full)
    requires next.rows == db.rows[ms[0].version := Row(ms[0].name, ms[0].checksum)]
    ensures Recorded(db, ms, full)
  {
    assert forall v :: v in next.rows <==> v in db.rows || v == ms[0].version;
    forall m | m in ms ensures m.version in full.rows && full.rows[m.version] == Row(m.name, m.checksum) {
      if m != ms[0] { assert m in ms[1..]; }
    }
    forall v | v in full.rows && v !in db.rows ensures exists i :: 0 <= i < |ms| && ms[i].version == v {
      if v != ms[0].version {
        var i :| 0 <= i < |ms[1..]| && ms[1..][i].version == v;
        assert ms[i + 1].version == v;
      }
    }
  }

  /**
   A completed run has executed the SQL of exactly the pending migrations, each once and in
   discovery order, and recorded exactly those; every discovered version is then present.
   */
  lemma CompletedAppliesAll<S(!new)>(exec: Exec<S>, db: Db<S>, discovered: seq<Migration>)
    requires Migrate(exec, db, discovered, None).1 == Completed
    ensures var full := Migrate(exec, db, discovered, None).0;
            && Some(full.schema) == FoldSql(exec, db.schema, Pending(db, discovered))
            && Recorded(db, Pending(db, discovered), full)
            && (forall m :: m in discovered ==> m.version in full.rows)
  {
    hide MaxVersion, ApplyOne, ChecksumsMatch, FoldSql;
    var ms := Pending(db, discovered);
    var full := Migrate(exec, db, discovered, None).0;
    FoldApplied(exec, db, ms);
    AllRecorded(exec, db, ms);
    forall m | m in discovered ensures m.version in full.rows { PendingMembers(db, discovered, m); }
  }

  /**
   Running again after completion is a no-op exactly when nothing was pending or the version written
   is one this build supports; otherwise every later run refuses the schema as too new.
   */
  lemma RerunExactly<S(!new)>(exec: Exec<S>, db: Db<S>, discovered: seq<Migration>, stop: Option<nat>)
    requires Migrate(exec, db, discovered, None).1 == Completed
    ensures var full := Migrate(exec, db, discovered, None).0;
            Migrate(exec, full, discovered, stop) ==
              if Pending(db, discovered) == [] || MaxVersion(discovered) <= SUPPORTED_VERSION then (full, Completed)
              else (full, SchemaTooNew)
  {
    var full := Migrate(exec, db, discovered, None).0;
    CompletedAppliesAll(exec, db, discovered);
    if Pending(db, discovered) != [] { CompletedChecksums(exec, db, discovered); }
    SameRowsMatch(ApplySome(exec, db, Pending(db, discovered), |Pending(db, discovered)|).0, full, discovered);
    hide ApplySome, ChecksumsMatch, MaxVersion, Pending, Recorded, FoldSql;
    if Pending(full, discovered) != [] {
      PendingMembers(full, discovered, Pending(full, discovered)[0]);
    }
  }

  lemma SameRowsMatch<S(!new)>(a: Db<S>, b: Db<S>, discovered: seq<Migration>)
    ensures a.rows == b.rows ==> (ChecksumsMatch(a, discovered) <==> ChecksumsMatch(b, discovered))
  {}

  /** Two pending files with one version: the second insert is refused, so an uninterrupted run fails. */
  lemma DuplicatesNeverComplete<S(!new)>(exec: Exec<S>, db: Db<S>, discovered: seq<Migration>)
    requires !DistinctVersions(Pending(db, discovered))
    ensures Migrate(exec, db, discovered, None).1 != Completed
  {
    var ms := Pending(db, discovered);
    if !ApplySome(exec, db, ms, |ms|).1 { AppliedAreDistinct(exec, db, ms); }
  }

  lemma {:induction false} AppliedAreDistinct<S(!new)>(exec: Exec<S>, db: Db<S>, ms: seq<Migration>)
    requires !ApplySome(exec, db, ms, |ms|).1
    ensures DistinctVersions(ms) && forall i :: 0 <= i < |ms| ==> ms[i].version !in db.rows
    decreases |ms|
  {
    if ms != [] {
      AppliedAreDistinct(exec, ApplyOne(exec, db, ms[0]).value, ms[1..]);
      assert forall i :: 0 < i < |ms| ==> ms[i] == ms[1..][i - 1];
    }
  }

  function FoldSql<S>(exec: Exec<S>, schema: S, ms: seq<Migration>): Option<S>
    decreases |ms|
  {
    if ms == [] then Some(schema)
    else
      var (next, ok) := exec(schema, ms[0].sql);
      if ok then FoldSql(exec, next, ms[1..]) else None
  }

  lemma {:induction false} FoldApplied<S(!new)>(exec: Exec<S>, db: Db<S>, ms: seq<Migration>)
    requires !ApplySome(exec, db, ms, |ms|).1
    ensures Some(ApplySome(exec, db, ms, |ms|).0.schema) == FoldSql(exec, db.schema, ms)
    decreases |ms|
  {
    if ms != [] { FoldApplied(exec, ApplyOne(exec, db, ms[0]).value, ms[1..]); }
  }

  // ---------------------------------------------------------------- what a run starts from and how it ends

  /** The greatest version there is among the files, or 0 without any. */
  lemma {:induction false} MaxVersionMeaning(discovered: seq<Migration>)
    ensures forall m :: m in discovered ==> m.version <= MaxVersion(discovered)
    ensures if discovered == [] then MaxVersion(discovered) == 0
            else exists m :: m in discovered && m.version == MaxVersion(discovered)
  {
    if discovered != [] {
      MaxVersionMeaning(discovered[1..]);
      assert discovered == [discovered[0]] + discovered[1..];
      if |discovered| > 1 && MaxVersion(discovered) != discovered[0].version {
        var m :| m in discovered[1..] && m.version == MaxVersion(discovered[1..]);
      }
      assert discovered[0] in discovered;
    }
  }

  lemma {:induction false} PendingInOrder<S(!new)>(db: Db<S>, discovered: seq<Migration>)
    ensures Subsequence(Pending(db, discovered), discovered)
  {
    if discovered != [] {
      var first, rest := discovered[0], Pending(db, discovered[1..]);
      PendingInOrder(db, discovered[1..]);
      if first.version in db.rows {
        assert Pending(db, discovered) == rest;
        if rest != [] { PendingMembers(db, discovered[1..], rest[0]); }
      } else {
        assert Pending(db, discovered) == [first] + rest && Pending(db, discovered)[1..] == rest;
      }
    }
  }

  lemma {:induction false} PendingCount<S(!new)>(db: Db<S>, discovered: seq<Migration>, m: Migration)
    ensures multiset(Pending(db, discovered))[m] == if m.version in db.rows then 0 else multiset(discovered)[m]
  {
    if discovered != [] {
      PendingCount(db, discovered[1..], m);
      assert discovered == [discovered[0]] + discovered[1..];
    }
  }

  /** What is pending: the files without a row, in discovery order and each as often as it is found. */
  lemma PendingExactly<S(!new)>(db: Db<S>, discovered: seq<Migration>, m: Migration)
    ensures Subsequence(Pending(db, discovered), discovered)
    ensures multiset(Pending(db, discovered))[m] == if m.version in db.rows then 0 else multiset(discovered)[m]
  {
    hide *;
    PendingInOrder(db, discovered);
    PendingCount(db, discovered, m);
  }

  lemma {:induction false} AppliesExactly<S(!new)>(exec: Exec<S>, db: Db<S>, ms: seq<Migration>)
    requires forall i :: 0 <= i < |ms| ==> ms[i].version !in db.rows
    ensures !ApplySome(exec, db, ms, |ms|).1 <==> DistinctVersions(ms) && FoldSql(exec, db.schema, ms).Some?
    decreases |ms|
  {
    if !ApplySome(exec, db, ms, |ms|).1 {
      AppliedAreDistinct(exec, db, ms);
      FoldApplied(exec, db, ms);
    } else if DistinctVersions(ms) {
      if ApplyOne(exec, db, ms[0]).Some? {
        var next := ApplyOne(exec, db, ms[0]).value;
        assert forall i :: 0 <= i < |ms[1..]| ==> ms[1..][i] == ms[i + 1];
        AppliesExactly(exec, next, ms[1..]);
      }
    }
  }

  /**
   How an uninterrupted run ends, on the files, the rows and the SQL: a mismatch before anything else,
   then a version that is too new; completion exactly when the pending files have distinct versions
   and all their scripts go through one after the other.
   */
  lemma EndingExactly<S(!new)>(exec: Exec<S>, db: Db<S>, discovered: seq<Migration>)
    ensures var ending := Migrate(exec, db, discovered, None).1;
            var mismatch := exists i :: 0 <= i < |discovered| && discovered[i].version in db.rows
                                        && db.rows[discovered[i].version].checksum != discovered[i].checksum;
            var pending := Pending(db, discovered);
            && (ending == ChecksumMismatch <==> mismatch)
            && (ending == SchemaTooNew <==> !mismatch && db.metaVersion > 10)
            && (ending == Completed <==>
                  && !mismatch && db.metaVersion <= 10
                  && DistinctVersions(pending) && FoldSql(exec, db.schema, pending).Some?)
            && ending != Interrupted
  {
    var pending := Pending(db, discovered);
    forall i | 0 <= i < |pending| ensures pending[i].version !in db.rows { PendingMembers(db, discovered, pending[i]); }
    AppliesExactly(exec, db, pending);
    hide Pending, ApplySome, FoldSql, MaxVersion, DistinctVersions;
    if pending == [] { NoneToFold(exec, db); }
  }

  lemma NoneToFold<S(!new)>(exec: Exec<S>, db: Db<S>)
    ensures FoldSql(exec, db.schema, []) == Some(db.schema) && DistinctVersions([])
    ensures ApplySome(exec, db, [], 0) == (db, false)
  {}

  lemma {:induction false} StopsBefore<S(!new)>(exec: Exec<S>, db: Db<S>, ms: seq<Migration>) returns (k: nat)
    requires ApplySome(exec, db, ms, |ms|).1
    ensures k < |ms| && !ApplySome(exec, db, ms[..k], k).1
    ensures ApplySome(exec, db, ms[..k], k).0 == ApplySome(exec, db, ms, |ms|).0
    ensures ApplyOne(exec, ApplySome(exec, db, ms, |ms|).0, ms[k]) == None
    decreases |ms|
  {
    if ApplyOne(exec, db, ms[0]).None? {
      k := 0;
    } else {
      var next := ApplyOne(exec, db, ms[0]).value;
      var j := StopsBefore(exec, next, ms[1..]);
      k := j + 1;
      assert ms[..k][1..] == ms[1..][..j] && ms[..k][0] == ms[0];
    }
  }

  /**
   A failed run keeps exactly what it had applied before the file that failed: the scripts executed
   and the rows written are those of the files before it, and the version in `app_meta` is unchanged.
   */
  lemma FailureKeeps<S(!new)>(exec: Exec<S>, db: Db<S>, discovered: seq<Migration>) returns (k: nat)
    requires Migrate(exec, db, discovered, None).1 == MigrationFailed
    ensures var full, pending := Migrate(exec, db, discovered, None).0, Pending(db, discovered);
            && k < |pending| && full.metaVersion == db.metaVersion
            && Some(full.schema) == FoldSql(exec, db.schema, pending[..k])
            && Recorded(db, pending[..k], full)
            && (pending[k].version in full.rows || !exec(full.schema, pending[k].sql).1)
  {
    var pending := Pending(db, discovered);
    k := StopsBefore(exec, db, pending);
    FoldApplied(exec, db, pending[..k]);
    AllRecorded(exec, db, pending[..k]);
    RowsOnlyAdded(exec, db, pending, |pending|);
    hide Pending, ApplySome, FoldSql, MaxVersion, Recorded;
  }

  /** A run refused by its checks changes nothing. */
  lemma RefusalKeeps<S(!new)>(exec: Exec<S>, db: Db<S>, discovered: seq<Migration>, stop: Option<nat>)
    requires Migrate(exec, db, discovered, stop).1 == ChecksumMismatch
             || Migrate(exec, db, discovered, stop).1 == SchemaTooNew
    ensures Migrate(exec, db, discovered, stop).0 == db
  {
    hide Pending, ApplySome, MaxVersion;
  }
}
