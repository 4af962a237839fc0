/**
 * The `migrant` variant: the target is the number of catalogued versions less
 * one; a database whose marker is 0 is created by migration 0 alone and then
 * stamped with the target, any other database steps through the versions above
 * its marker, each of which must be catalogued.
 */
module Migrant {
  import opened Wrappers
  import opened Names
  import opened MigrationCatalog
  import opened Runner

  /** `get_target_schema_version`: the count of catalogued versions less one, -1 for an empty catalog. */
  function TargetVersion(m: map<nat, string>): (t: int)
    ensures -1 <= t && (t == -1 <==> m == map[])
  {
    |m| - 1
  }

  /**
   * The end state of `migrate` on a database whose marker is `current`, when
   * the scripts of the versions in `fails` raise.
   */
  function MigrantMigration(entries: seq<string>, fails: set<nat>, current: nat): Run
  {
    match Catalog(entries)
    case Err(e) => Run(current, [], Failed(BadName(e)))
    case Ok(m) => MigrantRun(m, fails, current)
  }

  /**
   * Running catalog `m`: marker 0 means a new database, built by migration 0
   * (`migrations[0]` raises when it is missing) and stamped with the target;
   * otherwise the versions above the marker are stepped through.
   */
  function MigrantRun(m: map<nat, string>, fails: set<nat>, current: nat): Run
  {
    if current == 0 then
      if 0 !in m then Run(0, [], Failed(MissingMigration(0)))
      else if 0 in fails then Run(0, [], Failed(ScriptFailed(0)))
      else Run(|m| - 1, [0], Done)
    else Step(m, fails, current, TargetVersion(m))
  }

  /** The versions in `(current, target]` at which stepping stops: no entry, or a script that raises. */
  function Stops(m: map<nat, string>, fails: set<nat>, current: nat, target: int): set<nat>
  {
    set k: nat | current < k <= target && (k !in m || k in fails)
  }

  /**
   * The `while` loop of `migrate`: versions `current+1 .. target` in turn, each
   * executed and then written as the marker, until one is missing or raises.
   */
  function Step(m: map<nat, string>, fails: set<nat>, current: nat, target: int): Run
  {
    match FirstIn(Stops(m, fails, current, target), current, target)
    case None => Run(Max(current, target), Applied(m.Keys, current, target), Done)
    case Some(f) =>
      Run(f - 1, Applied(m.Keys, current, f - 1),
          Failed(if f in m then ScriptFailed(f) else MissingMigration(f)))
  }

  /** `migrate`: scan, read the marker, then either build a new database or step the old one up. */
  method Migrate(db: Database, entries: seq<string>) returns (out: Outcome)
    modifies db
    ensures var r := MigrantMigration(entries, db.failsAt, old(db.version));
      out == r.outcome && db.version == r.marker && db.log == old(db.log) + r.ran
  {
    var listed := ListMigrations(entries);
    if listed.Err? {
      return Failed(BadName(listed.error));
    }
    var migrations := listed.value;
    var current := db.GetVersion();
    var target := TargetVersion(migrations);
    if current == 0 {
      if 0 !in migrations {
        return Failed(MissingMigration(0));
      }
      var ok := db.ExecuteScript(0);
      if !ok {
        return Failed(ScriptFailed(0));
      }
      db.SetVersion(target);
      return Done;
    }
    out := StepUp(db, migrations, current, target);
  }

  /** The `while` loop of `migrate`, from the marker `current` up to `target`. */
  method StepUp(db: Database, migrations: map<nat, string>, current: nat, target: int) returns (out: Outcome)
    requires db.version == current
    modifies db
    ensures var r := Step(migrations, db.failsAt, current, target);
      out == r.outcome && db.version == r.marker && db.log == old(db.log) + r.ran
  {
    var version := current;
    ghost var stops := Stops(migrations, db.failsAt, current, target);
    while version < target
      invariant current <= version <= Max(current, target)
      invariant db.version == version
      invariant db.log == old(db.log) + Applied(migrations.Keys, current, version)
      invariant forall k :: current < k <= version ==> k !in stops
    {
      var next := version + 1;
      if next !in migrations {
        StepFirstStop(migrations, db.failsAt, current, target, next);
        return Failed(MissingMigration(next));
      }
      var ok := db.ExecuteScript(next);
      if !ok {
        StepFirstStop(migrations, db.failsAt, current, target, next);
        return Failed(ScriptFailed(next));
      }
      db.SetVersion(next);
      version := next;
    }
    StepClear(migrations, db.failsAt, current, target);
    out := Done;
  }

  /** With no stop in the range, stepping runs every catalogued version in it and ends at `max(current, target)`. */
  lemma StepClear(m: map<nat, string>, fails: set<nat>, current: nat, target: int)
    requires forall k :: current < k <= target ==> k !in Stops(m, fails, current, target)
    ensures Step(m, fails, current, target) == Run(Max(current, target), Applied(m.Keys, current, target), Done)
  {
  }

  /** Stepping ends one below the least stop in the range. */
  lemma StepFirstStop(m: map<nat, string>, fails: set<nat>, current: nat, target: int, f: nat)
    requires current < f <= target && f in Stops(m, fails, current, target)
    requires forall k :: current < k < f ==> k !in Stops(m, fails, current, target)
    ensures Step(m, fails, current, target) == Run(f - 1, Applied(m.Keys, current, f - 1),
      Failed(if f in m then ScriptFailed(f) else MissingMigration(f)))
  {
  }

  /** Stepping completes, and runs every version up to the target, exactly when none of them stops it. */
  lemma StepCompletes(m: map<nat, string>, fails: set<nat>, current: nat, target: int)
    ensures Step(m, fails, current, target).outcome == Done
        <==> forall k :: current < k <= target ==> k in m && k !in fails
    ensures Step(m, fails, current, target).outcome == Done ==>
      Step(m, fails, current, target) == Run(Max(current, target), Applied(m.Keys, current, target), Done)
  {
    var stops := Stops(m, fails, current, target);
    match FirstIn(stops, current, target)
    case None =>
      forall k | current < k <= target
        ensures k in m && k !in fails
      {
        assert k !in stops;
      }
    case Some(f) =>
      assert f in stops;
  }

  /** Stepping stops at the first version that is missing or whose script raises, one below it. */
  lemma StepStopsAt(m: map<nat, string>, fails: set<nat>, current: nat, target: int, f: nat)
    requires current < f <= target && (f !in m || f in fails)
    requires forall k :: current < k < f ==> k in m && k !in fails
    ensures Step(m, fails, current, target) == Run(f - 1, Applied(m.Keys, current, f - 1),
      Failed(if f in m then ScriptFailed(f) else MissingMigration(f)))
  {
    var stops := Stops(m, fails, current, target);
    assert f in stops;
    StepFirstStop(m, fails, current, target, f);
  }

  /** A scan that raises, or a new database without migration 0, stops `migrate` before anything runs. */
  lemma MigrantErrorsBeforeRunning(entries: seq<string>, fails: set<nat>, current: nat)
    requires Catalog(entries).Err? || (current == 0 && 0 !in Catalog(entries).value)
    ensures var r := MigrantMigration(entries, fails, current);
      && r.marker == current && r.ran == []
      && r.outcome == Failed(if Catalog(entries).Err? then BadName(Catalog(entries).error) else MissingMigration(0))
  {
  }

  /**
   * An existing database that steps up without error runs the versions above
   * its marker one by one, with none skipped, and ends at the target, or at
   * its own marker when that is already past the target.
   */
  lemma MigrantStepsContiguously(m: map<nat, string>, fails: set<nat>, current: nat)
    requires current > 0 && MigrantRun(m, fails, current).outcome == Done
    ensures var r := MigrantRun(m, fails, current);
      && r.marker == Max(current, |m| - 1)
      && |r.ran| == Max(0, |m| - 1 - current)
      && forall i :: 0 <= i < |r.ran| ==> r.ran[i] == current + 1 + i
  {
    StepCompletes(m, fails, current, |m| - 1);
    AppliedDense(m.Keys, current, |m| - 1);
  }

  /**
   * A version missing below the target stops every existing database beneath
   * it: the run fails and the marker stays below the hole.
   */
  lemma MigrantHoleStops(m: map<nat, string>, fails: set<nat>, current: nat, g: nat)
    requires 0 < current < g <= |m| - 1 && g !in m
    ensures var r := MigrantRun(m, fails, current);
      r.outcome != Done && r.marker < g && g !in r.ran
  {
    StepCompletes(m, fails, current, |m| - 1);
    var stops := Stops(m, fails, current, |m| - 1);
    assert g in stops;
    var f := FirstIn(stops, current, |m| - 1).value;
    assert f <= g;
  }

  /**
   * A failed step names the version it stopped at: one with no entry, or one
   * whose script raised; everything below it ran and the marker sits just below it.
   */
  lemma MigrantStepFailure(m: map<nat, string>, fails: set<nat>, current: nat, f: nat)
    requires current > 0
    requires var r := MigrantRun(m, fails, current);
      r.outcome == Failed(MissingMigration(f)) || r.outcome == Failed(ScriptFailed(f))
    ensures current < f <= |m| - 1
    ensures MigrantRun(m, fails, current).outcome == Failed(MissingMigration(f)) <==> f !in m
    ensures var r := MigrantRun(m, fails, current);
      && r.marker == f - 1
      && |r.ran| == f - 1 - current
      && forall i :: 0 <= i < |r.ran| ==> r.ran[i] == current + 1 + i
  {
    var stops := Stops(m, fails, current, |m| - 1);
    var first := FirstIn(stops, current, |m| - 1);
    assert first == Some(f);
    forall k | current < k <= f - 1
      ensures k in m
    {
      assert k !in stops;
    }
    AppliedDense(m.Keys, current, f - 1);
  }

  /**
   * After a script raised at `f` while stepping, a call with that script
   * alone fixed starts at `f`, runs it first and moves the marker to at least
   * `f`, whatever the later versions hold.
   */
  lemma MigrantResumesAt(m: map<nat, string>, fails: set<nat>, current: nat, f: nat)
    requires current > 0 && MigrantRun(m, fails, current).outcome == Failed(ScriptFailed(f))
    ensures var second := MigrantRun(m, fails - {f}, f - 1);
      second.ran != [] && second.ran[0] == f && second.marker >= f
  {
    MigrantStepFailure(m, fails, current, f);
    var t := |m| - 1;
    var stop := FirstIn(Stops(m, fails - {f}, f - 1, t), f - 1, t);
    if stop.Some? {
      assert stop.value != f by {
        assert f !in Stops(m, fails - {f}, f - 1, t);
      }
      AppliedStartsAt(m.Keys, f - 1, stop.value - 1);
    } else {
      AppliedStartsAt(m.Keys, f - 1, t);
    }
  }

  /** An existing database at or above the target runs nothing and keeps its marker. */
  lemma MigrantUpToDate(m: map<nat, string>, fails: set<nat>, current: nat)
    requires current > 0 && current >= |m| - 1
    ensures MigrantRun(m, fails, current) == Run(current, [], Done)
  {
    StepClear(m, fails, current, |m| - 1);
  }

  /** An existing database that was brought up to date is left alone by the next call, whatever the scripts do. */
  lemma MigrantIdempotent(m: map<nat, string>, fails: set<nat>, again: set<nat>, current: nat)
    requires current > 0 && MigrantRun(m, fails, current).outcome == Done
    ensures var marker := MigrantRun(m, fails, current).marker;
      MigrantRun(m, again, marker) == Run(marker, [], Done)
  {
    var marker := MigrantRun(m, fails, current).marker;
    assert marker >= |m| - 1;
    StepClear(m, again, marker, |m| - 1);
  }

  /**
   * A new database runs migration 0 alone, whatever else is catalogued, and
   * is stamped with the target, so the later versions are taken to be part of it.
   */
  lemma MigrantBootstrap(m: map<nat, string>, fails: set<nat>)
    requires 0 in m && 0 !in fails
    ensures var r := MigrantRun(m, fails, 0);
      && r.outcome == Done && r.ran == [0] && r.marker == |m| - 1
      && forall k :: k in m && 0 < k ==> k !in r.ran
  {
  }

  /**
   * With migration 0 as the only entry the stamp is 0 again, so the database
   * still counts as new and every later call runs migration 0 once more.
   */
  lemma MigrantBootstrapRepeats(m: map<nat, string>, fails: set<nat>)
    requires m.Keys == {0} && 0 !in fails
    ensures var r := MigrantRun(m, fails, 0);
      r.outcome == Done && r.marker == 0 && r.ran == [0] && MigrantRun(m, fails, r.marker) == r
  {
    assert |m| == |m.Keys| == 1;
  }

  /** The file name `00d_rest.sql`. */
  function Numbered(d: char, rest: string): string
  {
    ['0', '0', d] + "_" + rest + ".sql"
  }

  /** The migration folder of the project's tests: `000_FULL.sql`, `001_add_table_author.sql`, `002_add_table_text.sql`. */
  const TestFolder: seq<string> := [Numbered('0', "FULL"), Numbered('1', "add_table_author"), Numbered('2', "add_table_text")]

  /** A file name `00d_rest.sql` is catalogued under version `d`. */
  lemma NumberedEntry(d: char, rest: string)
    requires IsDigit(d)
    ensures IsMigrationName(Numbered(d, rest)) && VersionOf(Numbered(d, rest)) == Some(DigitValue(d))
  {
    var digits := ['0', '0', d];
    assert digits + "_" + rest + ".sql" == digits + "_" + (rest + ".sql");
    PrefixBeforeUnderscore(digits, rest + ".sql");
    assert Value(digits) == DigitValue(d) by {
      assert digits[..2] == "00" && "00"[..1] == "0" && "0"[..0] == [];
    }
    GlobAccepts(digits, rest);
  }

  /** Scanning a file `00d_rest.sql` records it under version `d`. */
  lemma NumberedInsert(m: map<nat, string>, d: char, rest: string)
    requires IsDigit(d)
    ensures Insert(m, Numbered(d, rest)) == Ok(m[DigitValue(d) := Numbered(d, rest)])
  {
    NumberedEntry(d, rest);
  }

  /** The catalog the project's tests expect of the test folder. */
  const TestCatalogMap: map<nat, string> := map[0 := TestFolder[0], 1 := TestFolder[1], 2 := TestFolder[2]]

  /** The test folder is catalogued as versions 0, 1 and 2. */
  lemma TestCatalog()
    ensures Catalog(TestFolder) == Ok(TestCatalogMap)
  {
    var f := TestFolder;
    assert Catalog(f[..1]) == Ok(map[0 := f[0]]) by {
      assert f[..1][..0] == [];
      NumberedInsert(map[], '0', "FULL");
    }
    assert Catalog(f[..2]) == Ok(map[0 := f[0], 1 := f[1]]) by {
      assert f[..2][..1] == f[..1];
      NumberedInsert(map[0 := f[0]], '1', "add_table_author");
    }
    assert f[..3][..2] == f[..2] && f[..3] == f;
    NumberedInsert(map[0 := f[0], 1 := f[1]], '2', "add_table_text");
  }

  /** The test catalog has three versions, so its target is 2. */
  lemma TestTarget()
    ensures TestCatalogMap.Keys == {0, 1, 2} && TargetVersion(TestCatalogMap) == 2
  {
    assert |TestCatalogMap.Keys| == 3;
  }

  /** A new database is built by `000_FULL.sql` alone and stamped 2. */
  lemma TestMigrateInitial()
    ensures MigrantMigration(TestFolder, {}, 0) == Run(2, [0], Done)
  {
    TestCatalog();
    TestTarget();
  }

  /** A database at version 1 runs only `002_add_table_text.sql` and ends at 2. */
  lemma TestMigrateFirstToSecond()
    ensures MigrantMigration(TestFolder, {}, 1) == Run(2, [2], Done)
  {
    TestCatalog();
    TestTarget();
    var m := TestCatalogMap;
    StepClear(m, {}, 1, 2);
    assert Applied(m.Keys, 1, 2) == Applied(m.Keys, 1, 1) + [2];
  }
}
