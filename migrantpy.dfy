/**
 * The `migrantpy` variant: the target is the highest catalogued version, the
 * runner steps through every version above the marker, skipping the ones
 * without an entry but still writing the marker for them; it also computes
 * the file name of the next migration to author.
 */
module MigrantPy {
  import opened Wrappers
  import opened Names
  import opened MigrationCatalog
  import opened Runner

  lemma {:induction false} MaxExists(s: set<nat>)
    requires s != {}
    ensures exists t :: t in s && forall k :: k in s ==> k <= t
    decreases |s|
  {
    var x :| x in s;
    if s != {x} {
      MaxExists(s - {x});
      var t :| t in s - {x} && forall k :: k in s - {x} ==> k <= t;
      var top := if x < t then t else x;
      assert forall k :: k in s ==> k == x || k in s - {x};
      assert top in s && forall k :: k in s ==> k <= top;
    }
  }

  /** `_get_target_schema_version`: the first of the keys sorted downwards; `None` where `mkeys[0]` raises. */
  function TargetVersion(m: map<nat, string>): (t: Option<nat>)
    ensures t.None? <==> m == map[]
    ensures t.Some? ==> t.value in m && forall k :: k in m ==> k <= t.value
  {
    if m == map[] then None
    else
      MaxExists(m.Keys);
      var top :| top in m && forall k :: k in m ==> k <= top;
      Some(top)
  }

  /** `_run_migration`: a version without an entry (`None`) executes nothing and succeeds. */
  method RunMigration(db: Database, version: nat, path: Option<string>) returns (ok: bool)
    modifies db`log
    ensures path.None? ==> ok && db.log == old(db.log)
    ensures path.Some? ==> ok == (version !in db.failsAt)
    ensures path.Some? ==> db.log == if ok then old(db.log) + [version] else old(db.log)
  {
    if path.None? {
      return true;
    }
    ok := db.ExecuteScript(version);
  }

  /**
   * The end state of `migrate` on a database whose marker is `current`, when
   * the scripts of the versions in `fails` raise: a scan that raises touches
   * nothing, otherwise the catalog is run.
   */
  function PyMigration(entries: seq<string>, fails: set<nat>, current: nat): Run
  {
    match Catalog(entries)
    case Err(e) => Run(current, [], Failed(BadName(e)))
    case Ok(m) => PyRun(m, fails, current)
  }

  /**
   * Running catalog `m`: its versions above the marker run in ascending order
   * up to the first script that raises; the marker follows every version
   * stepped over, catalogued or not.
   */
  function PyRun(m: map<nat, string>, fails: set<nat>, current: nat): Run
  {
    match TargetVersion(m)
    case None => Run(current, [], Failed(NoMigrations))
    case Some(target) => Sweep(m.Keys, fails, current, target)
  }

  /**
   * The `while` loop of `migrate`: versions `current+1 .. target` in turn, the
   * catalogued ones executed, each followed by a marker write, until a script raises.
   */
  function Sweep(keys: set<nat>, fails: set<nat>, current: nat, target: nat): Run
  {
    match FirstIn(keys * fails, current, target)
    case None => Run(Max(current, target), Applied(keys, current, target), Done)
    case Some(f) => Run(f - 1, Applied(keys, current, f - 1), Failed(ScriptFailed(f)))
  }

  /** `migrate`: scan, read the marker, then run and record `current+1 .. target` one by one. */
  method Migrate(db: Database, entries: seq<string>) returns (out: Outcome)
    modifies db
    ensures var r := PyMigration(entries, db.failsAt, old(db.version));
      out == r.outcome && db.version == r.marker && db.log == old(db.log) + r.ran
  {
    var listed := ListMigrations(entries);
    if listed.Err? {
      return Failed(BadName(listed.error));
    }
    var migrations := listed.value;
    var current := db.GetVersion();
    var target := TargetVersion(migrations);
    if target.None? {
      return Failed(NoMigrations);
    }
    out := RunPending(db, migrations, current, target.value);
  }

  /** The `while` loop of `migrate`, from the marker `current` up to `target`. */
  method RunPending(db: Database, migrations: map<nat, string>, current: nat, target: nat) returns (out: Outcome)
    requires db.version == current
    modifies db
    ensures var r := Sweep(migrations.Keys, db.failsAt, current, target);
      out == r.outcome && db.version == r.marker && db.log == old(db.log) + r.ran
  {
    var nextVersion := current + 1;
    while nextVersion <= target
      invariant current < nextVersion <= Max(current, target) + 1
      invariant db.version == nextVersion - 1
      invariant db.log == old(db.log) + Applied(migrations.Keys, current, nextVersion - 1)
      invariant FirstIn(migrations.Keys * db.failsAt, current, nextVersion - 1) == None
    {
      var path := if nextVersion in migrations then Some(migrations[nextVersion]) else None;
      var ok := RunMigration(db, nextVersion, path);
      if !ok {
        FirstInStable(migrations.Keys * db.failsAt, current, nextVersion, target);
        return Failed(ScriptFailed(nextVersion));
      }
      db.SetVersion(nextVersion);
      nextVersion := nextVersion + 1;
    }
    out := Done;
  }

  /** A scan that raises, or an empty catalog, stops `migrate` before anything runs or is written. */
  lemma PyErrorsBeforeRunning(entries: seq<string>, fails: set<nat>, current: nat)
    requires Catalog(entries).Err? || Catalog(entries) == Ok(map[])
    ensures var r := PyMigration(entries, fails, current);
      && r.marker == current && r.ran == []
      && r.outcome == Failed(if Catalog(entries).Err? then BadName(Catalog(entries).error) else NoMigrations)
  {
  }

  /**
   * A run succeeds exactly when no pending script raises; it then runs every
   * catalogued version above the marker, each once and in ascending order, and
   * leaves the marker at the highest catalogued version (or where it was).
   */
  lemma PySuccess(m: map<nat, string>, fails: set<nat>, current: nat)
    requires m != map[]
    ensures var r := PyRun(m, fails, current);
      && (r.outcome == Done <==> forall k :: k in m && current < k ==> k !in fails)
      && (r.outcome == Done ==> r.marker == Max(current, TargetVersion(m).value))
      && (r.outcome == Done ==> forall k :: k in r.ran <==> k in m && current < k)
      && Ascending(r.ran)
  {
    var target := TargetVersion(m).value;
    var stop := FirstIn(m.Keys * fails, current, target);
    AppliedAscending(m.Keys, current, if stop.Some? then stop.value - 1 else target);
    if stop.Some? {
      assert stop.value in m && stop.value in fails && current < stop.value;
    } else {
      forall k | k in m && current < k
        ensures k !in fails
      {
        assert k <= target;
        assert k !in m.Keys * fails;
      }
    }
  }

  /**
   * A script that raises stops the sweep: the marker stays one below it, and
   * exactly the catalogued versions between the old marker and it have run.
   */
  lemma PyScriptFailure(keys: set<nat>, fails: set<nat>, current: nat, target: nat, v: nat)
    requires Sweep(keys, fails, current, target).outcome == Failed(ScriptFailed(v))
    ensures v in keys && v in fails && current < v <= target
    ensures var r := Sweep(keys, fails, current, target);
      && r.marker == v - 1
      && r.ran == Applied(keys, current, v - 1)
      && forall k :: k in r.ran <==> k in keys && current < k < v
  {
  }

  /** A hole in the catalog runs nothing, yet a successful sweep moves the marker past it. */
  lemma PyGapAdvancesMarker(keys: set<nat>, fails: set<nat>, current: nat, target: nat, g: nat)
    requires current < g <= target && g !in keys
    requires Sweep(keys, fails, current, target).outcome == Done
    ensures g !in Sweep(keys, fails, current, target).ran
    ensures Sweep(keys, fails, current, target).marker >= g
  {
  }

  /** A marker at or above the target runs nothing and leaves the marker where it is. */
  lemma PyUpToDate(m: map<nat, string>, fails: set<nat>, current: nat)
    requires m != map[] && current >= TargetVersion(m).value
    ensures PyRun(m, fails, current) == Run(current, [], Done)
  {
  }

  /** After a successful run, running the same catalog again changes nothing, whatever the scripts do. */
  lemma PyIdempotent(m: map<nat, string>, fails: set<nat>, again: set<nat>, current: nat)
    requires PyRun(m, fails, current).outcome == Done
    ensures var marker := PyRun(m, fails, current).marker;
      PyRun(m, again, marker) == Run(marker, [], Done)
  {
    var target := TargetVersion(m).value;
    assert target <= PyRun(m, fails, current).marker;
  }

  /** A sweep in which no script raises. */
  lemma SweepClean(keys: set<nat>, current: nat, target: nat)
    ensures Sweep(keys, {}, current, target) == Run(Max(current, target), Applied(keys, current, target), Done)
  {
    assert keys * {} == {};
  }

  /**
   * After a script raised, a second call with the scripts fixed resumes at that
   * version, and the two calls together run what one clean call would have run.
   */
  lemma PyResume(keys: set<nat>, fails: set<nat>, current: nat, target: nat, v: nat)
    requires Sweep(keys, fails, current, target).outcome == Failed(ScriptFailed(v))
    ensures var first := Sweep(keys, fails, current, target);
      var second := Sweep(keys, {}, first.marker, target);
      var clean := Sweep(keys, {}, current, target);
      && second.outcome == Done && second.ran != [] && second.ran[0] == v
      && first.ran + second.ran == clean.ran && second.marker == clean.marker
  {
    var first := Sweep(keys, fails, current, target);
    assert v in keys && current < v <= target && first.marker == v - 1
      && first.ran == Applied(keys, current, v - 1) by {
      PyScriptFailure(keys, fails, current, target, v);
    }
    var second := Sweep(keys, {}, v - 1, target);
    assert second == Run(target, Applied(keys, v - 1, target), Done) by {
      SweepClean(keys, v - 1, target);
    }
    assert Applied(keys, v - 1, target) != [] && Applied(keys, v - 1, target)[0] == v by {
      AppliedStartsAt(keys, v - 1, target);
    }
    assert Sweep(keys, {}, current, target) == Run(target, Applied(keys, current, target), Done) by {
      SweepClean(keys, current, target);
    }
    AppliedConcat(keys, current, v - 1, target);
  }

  /**
   * After a script raised at `v`, a call with that script alone fixed starts
   * at `v`, runs it first and moves the marker to at least `v`, whatever the
   * later scripts do.
   */
  lemma PyResumesAt(keys: set<nat>, fails: set<nat>, current: nat, target: nat, v: nat)
    requires Sweep(keys, fails, current, target).outcome == Failed(ScriptFailed(v))
    ensures var second := Sweep(keys, fails - {v}, v - 1, target);
      second.ran != [] && second.ran[0] == v && second.marker >= v
  {
    PyScriptFailure(keys, fails, current, target, v);
    var stop := FirstIn(keys * (fails - {v}), v - 1, target);
    if stop.Some? {
      assert stop.value != v;
      AppliedStartsAt(keys, v - 1, stop.value - 1);
    } else {
      AppliedStartsAt(keys, v - 1, target);
    }
  }

  /** The number `int(re.match(r"^(\d+)", s).group(1))`, or 0 where the match fails. */
  function LeadingVersion(s: string): nat
  {
    var digits := LeadingDigits(s);
    if digits == [] then 0 else Value(digits)
  }

  /** A catalogued entry's leading digits are exactly its version prefix. */
  lemma {:induction false} LeadingVersionOfCatalogued(s: string, k: nat)
    requires IsMigrationName(s) && VersionOf(s) == Some(k)
    ensures LeadingVersion(s) == k
  {
    var p := Prefix(s);
    assert '_' in s[..|s| - 4];
    LeadingDigitsOfDigitRun(s, p);
  }

  lemma {:induction false} LeadingDigitsOfDigitRun(s: string, p: string)
    requires |p| < |s| && p == s[..|p|] && AllDigits(p) && !IsDigit(s[|p|])
    ensures LeadingDigits(s) == p
  {
    if p != [] {
      LeadingDigitsOfDigitRun(s[1..], p[1..]);
    }
  }

  /** `_create_migration`'s previous version: the leading number of the last sorted entry, or 0. */
  function PreviousVersion(entries: seq<string>): nat
  {
    if entries == [] then 0 else LeadingVersion(Greatest(entries))
  }

  /** `<zfill(3) of previous + 1>_<sanitised name>.sql`, as `_create_migration` names the new file. */
  function NewMigrationName(name: string, entries: seq<string>): string
  {
    NameFor(PreviousVersion(entries) + 1, name)
  }

  /** The file name built from version `v`: `<zfill(3) of v>_<sanitised name>.sql`. */
  function NameFor(v: nat, name: string): string
  {
    ZFill(Show(v), 3) + "_" + Sanitize(name) + ".sql"
  }

  /**
   * A name built from version `v` matches the glob, is catalogued under `v`,
   * carries at least three version digits and, before `.sql`, holds only
   * `[0-9A-Za-z_]`.
   */
  lemma NameForIsCatalogued(v: nat, name: string)
    ensures var r := NameFor(v, name);
      && IsMigrationName(r) && VersionOf(r) == Some(v)
      && |Prefix(r)| >= 3 && r[|r| - 4..] == ".sql"
      && forall i :: 0 <= i < |r| - 4 ==> IsNameChar(r[i])
  {
    var digits := ZFill(Show(v), 3);
    var clean := Sanitize(name);
    var r := NameFor(v, name);
    assert r == digits + "_" + (clean + ".sql");
    GlobAccepts(digits, clean);
    PrefixBeforeUnderscore(digits, clean + ".sql");
    PaddedRoundTrip(v, 3);
    StemIsNameChars(digits, clean, r);
  }

  lemma StemIsNameChars(digits: string, clean: string, r: string)
    requires AllDigits(digits) && forall i :: 0 <= i < |clean| ==> IsNameChar(clean[i])
    requires r == digits + "_" + clean + ".sql"
    ensures forall i :: 0 <= i < |r| - 4 ==> IsNameChar(r[i])
  {
    var stem := digits + "_" + clean;
    assert r[..|r| - 4] == stem;
    forall i | 0 <= i < |stem|
      ensures IsNameChar(stem[i])
    {
      if i > |digits| {
        assert stem[i] == clean[i - |digits| - 1];
      }
    }
  }

  /** The new migration is catalogued one above the previous version, and a scan that lists it last holds it. */
  lemma NewNameIsNextVersion(name: string, entries: seq<string>, m: map<nat, string>)
    requires Catalog(entries) == Ok(m)
    ensures var r := NewMigrationName(name, entries);
      && IsMigrationName(r) && VersionOf(r) == Some(PreviousVersion(entries) + 1)
      && Catalog(entries + [r]) == Ok(m[PreviousVersion(entries) + 1 := r])
  {
    var r := NewMigrationName(name, entries);
    NameForIsCatalogued(PreviousVersion(entries) + 1, name);
    assert (entries + [r])[..|entries|] == entries;
  }

  /**
   * As written, the version comes from the last entry in sorted order, which
   * need not be a migration: a `README` beside `001_init.sql` sorts last, so
   * the new file is numbered 001 again and shares version 1 with the old one.
   */
  lemma NewNameReusesVersion()
    ensures var entries := ["001_init.sql", "README"];
      && Catalog(entries) == Ok(map[1 := "001_init.sql"])
      && NewMigrationName("x", entries) == "001_x.sql"
      && VersionOf("001_x.sql") == Some(1)
  {
    ReadmeCatalog();
    ReadmeNewName();
    NameForIsCatalogued(1, "x");
  }

  lemma ReadmeCatalog()
    ensures Catalog(["001_init.sql", "README"]) == Ok(map[1 := "001_init.sql"])
  {
    var entries := ["001_init.sql", "README"];
    InitIsVersionOne();
    assert Catalog(entries[..1]) == Ok(map[1 := "001_init.sql"]) by {
      assert entries[..1][..0] == [];
      assert entries[..1][0] == "001_init.sql";
    }
    assert !IsMigrationName("README");
  }

  lemma ReadmeNewName()
    ensures NewMigrationName("x", ["001_init.sql", "README"]) == NameFor(1, "x") == "001_x.sql"
  {
    ReadmeSortsLast();
    PaddedOne();
    assert Sanitize("x") == "x" by {
      assert "x"[1..] == [];
    }
    assert "001" + "_" + "x" + ".sql" == "001_x.sql";
  }

  lemma PaddedOne()
    ensures ZFill(Show(1), 3) == "001"
  {
    assert Show(1) == "1";
    assert Zeros(1) == "0";
    assert Zeros(2) == "00";
    assert Zeros(2) + "1" == "001";
  }

  lemma InitIsVersionOne()
    ensures IsMigrationName("001_init.sql") && VersionOf("001_init.sql") == Some(1)
  {
    assert "001" + "_" + "init.sql" == "001_init.sql";
    PrefixBeforeUnderscore("001", "init.sql");
    assert Value("001") == 1 by {
      assert "001"[..2] == "00" && "00"[..1] == "0" && "0"[..0] == [];
    }
    GlobAccepts("001", "init");
    assert "001" + "_" + "init" + ".sql" == "001_init.sql";
  }

  lemma ReadmeSortsLast()
    ensures PreviousVersion(["001_init.sql", "README"]) == 0
  {
    var entries := ["001_init.sql", "README"];
    assert entries[1..] == ["README"];
    assert LexLe("001_init.sql", "README");
    assert Greatest(entries) == "README";
    assert LeadingDigits("README") == [];
  }

  /** In an empty folder the first migration is numbered `001`. */
  lemma NewNameInEmptyFolder(name: string)
    ensures NewMigrationName(name, []) == "001" + "_" + Sanitize(name) + ".sql"
  {
    PaddedOne();
  }

  /** The highest leading number over all entries: what the new version should follow. */
  function HighestVersion(entries: seq<string>): (h: nat)
    ensures forall e :: e in entries ==> LeadingVersion(e) <= h
    ensures entries == [] ==> h == 0
    ensures entries != [] ==> exists e :: e in entries && LeadingVersion(e) == h
  {
    if entries == [] then 0
    else
      var rest := HighestVersion(entries[1..]);
      assert forall e :: e in entries ==> e == entries[0] || e in entries[1..];
      if LeadingVersion(entries[0]) < rest then
        assert entries[1..] != [];
        var e :| e in entries[1..] && LeadingVersion(e) == rest;
        assert e in entries;
        rest
      else LeadingVersion(entries[0])
  }

  /** The new file name numbered one above every existing version. */
  function NextMigrationName(name: string, entries: seq<string>): string
  {
    NameFor(HighestVersion(entries) + 1, name)
  }

  /** The corrected name is catalogued under a version above every catalogued version. */
  lemma NextNameIsFresh(name: string, entries: seq<string>, m: map<nat, string>)
    requires Catalog(entries) == Ok(m)
    ensures var r := NextMigrationName(name, entries);
      && IsMigrationName(r) && VersionOf(r).Some?
      && VersionOf(r).value !in m
      && forall k :: k in m ==> k < VersionOf(r).value
  {
    var v := HighestVersion(entries) + 1;
    NameForIsCatalogued(v, name);
    CatalogContents(entries, m);
    forall k | k in m
      ensures k < v
    {
      var i :| LastWithVersion(entries, i, k) && entries[i] == m[k];
      LeadingVersionOfCatalogued(entries[i], k);
      assert entries[i] in entries;
    }
  }
}
