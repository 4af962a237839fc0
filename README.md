# migrant — a Dafny model of a SQLite schema-migration engine

The engine keeps a database schema up to date from a folder of plain SQL
files named `<version>_<description>.sql`. It ships in two variants:

- `migrantpy.py` takes the highest catalogued version as its target. It steps
  through every version above the database's marker (`PRAGMA user_version`).
  A version without a file runs nothing, but the marker still moves past it.
  The variant also computes the file name of the next migration to author.
- `migrant.py` takes the number of catalogued versions less one as its target.
  A database whose marker is 0 is created by migration 0 alone and then stamped
  with the target. Any other database steps through the versions above its
  marker, and a missing version raises.

The model has these modules:

- `Wrappers` (`wrappers.dfy`): `Option` and `Result`.
- `Names` (`names.dfy`): the string work both variants do.
  - the glob `*_*.sql`;
  - `split('_', 1)[0]`;
  - `int()` on digit strings, and `str()`;
  - `zfill`;
  - the leading `^(\d+)` match;
  - the `re.sub` that sanitises a name;
  - string order, and the last element of `sorted()`.
- `MigrationCatalog` (`catalog.dfy`): the directory scan shared by both
  variants. It is a `Catalog` function over the listing, plus the
  `ListMigrations` loop proved equal to it.
- `Runner` (`runner.dfy`): the database as a class.
  - `version` is the marker.
  - `log` is the scripts executed, in order.
  - The constant `failsAt` holds the versions whose scripts raise.

  It also defines the run record (`Run`: final marker, scripts executed,
  outcome) and the range functions both runners are specified with.
- `MigrantPy` (`migrantpy.dfy`) and `Migrant` (`migrant.dfy`): each variant's
  `migrate`.
  - A method on the database, with a loop, proved against a specification
    function (`PyMigration`, `MigrantMigration`).
  - Lemmas about that function.
  - For `migrantpy`, the new-migration name.
- `Agreement` (`agreement.dfy`): the two variants compared: their targets,
  their runs on catalogs without holes, and their runs on a new database.

An exception in the source is an `Err` result or a `Failed` outcome here.
The marker and the log then hold whatever the source would have written
before the exception.

The model keeps these behaviours of the code as written:

- A second entry with an already catalogued version overwrites the first.
  There is no duplicate-version error.
- `migrantpy` skips a missing version and advances the marker over it.
- `migrant` stops at a missing version with the marker just below it, not at
  the starting marker.
- On an empty catalog, `migrantpy` raises (`mkeys[0]`) rather than doing
  nothing.
- `migrant` with marker 0 and no migration 0 raises rather than stepping
  forward.
- `migrant` uses the count-based target; `migrantpy` uses the highest version.

## Model

| member | source | states |
|---|---|---|
| Names.GlobAccepts | migrantpy.py:39 | every name of the form `<a>_<b>.sql` passes the glob `*_*.sql` |
| Names.IsMigrationName | migrantpy.py:39 | defines the glob `*_*.sql`: a `.sql` suffix with a `_` somewhere before it; `GlobAccepts` and `GlobSplits` characterise it |
| Names.GlobSplits | migrantpy.py:39 | every name the glob passes has the form `<a>_<b>.sql` (the converse of `GlobAccepts`) |
| Names.Prefix | migrantpy.py:40 | `split('_', 1)[0]` is the longest start of the name without `_`; when shorter than the name, a `_` follows it |
| Names.PrefixBeforeUnderscore | migrantpy.py:40 | the split prefix of `p + "_" + rest` is `p` whenever `p` holds no `_` |
| Names.Value | migrantpy.py:40 | defines the number a digit string denotes, most significant digit first, as `int()` returns it; `ShowRoundTrip` and `LeadingZerosValue` characterise it |
| Names.ParseDecimal | migrantpy.py:40 | `int()` of the prefix succeeds exactly on non-empty digit strings; otherwise it raises |
| Names.Show | migrantpy.py:123 | `str(n)` is a non-empty digit string without a leading zero for `n > 0` |
| Names.ShowRoundTrip | migrantpy.py:123 | parsing `str(n)` gives back `n` |
| Names.ZFill | migrantpy.py:123 | `zfill(w)` has length `max(w, len)`, ends with the input, pads with `'0'` only, and keeps a digit string a digit string |
| Names.LeadingZerosValue | migrantpy.py:123 | leading zeros do not change a decimal value |
| Names.PaddedRoundTrip | migrantpy.py:123 | the zero-padded `str(n)` still parses back to `n` |
| Names.LeadingDigits | migrantpy.py:120 | the `^(\d+)` match is the longest run of digits at the start of the entry |
| Names.Sanitize | migrantpy.py:124 | the substitution keeps every character of `[0-9A-Za-z_]` and replaces every other character by `_`; so it keeps the length, yields only `[0-9A-Za-z_]`, and keeps a character exactly when it is already one of those |
| Names.LexLe | migrantpy.py:118 | defines Python's `<=` on strings that `sort()` uses: code point by code point, a prefix first; `LexLeReflexive`, `LexLeTotal`, `LexLeTransitive` and `LexLeAntisymmetric` show it is a total order |
| Names.LexLeReflexive | migrantpy.py:118 | the string order that `sort()` uses is reflexive |
| Names.LexLeTotal | migrantpy.py:118 | the string order is total |
| Names.LexLeTransitive | migrantpy.py:118 | the string order is transitive |
| Names.LexLeAntisymmetric | migrantpy.py:118 | the string order is antisymmetric |
| Names.Greatest | migrantpy.py:118-120 | `sorted(entries)[-1]` is an entry that every entry sorts at or before |
| Names.GreatestIsUnique | migrantpy.py:118-120 | only one entry has that property, so the last sorted entry is well defined |
| MigrationCatalog.ListMigrations | migrantpy.py:29-42 | the scan loop builds exactly `Catalog(entries)`; `migrant.py:14-27` is the same loop |
| MigrationCatalog.VersionOf | migrantpy.py:40 | defines an entry's version as `int()` of the text before its first `_`, `None` where `int()` raises |
| MigrationCatalog.Insert | migrantpy.py:39-41 | defines one iteration of the scan: a non-matching entry is skipped, an unparsable one raises, otherwise its version is (over)written with it |
| MigrationCatalog.Catalog | migrantpy.py:37-42 | defines the scan of a whole listing, entries in listing order; `CatalogContents` and `CatalogFailsOnFirstUnparsable` characterise it |
| MigrationCatalog.CatalogErrPersists | migrantpy.py:38-41 | once an entry raises, the scan ends with that error whatever follows |
| MigrationCatalog.CatalogFailsOnFirstUnparsable | migrant.py:23-25 | the scan raises exactly when a glob-matching entry has a non-numeric prefix, and it raises on the first such entry in listing order |
| MigrationCatalog.CatalogContents | migrantpy.py:37-42 | every glob-matching entry's version is a key; each key holds the entry listed last with that version, so a later duplicate overwrites an earlier one; no key comes from a non-matching entry |
| Runner.Database.GetVersion | migrantpy.py:45-53 | reading the marker returns the stored version |
| Runner.Database.SetVersion | migrantpy.py:56-63 | writing the marker stores that version and changes nothing else |
| Runner.Database.ExecuteScript | migrant.py:62-70 | a script succeeds unless its version is in `failsAt`; only a successful script is appended to the log |
| Runner.Applied | migrantpy.py:109-113 | the scripts a run over `(lo, hi]` executes are exactly the catalogued versions in that range |
| Runner.AppliedAscending | migrantpy.py:109-113 | they run in strictly ascending order, so none runs twice |
| Runner.AppliedConcat | migrantpy.py:109-113 | running `(a, b]` and then `(b, c]` executes exactly what running `(a, c]` does |
| Runner.AppliedDense | migrant.py:92-96 | over a range without holes, the run is `lo+1, lo+2, ..., hi` |
| Runner.AppliedStartsAt | migrantpy.py:109-111 | a run starting just below a catalogued version executes that version first |
| Runner.FirstIn | migrantpy.py:110-112 | the first stop in a range is the least version of the stop set in it, and `None` means that no version in the range is in the set |
| Runner.FirstInStable | migrantpy.py:110-112 | widening the range past the first stop does not move it |
| MigrantPy.TargetVersion | migrantpy.py:66-76 | `None` (the `mkeys[0]` IndexError) exactly for the empty catalog; otherwise a catalogued version no smaller than any other, the highest |
| MigrantPy.RunMigration | migrantpy.py:79-91 | a missing path (`None`) executes nothing and succeeds; otherwise the script runs and is logged unless it raises |
| MigrantPy.Migrate | migrantpy.py:94-113 | the outcome, the new marker and the new log are those of `PyMigration` on the old marker |
| MigrantPy.PyMigration | migrantpy.py:104-113 | defines the end state of `migrate`: a scan that raises touches nothing, otherwise `PyRun` on the catalog |
| MigrantPy.PyRun | migrantpy.py:107-113 | defines a run over a catalog: an empty catalog raises at the target, otherwise `Sweep` up to the highest version |
| MigrantPy.Sweep | migrantpy.py:109-113 | defines the loop: catalogued versions in `(current, target]` run in order up to the first that raises, the marker one below it or at `max(current, target)`; `PySuccess`, `PyScriptFailure` and `PyResume` characterise it |
| MigrantPy.RunPending | migrantpy.py:109-113 | the `while` loop leaves the outcome, the marker and the log that `Sweep` specifies |
| MigrantPy.PyErrorsBeforeRunning | migrantpy.py:104-108 | a scan that raises, or an empty catalog, stops `migrate` before any script or marker write |
| MigrantPy.PySuccess | migrantpy.py:107-113 | the run succeeds exactly when no pending catalogued script raises; it then runs every catalogued version above the marker, in ascending order, and ends at `max(current, highest version)`; a failed run is ascending too |
| MigrantPy.PyScriptFailure | migrantpy.py:110-112 | a raising script at `v` is catalogued, lies in `(current, target]`, leaves the marker at `v-1`, and follows exactly the catalogued versions below it |
| MigrantPy.PyGapAdvancesMarker | migrantpy.py:109-113 | a version without a file inside the range is never executed, yet a successful run's marker passes it (through the `None` check at lines 85-86) |
| MigrantPy.PyUpToDate | migrantpy.py:109-110 | a marker at or above the target runs nothing and keeps the marker |
| MigrantPy.PyIdempotent | migrantpy.py:108-113 | after a successful run, a second `migrate` on the same catalog runs nothing and keeps the marker, whatever the scripts do |
| MigrantPy.SweepClean | migrantpy.py:109-113 | when no script raises, the loop runs every catalogued version in `(current, target]` and ends at `max(current, target)` |
| MigrantPy.PyResume | migrantpy.py:109-113 | after a failure at `v`, a call with fixed scripts resumes at `v`; the two calls together run exactly what one clean call would have, and end at the same marker |
| MigrantPy.PyResumesAt | migrantpy.py:109-113 | after a failure at `v`, a call with only that script fixed starts at `v`, runs it first and moves the marker to at least `v`, whatever later scripts do |
| MigrantPy.LeadingVersionOfCatalogued | migrantpy.py:120 | for a catalogued entry, the `^(\d+)` number is its catalogued version |
| MigrantPy.LeadingVersion | migrantpy.py:120-122 | defines the number of the `^(\d+)` match, 0 where the match fails and `.group` raises |
| MigrantPy.PreviousVersion | migrantpy.py:117-122 | defines the previous version as the leading number of the last sorted entry, 0 for an empty folder |
| MigrantPy.NewMigrationName | migrantpy.py:123-124 | defines the new name `<zfill(3) of previous + 1>_<sanitised name>.sql`; `NewNameIsNextVersion`, `NewNameInEmptyFolder` and `NewNameReusesVersion` characterise it |
| MigrantPy.NameFor | migrantpy.py:123-124 | defines the file name built from a version: `<zfill(3) of v>_<sanitised name>.sql`; `NameForIsCatalogued` characterises it |
| MigrantPy.NameForIsCatalogued | migrantpy.py:123-124 | the name built from version `v` passes the glob, is catalogued under `v`, has at least three version digits, and before `.sql` holds only `[0-9A-Za-z_]` |
| MigrantPy.NewNameIsNextVersion | migrantpy.py:116-124 | the new name is catalogued one above the previous version, and a scan that lists it after every existing entry maps that version to it |
| MigrantPy.NewNameInEmptyFolder | migrantpy.py:119-123 | in an empty folder, the first new migration is numbered `001` |
| MigrantPy.NewNameReusesVersion | migrantpy.py:117-120 | as written: with `README` beside `001_init.sql`, the new file is `001_x.sql` and reuses version 1 |
| MigrantPy.HighestVersion | migrantpy.py:117-123 | (corrected) the highest leading number over all entries: no entry's is larger, some entry's equals it, and it is 0 for an empty folder |
| MigrantPy.NextMigrationName | migrantpy.py:123-124 | (corrected) defines the new name numbered one above `HighestVersion`; `NextNameIsFresh` characterises it |
| MigrantPy.NextNameIsFresh | migrantpy.py:116-124 | (corrected) the new name is catalogued under a version above every catalogued version, so under none of them |
| Migrant.TargetVersion | migrant.py:51-59 | the target is at least -1, and it is -1 exactly for the empty catalog |
| Migrant.Migrate | migrant.py:73-96 | the outcome, the new marker and the new log are those of `MigrantMigration` on the old marker |
| Migrant.MigrantMigration | migrant.py:83-96 | defines the end state of `migrate`: a scan that raises touches nothing, otherwise `MigrantRun` on the catalog |
| Migrant.MigrantRun | migrant.py:86-96 | defines a run over a catalog: marker 0 runs migration 0 (raising when it is missing) and stamps the count target, any other marker is stepped up by `Step` |
| Migrant.Stops | migrant.py:92-95 | defines the versions in `(current, target]` where stepping stops: no entry (`KeyError`), or a script that raises |
| Migrant.Step | migrant.py:92-96 | defines the stepping loop: versions run in order up to the first stop, the marker one below it or at `max(current, target)`; `StepCompletes` and `StepStopsAt` characterise it |
| Migrant.StepUp | migrant.py:91-96 | the `while` loop leaves the outcome, the marker and the log that `Step` specifies |
| Migrant.StepClear | migrant.py:92-96 | with no stop in the range, stepping runs every catalogued version in it and ends at `max(current, target)` |
| Migrant.StepFirstStop | migrant.py:93-95 | stepping ends one below the least stop in the range |
| Migrant.StepCompletes | migrant.py:92-96 | stepping succeeds exactly when every version in the range is catalogued and none raises |
| Migrant.StepStopsAt | migrant.py:93-95 | at the first missing or raising version `f`, stepping ends with marker `f-1`, `MissingMigration` or `ScriptFailed` accordingly, after running what lies below `f` |
| Migrant.MigrantErrorsBeforeRunning | migrant.py:83-89 | a scan that raises, or a new database without migration 0 (`KeyError`), stops `migrate` before any script or marker write |
| Migrant.MigrantStepsContiguously | migrant.py:92-96 | a successful step-up runs `current+1, ..., target` with none skipped, and ends at `max(current, target)` |
| Migrant.MigrantHoleStops | migrant.py:94 | a version missing below the target makes every existing database beneath it fail, with the marker below the hole |
| Migrant.MigrantStepFailure | migrant.py:93-95 | a failed step names a version `f` in `(current, target]`; it is `MissingMigration` exactly when `f` has no entry; the marker is `f-1` and the versions below ran contiguously |
| Migrant.MigrantResumesAt | migrant.py:92-96 | after a script failure at `f` while stepping, a call with only that script fixed starts at `f`, runs it first and moves the marker to at least `f` |
| Migrant.MigrantUpToDate | migrant.py:92 | an existing database at or above the target runs nothing and keeps its marker |
| Migrant.MigrantIdempotent | migrant.py:91-96 | after a successful step-up, a second `migrate` runs nothing and keeps the marker, whatever the scripts do |
| Migrant.MigrantBootstrap | migrant.py:88-90 | a new database runs migration 0 alone, never a later version, and is stamped with the count-based target |
| Migrant.MigrantBootstrapRepeats | migrant.py:88-90 | with migration 0 as the only entry the stamp is 0 again, so every later call runs migration 0 once more |
| Migrant.TestCatalog | test_migrant.py:35-38 | the test folder is catalogued as versions 0, 1 and 2 |
| Migrant.TestTarget | test_migrant.py:55-58 | the test catalog's target is 2 |
| Migrant.TestMigrateInitial | test_migrant.py:88-101 | a new database with the test folder runs `000_FULL.sql` alone and ends at the target 2 |
| Migrant.TestMigrateFirstToSecond | test_migrant.py:121-137 | a database at version 1 runs only migration 2 and ends at 2 |
| Agreement.TargetsAgree | migrant.py:59 | the count-based target never exceeds the highest version, and the two agree exactly when the catalog is `0 .. n-1` without holes |
| Agreement.FirstInAgrees | migrant.py:92-96 | two stop sets that agree on a range have the same first stop there |
| Agreement.StepMatchesSweep | migrant.py:92-96 | over a range without holes, `migrant`'s stepping and `migrantpy`'s loop give the same run |
| Agreement.VariantsAgreeWithoutHoles | migrant.py:91-96 | on a catalog without holes, both variants bring an existing database to the same marker with the same scripts and outcome |
| Agreement.VariantsDifferOnNewDatabase | migrant.py:88-90 | on a new database, when migration 0 exists and no script raises, `migrant` runs only migration 0, while `migrantpy` succeeds, runs every catalogued version from 1 up and never migration 0 |

## Left out

- SQLite itself is not modelled: connections, `executescript`, transactions and the contents of the scripts. A script is identified by its version. Whether it raises is the constant set `failsAt`, fixed for the life of the database.
- Runner.Database.ExecuteScript: a raising script leaves no trace in the log. A real `executescript` may already have committed the statements before the one that raised.
- Runner.Database.SetVersion: the marker is a `nat`. `PRAGMA user_version` is a signed 32-bit integer, so negative markers and versions beyond 2147483647 are not modelled.
- The filesystem is not modelled. The directory listing is a parameter (`seq<string>`) in whatever order `os.listdir` yields it. A catalogued value is the entry's base name, without the `os.path.join` folder prefix. Opening and reading files, and creating the empty file for a new migration, are left out.
- Names.IsMigrationName: models the fixed pattern `*_*.sql` case-sensitively. `fnmatch` folds case where the platform's `os.path.normcase` does.
- Names.ParseDecimal: accepts ASCII digit strings only. Python's `int()` also accepts surrounding whitespace, a sign, `_` separators and non-ASCII digits; the model treats those prefixes as raising.
- Names.LeadingDigits: matches ASCII digits only, where Python's `\d` also matches other Unicode decimal digits.
- The `print` progress messages, the command-line interface (`_main`, argparse, the `__main__` blocks) and `setup.py` are left out.
- Reading and writing the marker are modelled as methods on the database class. The SQL text of the `PRAGMA` statements is left out.

## Findings

| source | as written | input that shows it | evidently intended | confidence | as-written member | corrected member |
|---|---|---|---|---|---|---|
| migrantpy.py:117-123 | the new version is one more than the leading number of the last entry in sorted order | folder `["001_init.sql", "README"]`: `README` sorts last, has no leading digits, so the new file is `001_x.sql`, the same version as `001_init.sql` | one more than the highest existing version, so that the new file's version is not already taken | not executed | MigrantPy.NewNameReusesVersion | MigrantPy.NextNameIsFresh |
