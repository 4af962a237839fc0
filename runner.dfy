/**
 * What both `migrate` variants share: the database as seen by the engine
 * (the `PRAGMA user_version` marker and the scripts executed against it),
 * the ways a run can end, and the version ranges a run steps through.
 */
module Runner {
  import opened Wrappers

  /** The exceptions `migrate` can raise. */
  datatype Error =
    | BadName(entry: string)          // `int()` raised on the prefix of a matching entry
    | NoMigrations                    // the catalog is empty and the target lookup raised
    | MissingMigration(version: nat)  // a version the runner needs has no entry
    | ScriptFailed(version: nat)      // the database rejected that version's script

  datatype Outcome = Done | Failed(error: Error)

  /** The end state of one `migrate` call: the marker, the scripts run (in order) and how it ended. */
  datatype Run = Run(marker: nat, ran: seq<nat>, outcome: Outcome)

  /**
   * A SQLite database reduced to what the engine touches. Scripts are named
   * by their version; the caller decides, through `failsAt`, which of them the
   * database rejects.
   */
  class Database {
    var version: nat
    var log: seq<nat>
    const failsAt: set<nat>

    constructor (version: nat, failsAt: set<nat>)
      ensures this.version == version && log == [] && this.failsAt == failsAt
    {
      this.version := version;
      this.log := [];
      this.failsAt := failsAt;
    }

    /** `PRAGMA user_version;` */
    method GetVersion() returns (v: nat)
      ensures v == version
    {
      v := version;
    }

    /** `PRAGMA user_version = v;` */
    method SetVersion(v: nat)
      modifies this`version
      ensures version == v
    {
      version := v;
    }

    /** `executescript` of migration `v`'s file: a rejected script leaves no trace in the log. */
    method ExecuteScript(v: nat) returns (ok: bool)
      modifies this`log
      ensures ok == (v !in failsAt)
      ensures log == if ok then old(log) + [v] else old(log)
    {
      ok := v !in failsAt;
      if ok {
        log := log + [v];
      }
    }
  }

  function Max(a: int, b: int): int { if a < b then b else a }

  /** The versions of `keys` in `(lo, hi]`, ascending: the scripts a run over that range executes. */
  function Applied(keys: set<nat>, lo: nat, hi: int): (r: seq<nat>)
    ensures forall k :: k in r <==> k in keys && lo < k <= hi
    decreases hi - lo
  {
    if hi <= lo then [] else Applied(keys, lo, hi - 1) + (if hi in keys then [hi] else [])
  }

  /** Strictly ascending, so no version twice. */
  predicate Ascending(s: seq<nat>)
  {
    forall i, j :: 0 <= i < j < |s| ==> s[i] < s[j]
  }

  /** A run executes its versions in strictly ascending order, so none twice. */
  lemma {:induction false} AppliedAscending(keys: set<nat>, lo: nat, hi: int)
    ensures Ascending(Applied(keys, lo, hi))
    decreases hi - lo
  {
    if hi > lo {
      var prev := Applied(keys, lo, hi - 1);
      AppliedAscending(keys, lo, hi - 1);
      if hi in keys {
        var r := prev + [hi];
        assert Applied(keys, lo, hi) == r;
        forall i, j | 0 <= i < j < |r|
          ensures r[i] < r[j]
        {
          if j < |prev| {
            assert r[i] == prev[i] && r[j] == prev[j];
          } else {
            assert r[i] == prev[i] && prev[i] in prev;
            assert r[j] == hi;
          }
        }
      } else {
        assert Applied(keys, lo, hi) == prev;
      }
    }
  }

  /** Running `(a, b]` and then `(b, c]` executes exactly what running `(a, c]` does. */
  lemma {:induction false} AppliedConcat(keys: set<nat>, a: nat, b: nat, c: int)
    requires a <= b <= c
    ensures Applied(keys, a, b) + Applied(keys, b, c) == Applied(keys, a, c)
    decreases c - b
  {
    if c > b {
      AppliedConcat(keys, a, b, c - 1);
    }
  }

  /** Over a range without holes every version runs: the run is `lo+1, lo+2, ..., hi`. */
  lemma {:induction false} AppliedDense(keys: set<nat>, lo: nat, hi: int)
    requires forall k :: lo < k <= hi ==> k in keys
    ensures |Applied(keys, lo, hi)| == Max(0, hi - lo)
    ensures forall i :: 0 <= i < |Applied(keys, lo, hi)| ==> Applied(keys, lo, hi)[i] == lo + 1 + i
    decreases hi - lo
  {
    if hi > lo {
      var prev := Applied(keys, lo, hi - 1);
      AppliedDense(keys, lo, hi - 1);
      assert |prev| == hi - 1 - lo;
      assert Applied(keys, lo, hi) == prev + [hi];
    }
  }

  /** A run that starts just below a catalogued version executes that version first. */
  lemma AppliedStartsAt(keys: set<nat>, lo: nat, hi: int)
    requires lo < hi && lo + 1 in keys
    ensures Applied(keys, lo, hi) != [] && Applied(keys, lo, hi)[0] == lo + 1
  {
    var r := Applied(keys, lo, hi);
    AppliedAscending(keys, lo, hi);
    assert lo + 1 in r;
    assert r[0] in r;
  }

  /** The least version of `bad` in `(lo, hi]`: where a run over that range stops. */
  function FirstIn(bad: set<nat>, lo: nat, hi: int): (r: Option<nat>)
    ensures r.Some? ==> lo < r.value <= hi && r.value in bad && forall k :: lo < k < r.value ==> k !in bad
    ensures r.None? ==> forall k :: lo < k <= hi ==> k !in bad
    decreases hi - lo
  {
    if hi <= lo then None
    else match FirstIn(bad, lo, hi - 1)
      case Some(f) => Some(f)
      case None => if hi in bad then Some(hi) else None
  }

  /** Widening the range past the first stop does not move it. */
  lemma FirstInStable(bad: set<nat>, lo: nat, mid: int, hi: int)
    requires mid <= hi && FirstIn(bad, lo, mid).Some?
    ensures FirstIn(bad, lo, hi) == FirstIn(bad, lo, mid)
  {
  }
}
