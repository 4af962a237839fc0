/**
 * The two variants side by side: they read the same catalog, but `migrant`
 * counts its versions where `migrantpy` takes the highest, and only `migrant`
 * treats marker 0 as a new database.
 */
module Agreement {
  import opened Wrappers
  import opened Runner
  import MigrantPy
  import Migrant

  /** The versions `0 .. n-1`: a catalog without holes. */
  function Below(n: nat): (s: set<nat>)
    ensures forall k: nat :: k in s <==> k < n
    ensures |s| == n
  {
    if n == 0 then {}
    else
      var s := Below(n - 1) + {n - 1};
      assert n - 1 !in Below(n - 1);
      s
  }

  /** A set of versions all at most `t` has at most `t + 1` members, and exactly that many only when it is `0 .. t`. */
  lemma {:induction false} BoundedCount(s: set<nat>, t: nat)
    requires forall k :: k in s ==> k <= t
    ensures |s| <= t + 1
    ensures |s| == t + 1 <==> s == Below(t + 1)
  {
    var all := Below(t + 1);
    assert s <= all;
    if s != all {
      var missing :| missing in all && missing !in s;
      assert s <= all - {missing};
      assert |all - {missing}| == t;
      SubsetCount(s, all - {missing});
    }
  }

  /** A subset is no larger than its superset. */
  lemma {:induction false} SubsetCount(a: set<nat>, b: set<nat>)
    requires a <= b
    ensures |a| <= |b|
    decreases |b|
  {
    if a != b {
      var x :| x in b && x !in a;
      SubsetCount(a, b - {x});
    }
  }

  /**
   * The count-based target never exceeds the highest version, and the two
   * targets agree exactly when the catalog is `0 .. n-1` without holes.
   */
  lemma TargetsAgree(m: map<nat, string>)
    requires m != map[]
    ensures Migrant.TargetVersion(m) <= MigrantPy.TargetVersion(m).value
    ensures Migrant.TargetVersion(m) == MigrantPy.TargetVersion(m).value <==> m.Keys == Below(|m|)
  {
    var t := MigrantPy.TargetVersion(m).value;
    BoundedCount(m.Keys, t);
    assert |m.Keys| == |m|;
    if m.Keys == Below(|m|) {
      assert t in Below(|m|);
      assert |m| - 1 in m.Keys;
    }
  }

  /** Two stop sets that agree on `(lo, hi]` have the same first stop there. */
  lemma {:induction false} FirstInAgrees(a: set<nat>, b: set<nat>, lo: nat, hi: int)
    requires forall k :: lo < k <= hi ==> (k in a <==> k in b)
    ensures FirstIn(a, lo, hi) == FirstIn(b, lo, hi)
    decreases hi - lo
  {
    if hi > lo {
      FirstInAgrees(a, b, lo, hi - 1);
    }
  }

  /** Over a range without holes, stepping (`migrant`) and sweeping (`migrantpy`) are the same run. */
  lemma StepMatchesSweep(m: map<nat, string>, fails: set<nat>, current: nat, t: nat)
    requires forall k :: current < k <= t ==> k in m
    ensures Migrant.Step(m, fails, current, t) == MigrantPy.Sweep(m.Keys, fails, current, t)
  {
    var stops := Migrant.Stops(m, fails, current, t);
    var first := FirstIn(stops, current, t);
    assert first == FirstIn(m.Keys * fails, current, t) by {
      forall k | current < k <= t
        ensures k in stops <==> k in m.Keys * fails
      {
        assert k in m;
      }
      FirstInAgrees(stops, m.Keys * fails, current, t);
    }
    if first.Some? {
      assert first.value in m;
    }
  }

  /**
   * On a catalog without holes the variants step an existing database the
   * same way: the same scripts, the same stop, the same marker.
   */
  lemma VariantsAgreeWithoutHoles(m: map<nat, string>, fails: set<nat>, current: nat)
    requires m != map[] && m.Keys == Below(|m|) && current > 0
    ensures Migrant.MigrantRun(m, fails, current) == MigrantPy.PyRun(m, fails, current)
  {
    var t := |m| - 1;
    assert MigrantPy.TargetVersion(m) == Some(t) by {
      TargetsAgree(m);
    }
    StepMatchesSweep(m, fails, current, t);
  }

  /**
   * On a new database (marker 0), with migration 0 present and no script
   * raising, the variants part ways: `migrant` runs only migration 0,
   * `migrantpy` runs every version from 1 up and never migration 0.
   */
  lemma VariantsDifferOnNewDatabase(m: map<nat, string>)
    requires m != map[] && 0 in m
    ensures Migrant.MigrantRun(m, {}, 0).ran == [0]
    ensures var py := MigrantPy.PyRun(m, {}, 0);
      py.outcome == Done && 0 !in py.ran && forall k :: k in m && k > 0 ==> k in py.ran
  {
    var t := MigrantPy.TargetVersion(m).value;
    MigrantPy.SweepClean(m.Keys, 0, t);
  }
}
