/**
 * The migration catalog: a directory listing turned into a map from version
 * to entry name. Both variants scan the directory with the same loop.
 */
module MigrationCatalog {
  import opened Wrappers
  import opened Names

  /** The version `int(name.split('_', 1)[0])`; `None` where `int` raises. */
  function VersionOf(name: string): Option<nat>
  {
    ParseDecimal(Prefix(name))
  }

  /** A listed name that matches the glob but whose prefix is not a number. */
  predicate Unparsable(name: string)
  {
    IsMigrationName(name) && VersionOf(name).None?
  }

  /** One iteration of the scan: skip, raise on the entry, or (over)write its version. */
  function Insert(m: map<nat, string>, name: string): Result<map<nat, string>, string>
  {
    if !IsMigrationName(name) then Ok(m)
    else match VersionOf(name)
      case None => Err(name)
      case Some(v) => Ok(m[v := name])
  }

  /** The catalog of a listing, entries taken in listing order; `Err` names the entry that raised. */
  function Catalog(entries: seq<string>): Result<map<nat, string>, string>
    decreases |entries|
  {
    if entries == [] then Ok(map[])
    else match Catalog(entries[..|entries| - 1])
      case Err(e) => Err(e)
      case Ok(m) => Insert(m, entries[|entries| - 1])
  }

  /** `_list_migrations`: fills the dictionary entry by entry. */
  method ListMigrations(entries: seq<string>) returns (r: Result<map<nat, string>, string>)
    ensures r == Catalog(entries)
  {
    var migrations: map<nat, string> := map[];
    for i := 0 to |entries|
      invariant Catalog(entries[..i]) == Ok(migrations)
    {
      assert entries[..i + 1][..i] == entries[..i];
      var name := entries[i];
      if IsMigrationName(name) {
        var number := VersionOf(name);
        if number.None? {
          CatalogErrPersists(entries, i + 1);
          return Err(name);
        }
        migrations := migrations[number.value := name];
      }
    }
    assert entries[..|entries|] == entries;
    return Ok(migrations);
  }

  /** Once a prefix of the listing raises, the whole scan raises on the same entry. */
  lemma {:induction false} CatalogErrPersists(entries: seq<string>, n: nat)
    requires n <= |entries| && Catalog(entries[..n]).Err?
    ensures Catalog(entries) == Catalog(entries[..n])
    decreases |entries| - n
  {
    if n == |entries| {
      assert entries[..n] == entries;
    } else {
      assert entries[..n + 1][..n] == entries[..n];
      CatalogErrPersists(entries, n + 1);
    }
  }

  /**
   * The scan raises exactly when some matching entry has a non-numeric prefix,
   * and then on the first such entry in listing order.
   */
  lemma {:induction false} CatalogFailsOnFirstUnparsable(entries: seq<string>)
    ensures Catalog(entries).Err? <==> exists i :: 0 <= i < |entries| && Unparsable(entries[i])
    ensures Catalog(entries).Err? ==>
      exists i :: 0 <= i < |entries| && entries[i] == Catalog(entries).error && Unparsable(entries[i]) &&
        forall j :: 0 <= j < i ==> !Unparsable(entries[j])
    decreases |entries|
  {
    if entries != [] {
      var init := entries[..|entries| - 1];
      var last := |entries| - 1;
      CatalogFailsOnFirstUnparsable(init);
      assert forall j :: 0 <= j < |init| ==> init[j] == entries[j];
      if Catalog(init).Ok? {
        assert Catalog(entries).Err? <==> Unparsable(entries[last]);
      }
    }
  }

  /** The entry at index `i` is the last one in the listing that is catalogued under `k`. */
  ghost predicate LastWithVersion(entries: seq<string>, i: int, k: nat)
  {
    && 0 <= i < |entries|
    && IsMigrationName(entries[i]) && VersionOf(entries[i]) == Some(k)
    && forall j :: i < j < |entries| && IsMigrationName(entries[j]) ==> VersionOf(entries[j]) != Some(k)
  }

  /**
   * A successful scan holds every matching entry under its version, and each
   * version holds the entry listed last among those with that version.
   */
  lemma {:induction false} CatalogContents(entries: seq<string>, m: map<nat, string>)
    requires Catalog(entries) == Ok(m)
    ensures forall i :: 0 <= i < |entries| && IsMigrationName(entries[i]) ==>
      VersionOf(entries[i]).Some? && VersionOf(entries[i]).value in m
    ensures forall k :: k in m ==> exists i :: LastWithVersion(entries, i, k) && entries[i] == m[k]
    decreases |entries|
  {
    if entries != [] {
      var init := entries[..|entries| - 1];
      var last := |entries| - 1;
      var name := entries[last];
      assert forall j :: 0 <= j < |init| ==> init[j] == entries[j];
      var m0 := Catalog(init).value;
      CatalogContents(init, m0);
      forall k | k in m
        ensures exists i :: LastWithVersion(entries, i, k) && entries[i] == m[k]
      {
        if IsMigrationName(name) && VersionOf(name) == Some(k) {
          assert LastWithVersion(entries, last, k);
        } else {
          assert k in m0 && m[k] == m0[k];
          var i :| LastWithVersion(init, i, k) && init[i] == m0[k];
          assert LastWithVersion(entries, i, k);
        }
      }
    }
  }
}
