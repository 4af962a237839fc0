/**
 * Text handling shared by both variants: the fixed `*_*.sql` glob, the
 * `split('_', 1)[0]` prefix, decimal parsing (Python `int` on plain digit
 * strings), `str` of a natural number, `zfill`, the name sanitiser of the
 * scaffolding helper and Python's lexicographic string order.
 */
module Names {
  import opened Wrappers

  predicate IsDigit(c: char) { '0' <= c <= '9' }

  predicate AllDigits(s: string) { forall i :: 0 <= i < |s| ==> IsDigit(s[i]) }

  /** The glob `*_*.sql`: a `.sql` suffix with an underscore somewhere before it. */
  predicate IsMigrationName(s: string)
  {
    |s| >= 4 && s[|s| - 4..] == ".sql" && '_' in s[..|s| - 4]
  }

  /** Every name of the shape `<a>_<b>.sql` matches the glob. */
  lemma GlobAccepts(a: string, b: string)
    ensures IsMigrationName(a + "_" + b + ".sql")
  {
    var s := a + "_" + b + ".sql";
    assert s[..|s| - 4] == a + "_" + b;
    assert s[..|s| - 4][|a|] == '_';
  }

  /** Every name matching the glob splits as `<a>_<b>.sql`. */
  lemma GlobSplits(s: string) returns (a: string, b: string)
    requires IsMigrationName(s)
    ensures s == a + "_" + b + ".sql"
  {
    var stem := s[..|s| - 4];
    var i :| 0 <= i < |stem| && stem[i] == '_';
    a, b := stem[..i], stem[i + 1..];
    assert stem == a + "_" + b;
    assert s == stem + ".sql";
  }

  /** `s.split('_', 1)[0]`: the text before the first underscore, or all of `s`. */
  function Prefix(s: string): (p: string)
    ensures |p| <= |s| && p == s[..|p|] && '_' !in p
    ensures |p| < |s| ==> s[|p|] == '_'
  {
    if s == [] || s[0] == '_' then [] else [s[0]] + Prefix(s[1..])
  }

  /** The prefix of `p + "_" + rest` is `p` when `p` holds no underscore. */
  lemma {:induction false} PrefixBeforeUnderscore(p: string, rest: string)
    requires '_' !in p
    ensures Prefix(p + "_" + rest) == p
  {
    if p != [] {
      assert (p + "_" + rest)[1..] == p[1..] + "_" + rest;
      PrefixBeforeUnderscore(p[1..], rest);
    }
  }

  function DigitValue(c: char): nat
    requires IsDigit(c)
  {
    (c as int) - ('0' as int)
  }

  function DigitChar(d: nat): (c: char)
    requires d < 10
    ensures IsDigit(c) && DigitValue(c) == d
  {
    (('0' as int) + d) as char
  }

  /** Base-10 value of a digit string, most significant digit first. */
  function Value(s: string): nat
    requires AllDigits(s)
    decreases |s|
  {
    if s == [] then 0 else Value(s[..|s| - 1]) * 10 + DigitValue(s[|s| - 1])
  }

  /** Python `int(s)` restricted to plain digit strings; `None` where it raises. */
  function ParseDecimal(s: string): (r: Option<nat>)
    ensures r.Some? <==> s != [] && AllDigits(s)
  {
    if s != [] && AllDigits(s) then Some(Value(s)) else None
  }

  /** Python `str(n)` for a natural number: decimal digits without leading zeros. */
  function Show(n: nat): (s: string)
    ensures s != [] && AllDigits(s)
    ensures n > 0 ==> s[0] != '0'
    decreases n
  {
    if n < 10 then [DigitChar(n)] else Show(n / 10) + [DigitChar(n % 10)]
  }

  /** Reading back what `Show` wrote gives the number. */
  lemma {:induction false} ShowRoundTrip(n: nat)
    ensures ParseDecimal(Show(n)) == Some(n)
    decreases n
  {
    var s := Show(n);
    if n < 10 {
      assert s[..|s| - 1] == [];
    } else {
      assert s[..|s| - 1] == Show(n / 10);
      ShowRoundTrip(n / 10);
      assert Value(s) == (n / 10) * 10 + n % 10;
    }
  }

  function Zeros(k: nat): (z: string)
    ensures |z| == k && forall i :: 0 <= i < k ==> z[i] == '0'
  {
    if k == 0 then [] else Zeros(k - 1) + ['0']
  }

  /** Python `s.zfill(width)` for a string without a sign. */
  function ZFill(s: string, width: nat): (r: string)
    ensures |r| == if |s| < width then width else |s|
    ensures r[|r| - |s|..] == s
    ensures forall i :: 0 <= i < |r| - |s| ==> r[i] == '0'
    ensures AllDigits(s) ==> AllDigits(r)
  {
    if |s| >= width then s else Zeros(width - |s|) + s
  }

  /** Leading zeros do not change a decimal value. */
  lemma {:induction false} LeadingZerosValue(k: nat, s: string)
    requires AllDigits(s)
    ensures AllDigits(Zeros(k) + s) && Value(Zeros(k) + s) == Value(s)
    decreases |s|, k
  {
    var z := Zeros(k) + s;
    if s == [] {
      assert z == Zeros(k);
      if k > 0 {
        assert z[..|z| - 1] == Zeros(k - 1);
        LeadingZerosValue(k - 1, []);
        assert Zeros(k - 1) + [] == Zeros(k - 1);
      }
    } else {
      assert z[..|z| - 1] == Zeros(k) + s[..|s| - 1];
      LeadingZerosValue(k, s[..|s| - 1]);
    }
  }

  /** A zero-padded `str(n)` still parses back to `n`. */
  lemma PaddedRoundTrip(n: nat, width: nat)
    ensures ParseDecimal(ZFill(Show(n), width)) == Some(n)
  {
    ShowRoundTrip(n);
    var s := Show(n);
    if |s| < width {
      LeadingZerosValue(width - |s|, s);
    }
  }

  /** The match of `^(\d+)`: the longest run of digits at the start of `s`. */
  function LeadingDigits(s: string): (d: string)
    ensures |d| <= |s| && d == s[..|d|] && AllDigits(d)
    ensures |d| < |s| ==> !IsDigit(s[|d|])
  {
    if s == [] || !IsDigit(s[0]) then [] else [s[0]] + LeadingDigits(s[1..])
  }

  /** A character kept by `re.sub(r'[^0-9A-Za-z_]', '_', name)`. */
  predicate IsNameChar(c: char)
  {
    ('0' <= c <= '9') || ('A' <= c <= 'Z') || ('a' <= c <= 'z') || c == '_'
  }

  /** Replaces every character outside `[0-9A-Za-z_]` by `_`. */
  function Sanitize(name: string): (r: string)
    ensures |r| == |name|
    ensures forall i :: 0 <= i < |r| ==> IsNameChar(r[i])
    ensures forall i :: 0 <= i < |r| ==> (r[i] == name[i] <==> IsNameChar(name[i]))
    ensures forall i :: 0 <= i < |r| ==> r[i] == (if IsNameChar(name[i]) then name[i] else '_')
  {
    if name == [] then []
    else [if IsNameChar(name[0]) then name[0] else '_'] + Sanitize(name[1..])
  }

  /** Python's `a <= b` on strings: code point by code point, a prefix first. */
  predicate LexLe(a: string, b: string)
  {
    a == [] || (b != [] && (a[0] < b[0] || (a[0] == b[0] && LexLe(a[1..], b[1..]))))
  }

  lemma {:induction false} LexLeReflexive(a: string)
    ensures LexLe(a, a)
  {
    if a != [] {
      LexLeReflexive(a[1..]);
    }
  }

  lemma {:induction false} LexLeTotal(a: string, b: string)
    ensures LexLe(a, b) || LexLe(b, a)
  {
    if a != [] && b != [] && a[0] == b[0] {
      LexLeTotal(a[1..], b[1..]);
    }
  }

  lemma {:induction false} LexLeTransitive(a: string, b: string, c: string)
    requires LexLe(a, b) && LexLe(b, c)
    ensures LexLe(a, c)
  {
    if a != [] && a[0] == b[0] && b[0] == c[0] {
      LexLeTransitive(a[1..], b[1..], c[1..]);
    }
  }

  lemma {:induction false} LexLeAntisymmetric(a: string, b: string)
    requires LexLe(a, b) && LexLe(b, a)
    ensures a == b
  {
    if a != [] {
      LexLeAntisymmetric(a[1..], b[1..]);
      assert a == [a[0]] + a[1..] && b == [b[0]] + b[1..];
    }
  }

  /** The last element of `sorted(entries)`: the lexicographically greatest entry. */
  function Greatest(entries: seq<string>): (g: string)
    requires entries != []
    ensures g in entries
    ensures forall e :: e in entries ==> LexLe(e, g)
  {
    if |entries| == 1 then
      LexLeReflexive(entries[0]);
      entries[0]
    else
      var rest := Greatest(entries[1..]);
      LexLeTotal(entries[0], rest);
      assert forall e :: e in entries ==> e == entries[0] || e in entries[1..];
      if LexLe(entries[0], rest) then rest
      else
        assert forall e :: e in entries[1..] ==> LexLe(e, entries[0]) by {
          forall e | e in entries[1..] ensures LexLe(e, entries[0]) {
            LexLeTransitive(e, rest, entries[0]);
          }
        }
        LexLeReflexive(entries[0]);
        entries[0]
  }

  /** The greatest entry is the only one every entry sorts before, so `sort()` puts it last. */
  lemma GreatestIsUnique(entries: seq<string>, x: string)
    requires x in entries && forall e :: e in entries ==> LexLe(e, x)
    ensures x == Greatest(entries)
  {
    LexLeAntisymmetric(x, Greatest(entries));
  }
}
