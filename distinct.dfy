/**
 * The option lists of the country and port filters (index.js:329-330):
 * `[...new Set(rawData.map(item => item.country))]`.  A `Set` keeps its
 * elements in first-insertion order, so spreading it lists each distinct
 * value once, in the order of its first occurrence.  A record without the key
 * contributes `undefined`, modelled as None.
 */
module Distinct {

  import opened Wrappers
  import opened HostRecord

  /** Adding the elements of `s` in turn to a set whose insertion order is `seen`. */
  function AddAll<T(==)>(seen: seq<T>, s: seq<T>): seq<T>
    decreases |s|
  {
    if s == [] then seen else AddAll(if s[0] in seen then seen else seen + [s[0]], s[1..])
  }

  /** `[...new Set(s)]`. */
  function Dedup<T(==)>(s: seq<T>): seq<T> {
    AddAll([], s)
  }

  predicate NoDuplicates<T(==)>(s: seq<T>) {
    forall i, j :: 0 <= i < j < |s| ==> s[i] != s[j]
  }

  lemma {:induction false} AddAllSpec<T>(seen: seq<T>, s: seq<T>)
    requires NoDuplicates(seen)
    ensures NoDuplicates(AddAll(seen, s))
    ensures forall x :: x in AddAll(seen, s) <==> x in seen || x in s
    ensures |seen| <= |AddAll(seen, s)| && AddAll(seen, s)[..|seen|] == seen
    decreases |s|
  {
    if s != [] {
      var next := if s[0] in seen then seen else seen + [s[0]];
      AddAllSpec(next, s[1..]);
      assert next[..|seen|] == seen;
      assert forall x :: x in s <==> x == s[0] || x in s[1..];
    }
  }

  /** Adding one more element appends it exactly when it is new. */
  lemma {:induction false} AddAllSnoc<T>(seen: seq<T>, s: seq<T>, x: T)
    ensures AddAll(seen, s + [x]) == (var r := AddAll(seen, s); if x in r then r else r + [x])
    decreases |s|
  {
    if s == [] {
      assert [x][1..] == [];
    } else {
      assert (s + [x])[0] == s[0] && (s + [x])[1..] == s[1..] + [x];
      AddAllSnoc(if s[0] in seen then seen else seen + [s[0]], s[1..], x);
    }
  }

  /**
   * Dedup lists every value of `s` once and nothing else, each value at the
   * place of its first occurrence: the list for `s + [x]` is that for `s`,
   * with `x` appended only when `s` did not hold it.
   */
  lemma DedupSpec<T>(s: seq<T>, x: T)
    ensures NoDuplicates(Dedup(s))
    ensures forall y :: y in Dedup(s) <==> y in s
    ensures |Dedup(s)| <= |s|
    ensures Dedup(s + [x]) == if x in s then Dedup(s) else Dedup(s) + [x]
  {
    DedupElements(s);
    DistinctLength(Dedup(s), s);
    AddAllSnoc([], s, x);
  }

  lemma DedupElements<T>(s: seq<T>)
    ensures NoDuplicates(Dedup(s))
    ensures forall y :: y in Dedup(s) ==> y in s
    ensures forall y :: y in s ==> y in Dedup(s)
  {
    AddAllSpec([], s);
    forall y | y in Dedup(s) ensures y in s {
      AddAllMember([], s, y);
    }
  }

  lemma {:induction false} AddAllMember<T>(seen: seq<T>, s: seq<T>, y: T)
    requires y in AddAll(seen, s)
    ensures y in seen || y in s
    decreases |s|
  {
    if s != [] {
      AddAllMember(if s[0] in seen then seen else seen + [s[0]], s[1..], y);
    }
  }

  /** A duplicate-free sequence whose elements all occur in `s` is no longer than `s`. */
  lemma {:induction false} DistinctLength<T>(d: seq<T>, s: seq<T>)
    requires NoDuplicates(d)
    requires forall y :: y in d ==> y in s
    ensures |d| <= |s|
    decreases |d|
  {
    if d != [] {
      var x := d[0];
      assert x in s;
      var i :| 0 <= i < |s| && s[i] == x;
      var s' := s[..i] + s[i + 1..];
      forall y | y in d[1..] ensures y in s' {
        var k :| 0 <= k < |d[1..]| && d[1..][k] == y;
        assert y == d[k + 1] && y != x;
        assert y in d;
        var m :| 0 <= m < |s| && s[m] == y;
        if m < i { assert s'[m] == y; } else { assert s'[m - 1] == y; }
      }
      DistinctLength(d[1..], s');
    }
  }

  /** Deduplicating twice is deduplicating once. */
  lemma DedupIdempotent<T>(s: seq<T>)
    ensures Dedup(Dedup(s)) == Dedup(s)
  {
    AddAllSpec([], s);
    DedupOfDistinct([], Dedup(s));
  }

  lemma {:induction false} DedupOfDistinct<T>(seen: seq<T>, d: seq<T>)
    requires NoDuplicates(seen + d)
    ensures AddAll(seen, d) == seen + d
    decreases |d|
  {
    if d != [] {
      forall i | 0 <= i < |seen| ensures seen[i] != d[0] {
        assert (seen + d)[i] == seen[i] && (seen + d)[|seen|] == d[0];
      }
      assert seen + d == (seen + [d[0]]) + d[1..];
      DedupOfDistinct(seen + [d[0]], d[1..]);
    }
  }

  /** `uniqueCountries`. */
  function UniqueCountries(raw: seq<Entry>): seq<Option<string>> {
    Dedup(seq(|raw|, k requires 0 <= k < |raw| => Lookup(raw[k], Country)))
  }

  /** `uniquePorts`. */
  function UniquePorts(raw: seq<Entry>): seq<Option<string>> {
    Dedup(seq(|raw|, k requires 0 <= k < |raw| => Lookup(raw[k], Port)))
  }

  /** Every record's country value is listed exactly once, and nothing else is. */
  lemma UniqueCountriesSpec(raw: seq<Entry>)
    ensures NoDuplicates(UniqueCountries(raw))
    ensures forall v :: v in UniqueCountries(raw) <==> exists k :: 0 <= k < |raw| && Lookup(raw[k], Country) == v
    ensures |UniqueCountries(raw)| <= |raw|
  {
    var vals := seq(|raw|, k requires 0 <= k < |raw| => Lookup(raw[k], Country));
    DedupSpec(vals, None);
    forall v ensures v in vals <==> exists k :: 0 <= k < |raw| && Lookup(raw[k], Country) == v {
      if v in vals {
        var k :| 0 <= k < |vals| && vals[k] == v;
      }
      if exists k :: 0 <= k < |raw| && Lookup(raw[k], Country) == v {
        var k :| 0 <= k < |raw| && Lookup(raw[k], Country) == v;
        assert vals[k] == v;
      }
    }
  }

  /** Every record's port value is listed exactly once, and nothing else is. */
  lemma UniquePortsSpec(raw: seq<Entry>)
    ensures NoDuplicates(UniquePorts(raw))
    ensures forall v :: v in UniquePorts(raw) <==> exists k :: 0 <= k < |raw| && Lookup(raw[k], Port) == v
    ensures |UniquePorts(raw)| <= |raw|
  {
    var vals := seq(|raw|, k requires 0 <= k < |raw| => Lookup(raw[k], Port));
    DedupSpec(vals, None);
    forall v ensures v in vals <==> exists k :: 0 <= k < |raw| && Lookup(raw[k], Port) == v {
      if v in vals {
        var k :| 0 <= k < |vals| && vals[k] == v;
      }
      if exists k :: 0 <= k < |raw| && Lookup(raw[k], Port) == v {
        var k :| 0 <= k < |raw| && Lookup(raw[k], Port) == v;
        assert vals[k] == v;
      }
    }
  }
}
