/**
 * The optional single-key sort of `filteredAndSortedData` (index.js:276-285)
 * and the `handleSort` toggle (index.js:290-295).
 *
 * The comparator reads `item[key] || ''` and compares the two strings with
 * JavaScript's `<` and `>` (code-unit lexicographic order).  The sort is done
 * in place on a fresh array by SortInPlace, an insertion sort proved equal to
 * the function SortBy; SortBy is proved to return a permutation of its input,
 * ordered by the comparator, keeping the input order of equal keys (the
 * stability `Array.prototype.sort` guarantees).
 */
module Sorting {

  import opened Wrappers
  import opened HostRecord

  datatype Direction = Asc | Desc

  /** `sortConfig`: the key is `null` until a column header is clicked. */
  datatype SortConfig = SortConfig(key: Option<Field>, direction: Direction)

  /** `useState({ key: null, direction: 'asc' })` (index.js:6). */
  const InitialSort := SortConfig(None, Asc)

  /**
   * `handleSort(key)`: the clicked key, descending exactly when that key was
   * already the sort key in ascending direction, ascending otherwise.
   */
  function HandleSort(prev: SortConfig, key: Field): (next: SortConfig)
    ensures next.key == Some(key)
    ensures next.direction == Desc <==> prev.key == Some(key) && prev.direction == Asc
  {
    SortConfig(Some(key), if prev.key == Some(key) && prev.direction == Asc then Desc else Asc)
  }

  /**
   * Clicking a column that is not the sort key sorts it ascending; clicking the
   * sort column again flips the direction; the first click after start-up sorts
   * ascending.
   */
  lemma HandleSortToggles(prev: SortConfig, key: Field)
    ensures prev.key != Some(key) ==> HandleSort(prev, key).direction == Asc
    ensures prev.key == Some(key) ==> HandleSort(prev, key).direction != prev.direction
    ensures HandleSort(HandleSort(prev, key), key).direction != HandleSort(prev, key).direction
    ensures HandleSort(InitialSort, key) == SortConfig(Some(key), Asc)
  {
  }

  /** JavaScript's `a < b` on strings: lexicographic by character, a proper prefix first. */
  function Less(a: string, b: string): bool
    decreases |a|
  {
    if a == [] then b != []
    else if b == [] then false
    else if a[0] != b[0] then a[0] < b[0]
    else Less(a[1..], b[1..])
  }

  /** `<` on strings is a strict total order. */
  lemma {:induction false} LessIrreflexive(a: string)
    ensures !Less(a, a)
    decreases |a|
  {
    if a != [] {
      LessIrreflexive(a[1..]);
    }
  }

  lemma {:induction false} LessTotal(a: string, b: string)
    ensures a == b || Less(a, b) || Less(b, a)
    ensures !(Less(a, b) && Less(b, a))
    decreases |a|
  {
    if a != [] && b != [] && a[0] == b[0] {
      LessTotal(a[1..], b[1..]);
      if a[1..] == b[1..] {
        assert a == [a[0]] + a[1..] && b == [b[0]] + b[1..];
      }
    }
  }

  lemma {:induction false} LessTransitive(a: string, b: string, c: string)
    requires Less(a, b) && Less(b, c)
    ensures Less(a, c)
    decreases |a|
  {
    if a != [] && a[0] == b[0] && b[0] == c[0] {
      LessTransitive(a[1..], b[1..], c[1..]);
    }
  }

  /** Ports sort as strings: `"10"` comes before `"9"`. */
  lemma PortsSortAsStrings()
    ensures Less("10", "9") && !Less("9", "10")
  {
  }

  /** The value the comparator reads from a record: `item[key] || ''`. */
  function SortValue(key: Field): Entry -> string {
    e => OrEmpty(e, key)
  }

  /** The comparator of index.js:277-285. */
  function Compare<T>(a: T, b: T, value: T -> string, dir: Direction): int {
    var av, bv := value(a), value(b);
    if Less(av, bv) then (if dir == Asc then -1 else 1)
    else if Less(bv, av) then (if dir == Asc then 1 else -1)
    else 0
  }

  /** `a` must come before `b`: its sort value is smaller (ascending) or larger (descending). */
  predicate Ahead<T>(a: T, b: T, value: T -> string, dir: Direction) {
    if dir == Asc then Less(value(a), value(b)) else Less(value(b), value(a))
  }

  /**
   * The comparator is consistent: negative exactly when `a` is ahead, positive
   * exactly when `b` is ahead, zero exactly for equal sort values, and
   * antisymmetric.
   */
  lemma CompareSpec<T>(a: T, b: T, value: T -> string, dir: Direction)
    ensures Compare(a, b, value, dir) < 0 <==> Ahead(a, b, value, dir)
    ensures Compare(a, b, value, dir) > 0 <==> Ahead(b, a, value, dir)
    ensures Compare(a, b, value, dir) == 0 <==> value(a) == value(b)
    ensures Compare(a, b, value, dir) == -Compare(b, a, value, dir)
  {
    LessTotal(value(a), value(b));
    LessIrreflexive(value(a));
  }

  /** No element is ahead of an element before it. */
  predicate Sorted<T>(s: seq<T>, value: T -> string, dir: Direction) {
    forall i, j :: 0 <= i < j < |s| ==> !Ahead(s[j], s[i], value, dir)
  }

  /**
   * Inserting `x` after a sorted prefix: `x` moves left past the elements it
   * is ahead of, so it ends after every element with the same sort value.
   */
  function Insert<T>(s: seq<T>, x: T, value: T -> string, dir: Direction): (r: seq<T>)
    ensures |r| == |s| + 1
    decreases |s|
  {
    if s == [] || Compare(s[|s| - 1], x, value, dir) <= 0 then s + [x]
    else Insert(s[..|s| - 1], x, value, dir) + [s[|s| - 1]]
  }

  /** The stable sort of `s` by the comparator: each element is inserted in turn. */
  function SortBy<T>(s: seq<T>, value: T -> string, dir: Direction): (r: seq<T>)
    ensures |r| == |s|
    decreases |s|
  {
    if s == [] then [] else Insert(SortBy(s[..|s| - 1], value, dir), s[|s| - 1], value, dir)
  }

  lemma {:induction false} InsertPermutes<T>(s: seq<T>, x: T, value: T -> string, dir: Direction)
    ensures multiset(Insert(s, x, value, dir)) == multiset(s) + multiset{x}
    decreases |s|
  {
    if s != [] && Compare(s[|s| - 1], x, value, dir) > 0 {
      var t, last := s[..|s| - 1], s[|s| - 1];
      InsertPermutes(t, x, value, dir);
      assert Insert(s, x, value, dir) == Insert(t, x, value, dir) + [last];
      assert s == t + [last];
      assert multiset(s) == multiset(t) + multiset{last};
    }
  }

  /** The sort returns a permutation of its input. */
  lemma {:induction false} SortByPermutes<T>(s: seq<T>, value: T -> string, dir: Direction)
    ensures multiset(SortBy(s, value, dir)) == multiset(s)
    decreases |s|
  {
    if s != [] {
      SortByPermutes(s[..|s| - 1], value, dir);
      InsertPermutes(SortBy(s[..|s| - 1], value, dir), s[|s| - 1], value, dir);
      assert s == s[..|s| - 1] + [s[|s| - 1]];
    }
  }

  /** `Ahead` is a strict weak order: irreflexive, transitive, and "not ahead" is transitive. */
  lemma AheadOrder<T>(a: T, b: T, c: T, value: T -> string, dir: Direction)
    ensures !Ahead(a, a, value, dir)
    ensures Ahead(a, b, value, dir) && Ahead(b, c, value, dir) ==> Ahead(a, c, value, dir)
    ensures !Ahead(a, b, value, dir) && !Ahead(b, c, value, dir) ==> !Ahead(a, c, value, dir)
  {
    var av, bv, cv := value(a), value(b), value(c);
    LessIrreflexive(av);
    LessTotal(av, bv);
    LessTotal(bv, cv);
    LessTotal(av, cv);
    if Less(av, bv) && Less(bv, cv) { LessTransitive(av, bv, cv); }
    if Less(cv, bv) && Less(bv, av) { LessTransitive(cv, bv, av); }
    if Less(bv, av) && Less(av, cv) { LessTransitive(bv, av, cv); }
    if Less(av, cv) && Less(cv, bv) { LessTransitive(av, cv, bv); }
    if Less(bv, cv) && Less(cv, av) { LessTransitive(bv, cv, av); }
    if Less(cv, av) && Less(av, bv) { LessTransitive(cv, av, bv); }
  }

  /** Every element of `Insert(s, x)` after `x` is one `x` is ahead of; the elements before `x` are those of `s` up to that point. */
  lemma {:induction false} InsertShape<T>(s: seq<T>, x: T, value: T -> string, dir: Direction) returns (m: nat)
    ensures m <= |s| && Insert(s, x, value, dir) == s[..m] + [x] + s[m..]
    ensures forall k :: m <= k < |s| ==> Ahead(x, s[k], value, dir)
    ensures m > 0 ==> !Ahead(x, s[m - 1], value, dir)
    decreases |s|
  {
    if s == [] {
      m := 0;
    } else if Compare(s[|s| - 1], x, value, dir) <= 0 {
      m := |s|;
      CompareSpec(s[|s| - 1], x, value, dir);
    } else {
      var t := s[..|s| - 1];
      m := InsertShape(t, x, value, dir);
      CompareSpec(s[|s| - 1], x, value, dir);
      assert t[..m] == s[..m];
      assert s[m..] == t[m..] + [s[|s| - 1]];
    }
  }

  /** Inserting into a sorted sequence keeps it sorted. */
  lemma InsertSorted<T>(s: seq<T>, x: T, value: T -> string, dir: Direction)
    requires Sorted(s, value, dir)
    ensures Sorted(Insert(s, x, value, dir), value, dir)
  {
    var m := InsertShape(s, x, value, dir);
    var r := Insert(s, x, value, dir);
    forall i, j | 0 <= i < j < |r| ensures !Ahead(r[j], r[i], value, dir) {
      if i < m && j == m {
        AheadOrder(x, s[m - 1], s[i], value, dir);
      } else if i == m && j > m {
        AheadOrder(s[j - 1], x, s[j - 1], value, dir);
      } else if i < m && j > m {
        assert r[i] == s[i] && r[j] == s[j - 1];
      } else if j < m {
        assert r[i] == s[i] && r[j] == s[j];
      } else {
        assert r[i] == s[i - 1] && r[j] == s[j - 1];
      }
    }
  }

  /** The sort orders its result by the comparator. */
  lemma {:induction false} SortBySorted<T>(s: seq<T>, value: T -> string, dir: Direction)
    ensures Sorted(SortBy(s, value, dir), value, dir)
    decreases |s|
  {
    if s != [] {
      SortBySorted(s[..|s| - 1], value, dir);
      InsertSorted(SortBy(s[..|s| - 1], value, dir), s[|s| - 1], value, dir);
    }
  }

  /** The elements of `s` whose sort value is `v`, in order. */
  function WithValue<T>(s: seq<T>, value: T -> string, v: string): (r: seq<T>)
    ensures |r| <= |s|
    decreases |s|
  {
    if s == [] then []
    else WithValue(s[..|s| - 1], value, v) + (if value(s[|s| - 1]) == v then [s[|s| - 1]] else [])
  }

  lemma WithValueSnoc<T>(s: seq<T>, y: T, value: T -> string, v: string)
    ensures WithValue(s + [y], value, v) == WithValue(s, value, v) + (if value(y) == v then [y] else [])
  {
    assert (s + [y])[..|s|] == s;
  }

  /** Moving `x` left past an element with a different sort value does not change the order within any one sort value. */
  lemma WithValuePast<T>(ins: seq<T>, t: seq<T>, last: T, x: T, value: T -> string, v: string)
    requires value(last) != value(x)
    requires WithValue(ins, value, v) == WithValue(t, value, v) + (if value(x) == v then [x] else [])
    ensures WithValue(ins + [last], value, v) == WithValue(t + [last], value, v) + (if value(x) == v then [x] else [])
  {
    WithValueSnoc(ins, last, value, v);
    WithValueSnoc(t, last, value, v);
  }

  lemma {:induction false} InsertWithValue<T>(s: seq<T>, x: T, value: T -> string, v: string, dir: Direction)
    ensures WithValue(Insert(s, x, value, dir), value, v) ==
      WithValue(s, value, v) + (if value(x) == v then [x] else [])
    decreases |s|
  {
    if s == [] || Compare(s[|s| - 1], x, value, dir) <= 0 {
      WithValueSnoc(s, x, value, v);
    } else {
      var t, last := s[..|s| - 1], s[|s| - 1];
      InsertWithValue(t, x, value, v, dir);
      CompareSpec(last, x, value, dir);
      assert s == t + [last];
      WithValuePast(Insert(t, x, value, dir), t, last, x, value, v);
    }
  }

  /**
   * The sort is stable: for every sort value, the elements with that value
   * appear in the result in the same order as in the input.
   */
  lemma {:induction false} SortByStable<T>(s: seq<T>, value: T -> string, dir: Direction, v: string)
    ensures WithValue(SortBy(s, value, dir), value, v) == WithValue(s, value, v)
    decreases |s|
  {
    if s != [] {
      SortByStable(s[..|s| - 1], value, dir, v);
      InsertWithValue(SortBy(s[..|s| - 1], value, dir), s[|s| - 1], value, v, dir);
    }
  }

  /** No two elements share a sort value. */
  predicate NoTies<T>(s: seq<T>, value: T -> string) {
    forall i, j :: 0 <= i < j < |s| ==> value(s[i]) != value(s[j])
  }

  function Reverse<T>(s: seq<T>): seq<T> {
    seq(|s|, i requires 0 <= i < |s| => s[|s| - 1 - i])
  }

  lemma {:induction false} ReversePermutes<T>(s: seq<T>)
    ensures multiset(Reverse(s)) == multiset(s)
    decreases |s|
  {
    if |s| > 0 {
      ReversePermutes(s[1..]);
      assert Reverse(s) == Reverse(s[1..]) + [s[0]];
      assert s == [s[0]] + s[1..];
    }
  }

  /** Read backwards, an ascending sequence is descending. */
  lemma ReverseSorted<T>(s: seq<T>, value: T -> string)
    requires Sorted(s, value, Asc)
    ensures Sorted(Reverse(s), value, Desc)
  {
    var r := Reverse(s);
    forall i, j | 0 <= i < j < |r| ensures !Ahead(r[j], r[i], value, Desc) {
      assert r[i] == s[|s| - 1 - i] && r[j] == s[|s| - 1 - j];
    }
  }

  /** Taking one element out: the rest has one occurrence of it less, and ties with it are impossible. */
  lemma RemoveAt<T>(s: seq<T>, p: nat)
    requires p < |s|
    ensures multiset(s[..p] + s[p + 1..]) == multiset(s) - multiset{s[p]}
  {
    assert s == s[..p] + [s[p]] + s[p + 1..];
  }

  lemma NoTiesRemoveAt<T>(s: seq<T>, p: nat, value: T -> string)
    requires p < |s| && NoTies(s, value)
    ensures NoTies(s[..p] + s[p + 1..], value)
    ensures forall y :: y in s[..p] + s[p + 1..] ==> value(y) != value(s[p])
  {
    var s' := s[..p] + s[p + 1..];
    forall i, j | 0 <= i < j < |s'| ensures value(s'[i]) != value(s'[j]) {
      var i', j' := if i < p then i else i + 1, if j < p then j else j + 1;
      assert s'[i] == s[i'] && s'[j] == s[j'];
    }
    forall y | y in s' ensures value(y) != value(s[p]) {
      var q :| 0 <= q < |s'| && s'[q] == y;
      assert s[if q < p then q else q + 1] == y;
    }
  }

  /** A permutation of a sequence without ties has none. */
  lemma {:induction false} NoTiesPermutation<T>(s: seq<T>, t: seq<T>, value: T -> string)
    requires NoTies(s, value) && multiset(s) == multiset(t)
    ensures NoTies(t, value)
    decreases |t|
  {
    if |t| > 0 {
      var p := RemoveFirst(s, t);
      var s' := s[..p] + s[p + 1..];
      NoTiesRemoveAt(s, p, value);
      NoTiesPermutation(s', t[1..], value);
      forall y | y in t[1..] ensures value(y) != value(t[0]) {
        assert y in multiset(s');
      }
      NoTiesCons(t, value);
    }
  }

  /** Where `t[0]` sits in a permutation `s` of `t`: without it, `s` is a permutation of the rest of `t`. */
  lemma RemoveFirst<T>(s: seq<T>, t: seq<T>) returns (p: nat)
    requires |t| > 0 && multiset(s) == multiset(t)
    ensures p < |s| && s[p] == t[0] && multiset(s[..p] + s[p + 1..]) == multiset(t[1..])
  {
    assert t[0] in multiset(s);
    p :| 0 <= p < |s| && s[p] == t[0];
    RemoveAt(s, p);
    assert t == [t[0]] + t[1..];
    assert multiset(t[1..]) == multiset(t) - multiset{t[0]};
  }

  lemma NoTiesCons<T>(t: seq<T>, value: T -> string)
    requires |t| > 0 && NoTies(t[1..], value)
    requires forall y :: y in t[1..] ==> value(y) != value(t[0])
    ensures NoTies(t, value)
  {
    forall i, j | 0 <= i < j < |t| ensures value(t[i]) != value(t[j]) {
      assert t[j] == t[1..][j - 1];
      if i > 0 {
        assert t[i] == t[1..][i - 1];
      }
    }
  }

  lemma SortedTail<T>(s: seq<T>, value: T -> string, dir: Direction)
    requires |s| > 0 && Sorted(s, value, dir) && NoTies(s, value)
    ensures Sorted(s[1..], value, dir) && NoTies(s[1..], value)
  {
    forall i, j | 0 <= i < j < |s| - 1 ensures s[1..][i] == s[i + 1] && s[1..][j] == s[j + 1] {
    }
  }

  /** Without ties, a sorted permutation is unique. */
  lemma {:induction false} SortedUnique<T>(a: seq<T>, b: seq<T>, value: T -> string, dir: Direction)
    requires multiset(a) == multiset(b) && NoTies(a, value)
    requires Sorted(a, value, dir) && Sorted(b, value, dir)
    ensures a == b
    decreases |a|
  {
    assert |a| == |multiset(a)| == |b|;
    if |a| > 0 {
      var x, y := a[0], b[0];
      assert y in multiset(b) && x in multiset(a);
      var k :| 0 <= k < |a| && a[k] == y;
      var m :| 0 <= m < |b| && b[m] == x;
      LessTotal(value(x), value(y));
      assert k == 0;
      assert a == [x] + a[1..] && b == [x] + b[1..];
      RemoveAt(a, 0);
      RemoveAt(b, 0);
      assert a[..0] + a[1..] == a[1..] && b[..0] + b[1..] == b[1..];
      SortedTail(a, value, dir);
      NoTiesPermutation(a, b, value);
      SortedTail(b, value, dir);
      SortedUnique(a[1..], b[1..], value, dir);
    }
  }

  /** Without ties, the descending sort is the ascending sort reversed. */
  lemma SortByDescReversesAsc<T>(s: seq<T>, value: T -> string)
    requires NoTies(s, value)
    ensures SortBy(s, value, Desc) == Reverse(SortBy(s, value, Asc))
  {
    var asc, desc := SortBy(s, value, Asc), SortBy(s, value, Desc);
    SortByPermutes(s, value, Asc);
    SortByPermutes(s, value, Desc);
    SortBySorted(s, value, Asc);
    SortBySorted(s, value, Desc);
    ReversePermutes(asc);
    ReverseSorted(asc, value);
    NoTiesPermutation(s, desc, value);
    SortedUnique(desc, Reverse(asc), value, Desc);
  }

  /**
   * Where insertion puts `x`: right after the longest prefix of `s` that ends
   * with an element `x` must not come before.
   */
  lemma {:induction false} InsertSplit<T>(s: seq<T>, j: nat, x: T, value: T -> string, dir: Direction)
    requires j <= |s|
    requires forall k :: j <= k < |s| ==> Compare(s[k], x, value, dir) > 0
    requires j == 0 || Compare(s[j - 1], x, value, dir) <= 0
    ensures Insert(s, x, value, dir) == s[..j] + [x] + s[j..]
    decreases |s|
  {
    if s != [] && j < |s| {
      var t, last := s[..|s| - 1], s[|s| - 1];
      assert t[..j] == s[..j] && (j == 0 || t[j - 1] == s[j - 1]);
      InsertSplit(t, j, x, value, dir);
      assert s[j..] == t[j..] + [last];
    }
  }

  lemma SortBySnoc<T>(s: seq<T>, i: nat, value: T -> string, dir: Direction)
    requires i < |s|
    ensures SortBy(s[..i + 1], value, dir) == Insert(SortBy(s[..i], value, dir), s[i], value, dir)
  {
    assert s[..i + 1][..i] == s[..i];
  }

  /**
   * One insertion: moves the elements of the sorted prefix `a[..i]` that `x`
   * must come before one place right and puts `x` in the gap `j` left behind.
   */
  method ShiftInsert<T>(a: array<T>, i: nat, x: T, value: T -> string, dir: Direction) returns (j: nat)
    requires i < a.Length
    modifies a
    ensures j <= i && a[j] == x
    ensures forall k :: 0 <= k < j ==> a[k] == old(a[k])
    ensures forall k :: j < k <= i ==> a[k] == old(a[k - 1])
    ensures forall k :: i < k < a.Length ==> a[k] == old(a[k])
    ensures forall k :: j <= k < i ==> Compare(old(a[k]), x, value, dir) > 0
    ensures j == 0 || Compare(old(a[j - 1]), x, value, dir) <= 0
  {
    j := i;
    while j > 0 && Compare(a[j - 1], x, value, dir) > 0
      invariant 0 <= j <= i
      invariant forall k :: 0 <= k < j ==> a[k] == old(a[k])
      invariant forall k :: j < k <= i ==> a[k] == old(a[k - 1])
      invariant forall k :: i < k < a.Length ==> a[k] == old(a[k])
      invariant forall k :: j <= k < i ==> Compare(old(a[k]), x, value, dir) > 0
      decreases j
    {
      a[j] := a[j - 1];
      j := j - 1;
    }
    a[j] := x;
  }

  /** Moves `a[i]` left past the elements of the sorted prefix `a[..i]` it must come before. */
  method InsertAt<T>(a: array<T>, i: nat, value: T -> string, dir: Direction)
    requires i < a.Length
    modifies a
    ensures a[..i + 1] == Insert(old(a[..i]), old(a[i]), value, dir)
    ensures a[i + 1..] == old(a[i + 1..])
  {
    ghost var s := a[..i];
    ghost var rest := a[i + 1..];
    var x := a[i];
    var j := ShiftInsert(a, i, x, value, dir);
    InsertSplit(s, j, x, value, dir);
    assert a[..i + 1] == s[..j] + [x] + s[j..];
    assert a[i + 1..] == rest;
  }

  /** `filtered.sort(comparator)` on a fresh array: afterwards the array holds SortBy of its old contents. */
  method SortInPlace<T>(a: array<T>, value: T -> string, dir: Direction)
    modifies a
    ensures a[..] == SortBy(old(a[..]), value, dir)
  {
    ghost var s := a[..];
    var i := 0;
    while i < a.Length
      invariant 0 <= i <= a.Length
      invariant a[..i] == SortBy(s[..i], value, dir)
      invariant a[i..] == s[i..]
      decreases a.Length - i
    {
      SortBySnoc(s, i, value, dir);
      assert a[i] == s[i] && a[i + 1..] == s[i + 1..];
      InsertAt(a, i, value, dir);
      assert a[i + 1..] == s[i + 1..];
      i := i + 1;
    }
    assert a[..] == a[..i] && s == s[..i];
  }
}
