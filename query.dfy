/**
 * The filter of `filteredAndSortedData` (index.js:261-274) and the whole
 * filter-then-sort view (index.js:261-288).
 *
 * The filter reads `item.ip`, `item.country` and `item.organization` without
 * a default, so on a record that lacks one of them (the leading record the
 * parser makes from lines before the first boundary) calling `toLowerCase` or
 * `includes` on `undefined` throws a TypeError; the model returns that as an
 * error.  The operands of `||` and `&&` are evaluated left to right and only as
 * far as needed, so a missing key throws only when its read is reached.
 */
module Query {

  import opened Wrappers
  import opened Text
  import opened HostRecord
  import opened Sorting

  /** The three filter inputs: the search box, the country filter and the port filter. */
  datatype Criteria = Criteria(searchTerm: string, filterCountry: string, filterPort: string)

  /** Calling a string method on `item.field` where the record lacks that key. */
  datatype QueryError = TypeError(field: Field)

  /** `matchesSearch` (index.js:263-268): an or-chain over ip, country, organization, domain and title, lowercased. */
  function MatchesSearch(e: Entry, term: string): Result<bool, QueryError> {
    var t := ToLower(term);
    if Ip !in e then Err(TypeError(Ip))
    else if Contains(ToLower(e[Ip]), t) then Ok(true)
    else if Country !in e then Err(TypeError(Country))
    else if Contains(ToLower(e[Country]), t) then Ok(true)
    else if Organization !in e then Err(TypeError(Organization))
    else if Contains(ToLower(e[Organization]), t) then Ok(true)
    else Ok(Contains(ToLower(OrEmpty(e, Domain)), t) || Contains(ToLower(OrEmpty(e, Title)), t))
  }

  /** `matchesCountry` (index.js:270): an empty filter passes, otherwise a case-sensitive substring test. */
  function MatchesCountry(e: Entry, filter: string): Result<bool, QueryError> {
    if filter == "" then Ok(true)
    else if Country !in e then Err(TypeError(Country))
    else Ok(Contains(e[Country], filter))
  }

  /** `matchesPort` (index.js:271): an empty filter passes, otherwise strict equality (`undefined` equals no string). */
  predicate MatchesPort(e: Entry, filter: string) {
    filter == "" || (Port in e && e[Port] == filter)
  }

  /** The filter callback: the three tests are evaluated in order, each one completely. */
  function Matches(e: Entry, c: Criteria): Result<bool, QueryError> {
    match MatchesSearch(e, c.searchTerm)
    case Err(x) => Err(x)
    case Ok(search) =>
      match MatchesCountry(e, c.filterCountry)
      case Err(x) => Err(x)
      case Ok(country) => Ok(search && country && MatchesPort(e, c.filterPort))
  }

  /** `rawData.filter(...)`: the kept records in order, or the error of the first record whose test throws. */
  function Filter(items: seq<Entry>, c: Criteria): Result<seq<Entry>, QueryError>
    decreases |items|
  {
    if items == [] then Ok([])
    else
      match Matches(items[0], c)
      case Err(x) => Err(x)
      case Ok(keep) =>
        match Filter(items[1..], c)
        case Err(x) => Err(x)
        case Ok(rest) => Ok(if keep then [items[0]] + rest else rest)
  }

  /** The fields the search box looks at. */
  const SearchFields: set<Field> := {Ip, Country, Organization, Domain, Title}

  /** What the filter promises about a record it can read: every test in its declarative form. */
  predicate Selected(e: Entry, c: Criteria) {
    (exists f :: f in SearchFields && Contains(ToLower(OrEmpty(e, f)), ToLower(c.searchTerm))) &&
    (c.filterCountry == "" || Contains(OrEmpty(e, Country), c.filterCountry)) &&
    (c.filterPort == "" || OrEmpty(e, Port) == c.filterPort)
  }

  /**
   * When the filter's test returns, it returns whether the record is selected.
   * It throws exactly where the evaluation reaches a missing key: a missing ip
   * always; a missing country when the ip does not hold the search term or when
   * the country filter is set; a missing organization when neither ip nor
   * country holds the search term.  A record with all three keys never throws.
   */
  lemma MatchesSpec(e: Entry, c: Criteria)
    ensures Matches(e, c).Ok? ==> (Matches(e, c).value <==> Selected(e, c))
    ensures Matches(e, c).Err? ==> Matches(e, c).error.field in {Ip, Country, Organization} && Matches(e, c).error.field !in e
    ensures Matches(e, c) == Err(TypeError(Ip)) <==> Ip !in e
    ensures Matches(e, c) == Err(TypeError(Country)) <==>
      Ip in e && Country !in e && (c.filterCountry != "" || !Contains(ToLower(e[Ip]), ToLower(c.searchTerm)))
    ensures Matches(e, c) == Err(TypeError(Organization)) <==>
      Ip in e && Country in e && Organization !in e &&
      !Contains(ToLower(e[Ip]), ToLower(c.searchTerm)) && !Contains(ToLower(e[Country]), ToLower(c.searchTerm))
    ensures Ip in e && Country in e && Organization in e ==> Matches(e, c).Ok?
  {
    var t := ToLower(c.searchTerm);
    if Matches(e, c).Ok? && Matches(e, c).value {
      if Contains(ToLower(e[Ip]), t) {
        assert Ip in SearchFields;
      } else if Contains(ToLower(e[Country]), t) {
        assert Country in SearchFields;
      } else if Contains(ToLower(e[Organization]), t) {
        assert Organization in SearchFields;
      } else if Contains(ToLower(OrEmpty(e, Domain)), t) {
        assert Domain in SearchFields;
      } else {
        assert Title in SearchFields;
      }
    }
  }

  /** The first clause of MatchesSpec on its own. */
  lemma MatchesSelected(e: Entry, c: Criteria)
    ensures Matches(e, c).Ok? ==> (Matches(e, c).value <==> Selected(e, c))
  {
    MatchesSpec(e, c);
  }

  /** The search ignores the case of its term: a term and its lower-cased form select the same records. */
  lemma SearchIgnoresTermCase(e: Entry, c: Criteria)
    ensures Matches(e, c) == Matches(e, Criteria(ToLower(c.searchTerm), c.filterCountry, c.filterPort))
  {
    ToLowerSpec(c.searchTerm);
  }

  /** `b` holds the elements of `a` in their order, possibly with others in between. */
  predicate IsSubsequence(a: seq<Entry>, b: seq<Entry>)
    decreases |b|
  {
    if a == [] then true
    else if b == [] then false
    else (a[0] == b[0] && IsSubsequence(a[1..], b[1..])) || IsSubsequence(a, b[1..])
  }

  /**
   * The filter succeeds exactly when its test succeeds on every record; its
   * result is then the subsequence of the records the test keeps: every kept
   * record is selected and every selected record is kept, as many times as it
   * occurs in the input.
   */
  lemma {:induction false} FilterSpec(items: seq<Entry>, c: Criteria)
    ensures Filter(items, c).Ok? <==> forall k :: 0 <= k < |items| ==> Matches(items[k], c).Ok?
    ensures Filter(items, c).Ok? ==>
      var r := Filter(items, c).value;
      IsSubsequence(r, items) &&
      (forall x :: x in r ==> Selected(x, c)) &&
      (forall k :: 0 <= k < |items| && Selected(items[k], c) ==> items[k] in r)
    decreases |items|
  {
    if items != [] {
      var e, t := items[0], items[1..];
      FilterSpec(t, c);
      MatchesSelected(e, c);
      assert forall k :: 1 <= k < |items| ==> items[k] == t[k - 1];
      if Filter(items, c).Ok? {
        var rest := Filter(t, c).value;
        if Matches(e, c).value {
          assert ([e] + rest)[1..] == rest;
        }
      }
    }
  }

  /** The filter keeps each selected record exactly as many times as the input holds it, and no other record. */
  lemma {:induction false} FilterCounts(items: seq<Entry>, c: Criteria)
    requires Filter(items, c).Ok?
    ensures forall x :: multiset(Filter(items, c).value)[x] == if Selected(x, c) then multiset(items)[x] else 0
    decreases |items|
  {
    if items != [] {
      var e, t := items[0], items[1..];
      FilterStep(items, c);
      FilterCounts(t, c);
      MatchesSelected(e, c);
      CountsCons(items, Filter(items, c).value, Filter(t, c).value, Matches(e, c).value, x => Selected(x, c));
    }
  }

  /** The filter on a non-empty input, one record at a time. */
  lemma FilterStep(items: seq<Entry>, c: Criteria)
    requires items != [] && Filter(items, c).Ok?
    ensures Matches(items[0], c).Ok? && Filter(items[1..], c).Ok?
    ensures Filter(items, c).value ==
      if Matches(items[0], c).value then [items[0]] + Filter(items[1..], c).value else Filter(items[1..], c).value
  {
  }

  /** One step of FilterCounts: the first element is kept exactly when it is selected. */
  lemma CountsCons<T>(items: seq<T>, r: seq<T>, rest: seq<T>, keep: bool, sel: T -> bool)
    requires items != [] && (keep <==> sel(items[0]))
    requires r == if keep then [items[0]] + rest else rest
    requires forall x :: multiset(rest)[x] == if sel(x) then multiset(items[1..])[x] else 0
    ensures forall x :: multiset(r)[x] == if sel(x) then multiset(items)[x] else 0
  {
    assert items == [items[0]] + items[1..];
    assert multiset(items) == multiset{items[0]} + multiset(items[1..]);
    assert multiset([items[0]] + rest) == multiset{items[0]} + multiset(rest);
  }



  /** With all three inputs empty the filter returns its input, exactly when every record has an ip. */
  lemma {:induction false} FilterEmptyCriteria(items: seq<Entry>)
    ensures Filter(items, Criteria("", "", "")) == Ok(items) <==> forall k :: 0 <= k < |items| ==> Ip in items[k]
    decreases |items|
  {
    if items != [] {
      var e := items[0];
      FilterEmptyCriteria(items[1..]);
      assert ToLower("") == "";
      if Ip in e {
        assert Contains(ToLower(e[Ip]), "");
      }
      assert forall k :: 1 <= k < |items| ==> items[k] == items[1..][k - 1];
      assert [e] + items[1..] == items;
      if Filter(items, Criteria("", "", "")) == Ok(items) {
        var rest := Filter(items[1..], Criteria("", "", "")).value;
        assert [e] + rest == items;
      }
    }
  }

  /** Filtering the filtered records again changes nothing. */
  lemma {:induction false} FilterIdempotent(items: seq<Entry>, c: Criteria)
    requires Filter(items, c).Ok?
    ensures Filter(Filter(items, c).value, c) == Filter(items, c)
    decreases |items|
  {
    if items != [] {
      var e, t := items[0], items[1..];
      FilterIdempotent(t, c);
      var rest := Filter(t, c).value;
      if Matches(e, c).value {
        assert ([e] + rest)[0] == e && ([e] + rest)[1..] == rest;
      }
    }
  }

  /**
   * A search term of one space is not a wildcard: it drops a record in none of
   * whose searched fields a space occurs.
   */
  lemma SpaceTermIsNoWildcard(e: Entry)
    requires HasAllFields(e)
    requires forall f :: f in SearchFields ==> ' ' !in ToLower(e[f])
    ensures Matches(e, Criteria(" ", "", "")) == Ok(false)
  {
    assert ToLower(" ") == [' '];
    forall f | f in SearchFields ensures !Contains(ToLower(e[f]), [' ']) {
      ContainsChar(ToLower(e[f]), ' ');
    }
  }

  /** For instance, the record a boundary line `1.1.1.1:80` opens is dropped by the search term " ". */
  lemma SpaceTermDropsFreshRecord()
    ensures Filter([Fresh("1.1.1.1", "80")], Criteria(" ", "", "")) == Ok([])
  {
    var e := Fresh("1.1.1.1", "80");
    FreshSpec("1.1.1.1", "80");
    forall f | f in SearchFields ensures ' ' !in ToLower(e[f]) {
      if f == Ip {
        assert ToLower(e[f]) == "1.1.1.1";
      } else {
        assert e[f] == "";
      }
    }
    SpaceTermIsNoWildcard(e);
  }

  /** The records of the table (index.js:261-288): filtered, then sorted by the configured key when there is one. */
  function View(items: seq<Entry>, c: Criteria, cfg: SortConfig): Result<seq<Entry>, QueryError> {
    match Filter(items, c)
    case Err(x) => Err(x)
    case Ok(kept) =>
      if cfg.key.Some? then Ok(SortBy(kept, SortValue(cfg.key.value), cfg.direction)) else Ok(kept)
  }

  /**
   * What the table shows: with no sort key exactly the filtered records in
   * their order; with a key a permutation of them, ordered by the key's value
   * (descending when so configured), records with equal values in filtered
   * order.
   */
  lemma ViewSpec(items: seq<Entry>, c: Criteria, cfg: SortConfig)
    ensures View(items, c, cfg).Ok? <==> Filter(items, c).Ok?
    ensures cfg.key.None? ==> View(items, c, cfg) == Filter(items, c)
    ensures View(items, c, cfg).Ok? && cfg.key.Some? ==>
      var kept, r, value := Filter(items, c).value, View(items, c, cfg).value, SortValue(cfg.key.value);
      multiset(r) == multiset(kept) && Sorted(r, value, cfg.direction) &&
      forall v :: WithValue(r, value, v) == WithValue(kept, value, v)
  {
    if Filter(items, c).Ok? && cfg.key.Some? {
      var kept, value := Filter(items, c).value, SortValue(cfg.key.value);
      SortByPermutes(kept, value, cfg.direction);
      SortBySorted(kept, value, cfg.direction);
      forall v ensures WithValue(SortBy(kept, value, cfg.direction), value, v) == WithValue(kept, value, v) {
        SortByStable(kept, value, cfg.direction, v);
      }
    }
  }

  /**
   * `filteredAndSortedData`: filter, then, when a key is set, sort a fresh
   * array holding the filtered records in place.
   */
  method FilteredAndSorted(items: seq<Entry>, c: Criteria, cfg: SortConfig) returns (r: Result<seq<Entry>, QueryError>)
    ensures r == View(items, c, cfg)
  {
    var filtered := Filter(items, c);
    if filtered.Err? || cfg.key.None? {
      return filtered;
    }
    var kept := filtered.value;
    var a := new Entry[|kept|](k requires 0 <= k < |kept| => kept[k]);
    assert a[..] == kept;
    SortInPlace(a, SortValue(cfg.key.value), cfg.direction);
    r := Ok(a[..]);
  }
}
