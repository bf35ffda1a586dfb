# FOFA data parser: a Dafny model

The FOFA data parser is a single React component (`index.js`). It turns text
pasted from the FOFA search engine into host records, then shows them in a
table. The table can be searched, filtered by country and port, and sorted by
one column. The shown rows can be exported as CSV text. This project models the
component's logic and proves properties of it:

- the text-to-record parser `parseInputData`;
- the filter and the optional sort of `filteredAndSortedData`;
- the `handleSort` toggle;
- the text `exportToCSV` builds;
- the `uniqueCountries` and `uniquePorts` option lists.

A record is a `map<Field, string>`, because a JavaScript object's key presence
is observable. A record opened by a boundary line has all thirteen keys. A
record built from lines before the first boundary has only the keys those lines
set.

Files, one module each:

- `wrappers.dfy`: `Option` and `Result`.
- `text.dfy`: the string operations the component uses, written out over
  `seq<char>`. These are `trim`, `split`, `join`, `startsWith`, `includes`,
  `replace` with a string pattern, and ASCII `toLowerCase`.
- `patterns.dfy`: the regular expressions, as character scans with contracts
  that say which lines they match.
- `host_record.dfy`: the record type and the record a boundary line opens.
- `parser.dfy`:
  - the imperative parser `ParseInputData`, a loop over the lines with a
    mutable current entry;
  - its reference definition `Parse` and the proof that the two agree.
    `Parse` first turns lines into events, then cuts the events at boundaries
    and folds each block.
- `parser_theory.dfy`: what the parsed records look like.
- `sorting.dfy`: the comparator, the `handleSort` toggle, and a stable
  insertion sort on an array. The sort is proved equal to the functional
  `SortBy`, whose order, permutation and stability properties are proved.
- `query.dfy`: the filter, and the whole filter-then-sort view.
- `distinct.dfy`: the option lists. These are `[...new Set(values)]`,
  i.e. first-occurrence order.
- `csv.dfy`: the exported text.

Some of what the code does is easy to misread:

- **CSV header.** The header line is `headers.join(',')`, so its cells are not
  quoted, unlike the data cells (`Csv.HeaderLineSpec`).
- **Search term.** A search term made of whitespace is not a wildcard. It is
  lower-cased and tested as a substring like any other term
  (`Query.SpaceTermIsNoWildcard`).
- **A missing key throws.** The filter reads `item.ip`, `item.country` and
  `item.organization` without a default. On a record that lacks one of them,
  where the evaluation reaches it, the filter calls a string method on
  `undefined` and throws. The parser makes such a record from lines before the
  first boundary. The model returns the throw as `Err(TypeError(field))`
  (`Query.MatchesSpec`).
- **An empty search.** With the term, the country filter and the port filter
  all empty, `includes('')` holds already at `item.ip`, so the or-chain stops
  there. The filter then returns every record exactly when every record has an
  ip, and throws otherwise (`Query.FilterEmptyCriteria`). A non-empty country
  or port filter still drops records even with an empty term.
- **Optional fields.** Not every optional field is always a string: the
  leading record lacks keys (`ParserTheory.LeadingRecord`).

## Model

| member | source | states |
|---|---|---|
| Text.Trim | index.js:149 | `trim`, defined by stripping white space from both ends; TrimSpec states what it keeps |
| Text.TrimSpec | index.js:149 | `trim` removes exactly the leading and trailing white-space and line-terminator code points: the result is a slice of the input that starts and ends with a non-white-space character, and everything cut off is white space |
| Text.Contains | index.js:264-270 | `includes`, defined as a left-to-right scan; ContainsOccurs states what it means |
| Text.ContainsOccurs | index.js:264-270 | `includes` is true exactly when the needle occurs at some position of the string |
| Text.IndexOfFirst | index.js:177-204 | the position `replace` cuts at is the first occurrence of the pattern: none starts earlier, and when none is found the pattern occurs nowhere |
| Text.ReplaceFirst | index.js:177-204 | `replace` with a string pattern, defined as replacing the first occurrence only; StripPrefix states the case the parser uses |
| Text.StripPrefix | index.js:186 | `replace(p, '')` on a string that starts with `p` removes exactly that prefix |
| Text.Join | index.js:297-317 | `join`, defined as the parts with the separator between each two; Split, SplitJoin and JoinCount relate it to `split` |
| Text.Split | index.js:144 | `split(sep)` gives at least one part, and joining the parts with `sep` gives back the string |
| Text.SplitFirst | index.js:144 | `split(sep)` cuts at the first occurrence of `sep` and goes on splitting what follows it; with no occurrence the whole string is the only part |
| Text.SplitJoin | index.js:314-317 | splitting on a character undoes a join on it when no part contains that character |
| Text.SplitFromCount | index.js:144 | splitting on one character gives one part more than it has occurrences |
| Text.JoinCount | index.js:316 | joining on a one-character separator adds one occurrence of it between each two parts |
| Text.ToLower | index.js:264 | `toLowerCase` as a function on strings; ToLowerSpec states what it does |
| Text.ToLowerSpec | index.js:264 | lower-casing maps each upper-case ASCII letter to its lower-case letter and keeps every other character, so no upper-case letter is left and lower-casing twice is lower-casing once |
| Patterns.BoundaryMatch | index.js:152 | `/^([\d.]+):(\d+)/` with its two groups, defined as a scan; BoundaryMatchSpec states which lines match and what is captured |
| Patterns.BoundaryMatchSpec | index.js:152 | `/^([\d.]+):(\d+)/` matches exactly the lines that start with a run of digits and dots, a colon and a digit; the line then starts with `ip:port` for the two captures, ip is digits and dots, and port is the whole run of digits after the colon |
| Patterns.BoundaryMatchOf | index.js:152 | a line `ip:port` whose ip is digits and dots and whose port is digits captures exactly that ip and port |
| Patterns.UrlFrom | index.js:209 | the URL scan, defined as the first match at or after a position; UrlFromSpec and UrlFromLeftmost state what it finds |
| Patterns.DomainMatch | index.js:209 | `/https?:\/\/([\w.-]+)/` with its group, the URL scan from the start of the line; DomainMatchSpec and DomainMatchLeftmost state what it finds |
| Patterns.UrlFromSpec | index.js:209 | the URL scan from a position finds a match exactly when some position at or after it starts `http://` or `https://` followed by a host character; the capture is then a non-empty run of `[\w.-]` and the line holds a colon |
| Patterns.DomainMatchSpec | index.js:209 | the domain pattern matches exactly the lines holding a URL; the capture is a non-empty run of `[\w.-]` and the line holds a colon |
| Patterns.UrlFromAt | index.js:209 | at a URL, the capture is the whole run of host characters after `https://` (tried first, since `s?` is greedy) or else after `http://` |
| Patterns.UrlFromFirst | index.js:209 | the scan from a position finds the leftmost URL at or after it: no URL starts before the one whose capture it returns |
| Patterns.UrlFromLeftmost | index.js:209 | the capture is the whole host run of the leftmost URL at or after the position, after its `https://` or else its `http://` |
| Patterns.DomainMatchLeftmost | index.js:209-211 | the domain capture of a line is the whole host run of the line's leftmost URL |
| Patterns.IsDate | index.js:197 | `/^\d{4}-\d{2}-\d{2}$/`, defined character by character; DateLine states its effect |
| Patterns.IsTitleCandidate | index.js:229 | the line tests of the title rule, defined as written; TitleCandidateIsNoFieldLine and TitleLine state its effect |
| HostRecord.Fresh | index.js:157-171 | the record a boundary opens has all thirteen keys and the captured ip and port |
| HostRecord.FreshSpec | index.js:157-171 | that record's protocol is `HTTP/1.1` and every other key but ip and port is empty |
| HostRecord.OrEmptyTruthy | index.js:262-282 | `item[f]` defaulted to `''` is the value of a truthy key and the empty string for a missing or empty one |
| RecordParser.FlushSpec | index.js:153-155 | a flush pushes at most one entry, the current one, and pushes nothing exactly when that entry has no key; the same test ends the parse at index.js:235-237 |
| RecordParser.ApplyLine | index.js:175-231 | the rule cascade for one non-boundary line, defined in the order the code tries the rules; StepFrame and the line lemmas of ParserTheory state its effect |
| RecordParser.Tokens | index.js:148-226 | the lines as events, defined with the `CloudName` look-ahead; CloudNameLookAhead and TokensBoundaries state what it produces |
| RecordParser.Run | index.js:148-237 | the one-pass state machine over events, defined with a flush on every boundary and at the end; RunSegments and RunIsRecords relate it to the reference |
| RecordParser.Parse | index.js:142-240 | the reference reading, defined as split on line feeds, cut at boundaries and fold; ParseShape, LeadingRecord and the ParserTheory lemmas state what it gives |
| RecordParser.NoRuleMatchesCloudName | index.js:175-219 | none of the rules tried before the `CloudName` test matches the line `CloudName`, so trying the look-ahead first does not change the outcome |
| RecordParser.FoldKeys | index.js:175-231 | the field rules never delete a key |
| RecordParser.RunSegments | index.js:148-237 | the one-pass state machine equals the two-phase reference: the flushed leading entry, then one folded block per boundary |
| RecordParser.RunIsRecords | index.js:142-240 | from the empty entry, the state machine gives exactly the reference records |
| RecordParser.RunLinesIsRun | index.js:148-237 | the line-by-line recursion that mirrors the loop equals the state machine over the line events |
| RecordParser.ApplyFieldRules | index.js:175-231 | the rule cascade as statements computes the field-rule function, and reports the `CloudName` line exactly, leaving the entry unchanged there |
| RecordParser.ParseLine | index.js:148-232 | one loop turn moves past at least one line and keeps the records already pushed, followed by those still to come, unchanged |
| RecordParser.ParseInputData | index.js:142-240 | the imperative parser returns exactly the reference records `Parse(input)` |
| ParserTheory.UrlLineIsNoTitle | index.js:209-229 | a line the domain pattern matches is never a title candidate |
| ParserTheory.StepFrame | index.js:175-231 | an event keeps every key, adds keys only among the fields its rule may assign, and leaves every other field as it was |
| ParserTheory.FoldAppend | index.js:148-232 | folding two runs of events is folding the first, then the second |
| ParserTheory.FoldFrame | index.js:175-231 | a field no event of a run may assign keeps its value over the run |
| ParserTheory.LastWriteWins | index.js:175-231 | a field's final value is the one the last event that may assign it left |
| ParserTheory.GeoLine | index.js:176-182 | a `country ` line sets country, region and city from the first three ` / ` parts that exist and changes nothing else |
| ParserTheory.AsnLine | index.js:185-188 | an `ASN: ` line sets asn to the rest of the line and changes nothing else |
| ParserTheory.OrganizationLine | index.js:191-194 | an `Organization: ` line sets organization to the rest of the line and changes nothing else |
| ParserTheory.DateLine | index.js:197-200 | a `YYYY-MM-DD` line sets date to the whole line and changes nothing else |
| ParserTheory.ServerLine | index.js:203-206 | a `Server: ` line sets server to the rest of the line and changes nothing else |
| ParserTheory.DomainLine | index.js:209-216 | on an entry with an empty domain, a URL line sets domain to the host, sets protocol to `HTTPS` exactly when the line contains `https://`, and changes nothing else |
| ParserTheory.StepDomainSticky | index.js:210 | once the domain is non-empty, no event changes the domain or the protocol |
| ParserTheory.FoldDomainSticky | index.js:209-216 | the same over any run of events: the first domain-setting line fixes both |
| ParserTheory.StepProtocol | index.js:209-216 | the protocol changes only on a line that contains `https://` and the domain pattern, while the domain is still empty; the domain then becomes the host and the protocol `HTTPS` |
| ParserTheory.StepTitle | index.js:228-231 | the title changes only on a candidate line that no earlier rule takes, while the entry has a truthy ip and an empty title, and then becomes that line |
| ParserTheory.TitleCandidateIsNoFieldLine | index.js:175-229 | a title candidate holds no colon, no `country` and no leading digit, so no geo, ASN, Organization, date, Server or URL rule takes it |
| ParserTheory.TitleLine | index.js:219-231 | a candidate line other than `CloudName` sets the title of an entry with a truthy ip and an empty title, and changes nothing else |
| ParserTheory.FoldTitleSticky | index.js:229-231 | the first title wins: a non-empty title never changes |
| ParserTheory.FoldKeepsIpPort | index.js:157-159 | no field rule assigns ip or port |
| ParserTheory.FoldNoTitleWithoutIp | index.js:229 | an entry without a truthy ip never gets a title |
| ParserTheory.StepWithoutIp | index.js:146-231 | on an entry without ip, an event either adds a key or leaves the entry as it is |
| ParserTheory.FoldWithoutIp | index.js:146-156 | the entry built before any boundary is non-empty exactly when one of its events sets a key |
| ParserTheory.LeadingRecord | index.js:146-156 | the lines before the first boundary give at most one record, exactly when one of them sets a field, and that record has no ip, port or title |
| ParserTheory.Boundaries | index.js:152-159 | the ip and port captures of the boundary events, in order, defined by recursion; BlocksShape and ParseShape state what the records make of them |
| ParserTheory.BoundariesFrom | index.js:152-156 | dropping the events before the first boundary drops no capture |
| ParserTheory.BlocksShape | index.js:153-171 | one record per boundary, in boundary order, each with all thirteen keys and its boundary's ip and port |
| ParserTheory.TokensBoundaries | index.js:152-159 | every captured ip is a non-empty run of digits and dots and every captured port a non-empty run of digits |
| ParserTheory.ParseShape | index.js:142-240 | the parse gives one record per boundary line, with its captures and all keys, possibly preceded by one leading record without ip, port or title |
| ParserTheory.CloudNameIsNoBoundary | index.js:152-219 | the line `CloudName` is not a boundary |
| ParserTheory.CloudNameLookAhead | index.js:219-226 | with a non-blank next line, that line, trimmed, becomes the cloud value and no other rule reads it; otherwise the `CloudName` line has no effect and nothing is skipped |
| ParserTheory.BoundaryLine | index.js:149-152 | a line `ip:port` is its own trim and matches the boundary pattern with those captures |
| ParserTheory.CloudNameSwallowsBoundary | index.js:219-226 | `ip:port`, `CloudName`, `ip2:port2` parse to one record whose cloud is `ip2:port2`: the look-ahead swallows a boundary |
| Sorting.HandleSort | index.js:290-295 | the new key is the clicked key; the direction is descending exactly when that key was the sort key and ascending |
| Sorting.HandleSortToggles | index.js:290-295 | a new column sorts ascending; clicking the sort column again flips the direction, every time; the first click after start-up, from `{ key: null, direction: 'asc' }`, sorts ascending |
| Sorting.Less | index.js:281-282 | string `<`, defined as lexicographic order; LessIrreflexive, LessTotal and LessTransitive state that it is a strict total order |
| Sorting.LessIrreflexive | index.js:281-282 | string `<` is irreflexive |
| Sorting.LessTotal | index.js:281-282 | of two distinct strings exactly one is smaller |
| Sorting.LessTransitive | index.js:281-282 | string `<` is transitive |
| Sorting.PortsSortAsStrings | index.js:278-282 | ports compare as strings: `"10"` sorts before `"9"` |
| Sorting.Compare | index.js:277-284 | the comparator of `filtered.sort`, defined on the key's values or `''`; CompareSpec states what its sign means |
| Sorting.CompareSpec | index.js:277-284 | the comparator is negative exactly when the first record must come first, positive exactly when the second must, zero exactly for equal sort values, and antisymmetric |
| Sorting.AheadOrder | index.js:277-284 | "must come first" is a strict weak order |
| Sorting.SortBy | index.js:276-285 | the stable sort, defined as insertion of each element in turn; SortByPermutes, SortBySorted and SortByStable state what it returns |
| Sorting.InsertPermutes | index.js:277 | one insertion adds exactly the inserted element |
| Sorting.SortByPermutes | index.js:277 | the sort returns a permutation of its input |
| Sorting.InsertShape | index.js:277-284 | insertion puts the element after every element it need not precede and before those it must precede |
| Sorting.InsertSorted | index.js:277-284 | inserting into a sorted sequence keeps it sorted |
| Sorting.SortBySorted | index.js:276-285 | the sort's result is ordered by the comparator, ascending or descending as configured |
| Sorting.InsertWithValue | index.js:277-284 | one insertion appends the element to the elements of its sort value and keeps their order |
| Sorting.SortByStable | index.js:276-285 | the sort is stable: for every sort value, the elements with that value keep their input order |
| Sorting.ReversePermutes | index.js:281-282 | reversing is a permutation |
| Sorting.ReverseSorted | index.js:281-282 | an ascending sequence, reversed, is descending |
| Sorting.NoTiesPermutation | index.js:277-284 | a permutation of a sequence without equal sort values has none |
| Sorting.SortedUnique | index.js:277-284 | without equal sort values, two sorted permutations of the same elements are equal |
| Sorting.SortByDescReversesAsc | index.js:281-282 | without equal sort values, the descending sort is the ascending sort reversed |
| Sorting.InsertSplit | index.js:277-284 | insertion puts the element right after the longest prefix ending in an element it need not precede |
| Sorting.ShiftInsert | index.js:277-284 | the in-place insertion loop shifts right exactly the elements the inserted one must precede and puts it in the gap |
| Sorting.InsertAt | index.js:277-284 | inserting the element at `i` into the sorted prefix is the functional insertion, and leaves the rest of the array unchanged |
| Sorting.SortInPlace | index.js:276-285 | sorting the array in place leaves exactly `SortBy` of its old contents |
| Query.MatchesSearch | index.js:263-268 | `matchesSearch`, defined as the or-chain with its throws; MatchesSpec states what it decides |
| Query.MatchesCountry | index.js:270 | `matchesCountry`, defined with its throw on a missing country; MatchesSpec states what it decides |
| Query.MatchesPort | index.js:271 | `matchesPort`, strict equality with the port filter when it is set |
| Query.Matches | index.js:262-273 | the filter callback, defined as the three tests in order; MatchesSpec states what it decides and when it throws |
| Query.Filter | index.js:262-274 | `rawData.filter`, defined record by record; FilterSpec and FilterCounts state what it keeps |
| Query.View | index.js:261-288 | the filter, then the sort when a key is set; ViewSpec states what the table shows |
| Query.MatchesSpec | index.js:262-273 | on a record it can read, the filter keeps a record exactly when some searched field contains the term (both lowered), the country contains the country filter (if set) and the port equals the port filter (if set); it throws exactly where the evaluation reaches a missing key: a missing ip always, a missing country when the ip does not hold the term or the country filter is set, a missing organization when neither ip nor country holds the term; a record with ip, country and organization never throws |
| Query.FilterSpec | index.js:262-274 | the filter succeeds exactly when its test succeeds on every record; the result is then a subsequence of the input, holds only selected records, and holds every selected record |
| Query.FilterCounts | index.js:262-274 | the filter keeps every selected record as many times as the input holds it, and no other record |
| Query.SearchIgnoresTermCase | index.js:263-268 | a search term and its lower-cased form select the same records |
| Query.FilterEmptyCriteria | index.js:262-274 | with all three inputs empty the filter returns its input unchanged, exactly when every record has an ip |
| Query.FilterIdempotent | index.js:262-274 | filtering the filtered records again changes nothing |
| Query.SpaceTermIsNoWildcard | index.js:263-268 | the search term `" "` drops a record none of whose searched fields holds a space |
| Query.SpaceTermDropsFreshRecord | index.js:263-268 | for instance, the record a boundary line opens is dropped by the term `" "` |
| Query.ViewSpec | index.js:261-288 | the table shows the filtered records in filter order when no key is set; with a key, a permutation of them, sorted by the key's value, records with equal values in filter order |
| Query.FilteredAndSorted | index.js:261-288 | filtering, then sorting a fresh array in place, computes exactly the view |
| Distinct.Dedup | index.js:329-330 | `[...new Set(s)]`, defined as adding the values in order to an empty insertion-ordered set; DedupSpec states what it lists |
| Distinct.UniqueCountries | index.js:329 | `uniqueCountries`, the dedup of every record's country or `undefined`; UniqueCountriesSpec states what it lists |
| Distinct.UniquePorts | index.js:330 | `uniquePorts`, the dedup of every record's port or `undefined`; UniquePortsSpec states what it lists |
| Distinct.AddAllSpec | index.js:329-330 | adding values to an insertion-ordered set keeps it free of duplicates, adds exactly the new values, and keeps the earlier ones in order in front |
| Distinct.AddAllSnoc | index.js:329-330 | adding one more value appends it exactly when it is new |
| Distinct.DedupSpec | index.js:329-330 | `[...new Set(s)]` lists every value of `s` once and nothing else, is no longer than `s`, and appending a value appends it to the list exactly when it is new |
| Distinct.DedupIdempotent | index.js:329-330 | deduplicating twice is deduplicating once |
| Distinct.DedupOfDistinct | index.js:329-330 | a list without duplicates is its own deduplication |
| Distinct.UniqueCountriesSpec | index.js:329 | every record's country value (or `undefined`) is listed exactly once and nothing else is |
| Distinct.UniquePortsSpec | index.js:330 | every record's port value (or `undefined`) is listed exactly once and nothing else is |
| Csv.Cell | index.js:299-311 | the text of one cell's template literal, defined per column; CellSpec states it per case |
| Csv.RowLine | index.js:316 | one record's line, defined as its quoted cells joined by commas; RowLineSpec, RowLineAvoidsNewline and RowLineEnd state its shape |
| Csv.CsvContent | index.js:314-317 | the exported text, defined as the header line and the row lines joined by line feeds; CsvContentSpec and NoTrailingNewline state its shape |
| Csv.CellSpec | index.js:298-311 | a present key's value is its cell; a missing server, title, domain or cloud gives `''`, and any other missing key renders as `undefined` |
| Csv.HeaderLineSpec | index.js:297-315 | the header line splits at its commas back into the thirteen names, and holds no quote and no line feed |
| Csv.HeaderPlain | index.js:297 | the column names are non-empty and made of ASCII letters only, so none holds a comma, a quote or a line feed |
| Csv.ColumnOf | index.js:298-311 | every record key has a column |
| Csv.RowLineSpec | index.js:316 | values are not escaped: a row line splits at its commas into thirteen cells plus one per comma inside a value; it gives exactly the thirteen quoted cells exactly when no value holds a comma |
| Csv.RowLineAvoidsNewline | index.js:316 | a record without line feeds gives a one-line row |
| Csv.CsvContentSpec | index.js:314-317 | when no value holds a line feed, the text splits at its line feeds into the header line followed by one row per record, in record order; that is one line more than records |
| Csv.RowLineEnd | index.js:316 | a row line ends with the closing quote of its cloud cell |
| Csv.NoTrailingNewline | index.js:314-317 | the text is never empty and never ends with a line feed |

## Left out

- The React component's rendering, its hooks and its event handlers are left out. This covers `handleParseData`, `handleReset`, the `useMemo` dependency list and all the JSX. They tie the logic to the screen and hold no logic of their own beyond the calls modelled here.
- The fallback `rawData = parsedData.length > 0 ? parsedData : sampleData` (index.js:259) and the sample records are left out: the view and the option lists take the records as a parameter.
- The statistics in the JSX and the numeric ordering of the port list (`parseInt`, index.js:416) are presentation and are left out.
- The download itself is left out: the `Blob`, the object URL, the click on a temporary link and the file name holding today's date. It is I/O and needs the clock. Only the CSV text is modelled.
- Text.ToLower: maps only ASCII letters. JavaScript's `toLowerCase` applies full Unicode case mapping, which can also change the length of a string.
- Text.TrimSpec: works on Dafny characters rather than UTF-16 code units. The white-space set is ECMAScript's as of the current edition, with no surrogate handling.
- Patterns.UrlFromSpec: the regular expressions are written out as scans for the lines they match. The general regex engine, and `match` on arbitrary patterns, are not modelled.
- Sorting.SortInPlace: is an insertion sort. The engine's `Array.prototype.sort` algorithm is not modelled. What the model keeps is what the language guarantees for a consistent comparator: the result is the stable sort by the comparator. When no two records share a sort value that result is unique (`Sorting.SortedUnique`); with ties, the tied records keep their input order (`Sorting.SortByStable`).
- Sorting.Less: compares Dafny characters, i.e. Unicode code points. JavaScript compares UTF-16 code units, and the two orders differ only for characters outside the Basic Multilingual Plane.
- Query.Matches: a record that lacks a key is modelled. A record whose value is not a string (e.g. a number) is not: every value here is a string, as the parser and the sample data make them.
