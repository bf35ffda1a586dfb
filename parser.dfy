/**
 * The text-to-record parser `parseInputData` (index.js:142-240).
 *
 * The parser itself is the method ParseInputData: one forward pass over the
 * trimmed lines with a mutable current entry, flushed on every boundary line and
 * at the end.  Its specification Parse is built in two phases instead: Tokens
 * turns the lines into events (a boundary, the value consumed by a `CloudName`
 * look-ahead, or any other line), and Records cuts the events at the boundaries
 * and folds each block's lines into the record its boundary opened.
 */
module RecordParser {

  import opened Wrappers
  import opened Text
  import opened Patterns
  import opened HostRecord

  /** What one input line (or a `CloudName` line with the line it consumes) contributes. */
  datatype Event =
    | Open(ip: string, port: string)   // a boundary line `ip:port...`
    | CloudValue(value: string)        // `CloudName` followed by a line that trims to `value`
    | Plain(line: string)              // any other line, trimmed

  /** The parts of a geo line: the prefix `country ` removed, split on ` / `. */
  function GeoParts(line: string): seq<string> {
    Split(ReplaceFirst(line, "country ", ""), " / ")
  }

  /** The field rules for one trimmed line that is not a boundary, in the order index.js:175-231 tries them. */
  function ApplyLine(e: Entry, line: string): Entry {
    if StartsWith(line, "country ") then
      var parts := GeoParts(line);
      var e1 := if |parts| >= 1 then e[Country := parts[0]] else e;
      var e2 := if |parts| >= 2 then e1[Region := parts[1]] else e1;
      if |parts| >= 3 then e2[City := parts[2]] else e2
    else if StartsWith(line, "ASN: ") then e[Asn := ReplaceFirst(line, "ASN: ", "")]
    else if StartsWith(line, "Organization: ") then e[Organization := ReplaceFirst(line, "Organization: ", "")]
    else if IsDate(line) then e[Date := line]
    else if StartsWith(line, "Server: ") then e[Server := ReplaceFirst(line, "Server: ", "")]
    else if DomainMatch(line).Some? && !Truthy(e, Domain) then
      var e1 := e[Domain := DomainMatch(line).value];
      if Contains(line, "https://") then e1[Protocol := SecureProtocol] else e1
    else if line == "CloudName" then e
    else if IsTitleCandidate(line) && Truthy(e, Ip) && !Truthy(e, Title) then e[Title := line]
    else e
  }

  /** The effect of one non-boundary event on the current entry. */
  function Step(e: Entry, ev: Event): Entry {
    match ev
    case Open(_, _) => e
    case CloudValue(v) => e[Cloud := v]
    case Plain(line) => ApplyLine(e, line)
  }

  /** Applies events left to right. */
  function Fold(e: Entry, evs: seq<Event>): Entry
    decreases |evs|
  {
    if evs == [] then e else Fold(Step(e, evs[0]), evs[1..])
  }

  /** What a flush pushes: the current entry, unless it has no key at all. */
  function Flush(e: Entry): seq<Entry> {
    if |e| > 0 then [e] else []
  }

  /** A flush pushes at most the current entry, and pushes nothing exactly when it has no key. */
  lemma FlushSpec(e: Entry)
    ensures |Flush(e)| <= 1
    ensures Flush(e) == [] <==> e == map[]
    ensures forall x :: x in Flush(e) ==> x == e
  {
    if e != map[] {
      var f :| f in e;
      assert |e| > 0;
    }
  }

  /**
   * The events of `lines[i..]`.  A `CloudName` line is tried for its look-ahead
   * before the field rules; no earlier rule matches the literal `CloudName`
   * (NoRuleMatchesCloudName), so this order gives the same outcome as `parseInputData`'s.
   */
  function Tokens(lines: seq<string>, i: nat): seq<Event>
    decreases |lines| - i
  {
    if i >= |lines| then []
    else
      var line := Trim(lines[i]);
      match BoundaryMatch(line)
      case Some((ip, port)) => [Open(ip, port)] + Tokens(lines, i + 1)
      case None =>
        if line == "CloudName" then
          if i + 1 < |lines| && Trim(lines[i + 1]) != "" then [CloudValue(Trim(lines[i + 1]))] + Tokens(lines, i + 2)
          else Tokens(lines, i + 1)
        else [Plain(line)] + Tokens(lines, i + 1)
  }

  /** The one-pass state machine over events: current entry `cur`, flush on a boundary and at the end. */
  function Run(cur: Entry, evs: seq<Event>): seq<Entry>
    decreases |evs|
  {
    if evs == [] then Flush(cur)
    else match evs[0]
      case Open(ip, port) => Flush(cur) + Run(Fresh(ip, port), evs[1..])
      case _ => Run(Step(cur, evs[0]), evs[1..])
  }

  /** The events before the first boundary event. */
  function Before(evs: seq<Event>): (r: seq<Event>)
    ensures |r| <= |evs|
    decreases |evs|
  {
    if evs == [] || evs[0].Open? then [] else [evs[0]] + Before(evs[1..])
  }

  /** The events from the first boundary event on. */
  function From(evs: seq<Event>): (r: seq<Event>)
    ensures |r| <= |evs|
    ensures r == [] || r[0].Open?
    decreases |evs|
  {
    if evs == [] || evs[0].Open? then evs else From(evs[1..])
  }

  /** One record per boundary event, folded from the events up to the next boundary. */
  function Blocks(evs: seq<Event>): seq<Entry>
    requires evs == [] || evs[0].Open?
    decreases |evs|
  {
    if evs == [] then []
    else [Fold(Fresh(evs[0].ip, evs[0].port), Before(evs[1..]))] + Blocks(From(evs[1..]))
  }

  /** The records of an event sequence: the partial record of what precedes the first boundary (if it set any key), then the blocks. */
  function Records(evs: seq<Event>): seq<Entry> {
    Flush(Fold(map[], Before(evs))) + Blocks(From(evs))
  }

  function ParseLines(lines: seq<string>): seq<Entry> {
    Records(Tokens(lines, 0))
  }

  /** The specification of `parseInputData(input)`. */
  function Parse(input: string): seq<Entry> {
    ParseLines(Split(input, "\n"))
  }

  lemma NoRuleMatchesCloudName()
    ensures !StartsWith("CloudName", "country ") && !StartsWith("CloudName", "ASN: ")
    ensures !StartsWith("CloudName", "Organization: ") && !IsDate("CloudName") && !StartsWith("CloudName", "Server: ")
    ensures DomainMatch("CloudName").None?
  {
    var s := "CloudName";
    assert s[..8][0] == 'C' && s[..5][0] == 'C';
    assert 'h' !in s;
    UrlStartsWithH(s);
    DomainMatchSpec(s);
  }

  /** Folding never removes a key. */
  lemma {:induction false} FoldKeys(e: Entry, evs: seq<Event>)
    ensures e.Keys <= Fold(e, evs).Keys
    decreases |evs|
  {
    if evs != [] {
      FoldKeys(Step(e, evs[0]), evs[1..]);
    }
  }

  lemma FoldCons(e: Entry, ev: Event, rest: seq<Event>)
    ensures Fold(e, [ev] + rest) == Fold(Step(e, ev), rest)
  {
    assert ([ev] + rest)[1..] == rest;
  }

  /** The state machine and the segment-and-fold reading agree from any current entry. */
  lemma {:induction false} RunSegments(cur: Entry, evs: seq<Event>)
    ensures Run(cur, evs) == Flush(Fold(cur, Before(evs))) + Blocks(From(evs))
    decreases |evs|
  {
    if evs != [] {
      var ev, t := evs[0], evs[1..];
      if ev.Open? {
        var start := Fresh(ev.ip, ev.port);
        RunSegments(start, t);
        FoldKeys(start, Before(t));
        assert Flush(Fold(start, Before(t))) == [Fold(start, Before(t))];
        assert Run(cur, evs) == Flush(cur) + ([Fold(start, Before(t))] + Blocks(From(t)));
      } else {
        RunSegments(Step(cur, ev), t);
        FoldCons(cur, ev, Before(t));
      }
    }
  }

  /** The one-pass state machine of `parseInputData` computes the two-phase reading. */
  lemma RunIsRecords(evs: seq<Event>)
    ensures Run(map[], evs) == Records(evs)
  {
    RunSegments(map[], evs);
  }

  lemma RunCons(cur: Entry, ev: Event, rest: seq<Event>)
    ensures Run(cur, [ev] + rest) == if ev.Open? then Flush(cur) + Run(Fresh(ev.ip, ev.port), rest) else Run(Step(cur, ev), rest)
  {
    assert ([ev] + rest)[0] == ev && ([ev] + rest)[1..] == rest;
  }

  /**
   * What the loop of `parseInputData` still adds to `parsed` from line `i` on,
   * with `cur` as the current entry: the loop read as a recursion over the lines.
   */
  function RunLines(lines: seq<string>, i: nat, cur: Entry): seq<Entry>
    decreases |lines| - i
  {
    if i >= |lines| then Flush(cur)
    else
      var line := Trim(lines[i]);
      var m := BoundaryMatch(line);
      if m.Some? then Flush(cur) + RunLines(lines, i + 1, Fresh(m.value.0, m.value.1))
      else if line == "CloudName" && i + 1 < |lines| && Trim(lines[i + 1]) != "" then
        RunLines(lines, i + 2, cur[Cloud := Trim(lines[i + 1])])
      else RunLines(lines, i + 1, ApplyLine(cur, line))
  }

  /** RunLines at a boundary line. */
  lemma RunLinesOpen(lines: seq<string>, i: nat, cur: Entry, ip: string, port: string)
    requires i < |lines| && BoundaryMatch(Trim(lines[i])) == Some((ip, port))
    ensures RunLines(lines, i, cur) == Flush(cur) + RunLines(lines, i + 1, Fresh(ip, port))
  {
  }

  lemma AppendAssoc<T>(a: seq<T>, b: seq<T>, c: seq<T>)
    ensures a + (b + c) == (a + b) + c
  {
  }

  /** RunLines at a `CloudName` line whose look-ahead consumes the next line. */
  lemma RunLinesCloud(lines: seq<string>, i: nat, cur: Entry)
    requires i + 1 < |lines| && BoundaryMatch(Trim(lines[i])).None? && Trim(lines[i]) == "CloudName"
    requires Trim(lines[i + 1]) != ""
    ensures RunLines(lines, i, cur) == RunLines(lines, i + 2, cur[Cloud := Trim(lines[i + 1])])
  {
  }

  /** RunLines at any other line. */
  lemma RunLinesRule(lines: seq<string>, i: nat, cur: Entry)
    requires i < |lines| && BoundaryMatch(Trim(lines[i])).None?
    requires !(Trim(lines[i]) == "CloudName" && i + 1 < |lines| && Trim(lines[i + 1]) != "")
    ensures RunLines(lines, i, cur) == RunLines(lines, i + 1, ApplyLine(cur, Trim(lines[i])))
  {
  }

  /** The line-by-line loop and the event state machine agree. */
  lemma {:induction false} RunLinesIsRun(lines: seq<string>, i: nat, cur: Entry)
    ensures RunLines(lines, i, cur) == Run(cur, Tokens(lines, i))
    decreases |lines| - i
  {
    if i < |lines| {
      var line := Trim(lines[i]);
      match BoundaryMatch(line)
      case Some((ip, port)) =>
        RunLinesIsRun(lines, i + 1, Fresh(ip, port));
        RunCons(cur, Open(ip, port), Tokens(lines, i + 1));
      case None =>
        if line == "CloudName" && i + 1 < |lines| && Trim(lines[i + 1]) != "" {
          RunLinesIsRun(lines, i + 2, cur[Cloud := Trim(lines[i + 1])]);
          RunCons(cur, CloudValue(Trim(lines[i + 1])), Tokens(lines, i + 2));
        } else if line == "CloudName" {
          NoRuleMatchesCloudName();
          assert ApplyLine(cur, line) == cur;
          RunLinesIsRun(lines, i + 1, cur);
        } else {
          RunLinesIsRun(lines, i + 1, ApplyLine(cur, line));
          RunCons(cur, Plain(line), Tokens(lines, i + 1));
        }
    }
  }

  /**
   * The body of the loop of `parseInputData` for a line that is not a boundary
   * (index.js:175-231): each rule assigns fields of the current entry and ends
   * the line's processing.  `atCloudName` reports that the line reached the
   * `CloudName` rule, whose look-ahead needs the next line and is done by the
   * caller.
   */
  method ApplyFieldRules(current: Entry, line: string) returns (next: Entry, atCloudName: bool)
    ensures atCloudName <==> line == "CloudName"
    ensures atCloudName ==> next == current
    ensures next == ApplyLine(current, line)
  {
    next, atCloudName := current, false;
    NoRuleMatchesCloudName();
    if StartsWith(line, "country ") {
      var parts := Split(ReplaceFirst(line, "country ", ""), " / ");
      if |parts| >= 1 { next := next[Country := parts[0]]; }
      if |parts| >= 2 { next := next[Region := parts[1]]; }
      if |parts| >= 3 { next := next[City := parts[2]]; }
      return;
    }
    if StartsWith(line, "ASN: ") {
      next := next[Asn := ReplaceFirst(line, "ASN: ", "")];
      return;
    }
    if StartsWith(line, "Organization: ") {
      next := next[Organization := ReplaceFirst(line, "Organization: ", "")];
      return;
    }
    if IsDate(line) {
      next := next[Date := line];
      return;
    }
    if StartsWith(line, "Server: ") {
      next := next[Server := ReplaceFirst(line, "Server: ", "")];
      return;
    }
    var domainMatch := DomainMatch(line);
    if domainMatch.Some? && !Truthy(next, Domain) {
      next := next[Domain := domainMatch.value];
      if Contains(line, "https://") {
        next := next[Protocol := SecureProtocol];
      }
      return;
    }
    if line == "CloudName" {
      atCloudName := true;
      return;
    }
    if IsTitleCandidate(line) && Truthy(next, Ip) && !Truthy(next, Title) {
      next := next[Title := line];
    }
  }

  /**
   * One turn of the loop of `parseInputData` (index.js:153-231) at line `i`: a
   * boundary flushes the current entry and opens a fresh one; any other line
   * goes through the field rules, and a `CloudName` line whose next line is not
   * blank also consumes that line.  `j` is the index of the next line to read.
   */
  method ParseLine(lines: seq<string>, i: nat, parsed: seq<Entry>, current: Entry)
    returns (parsed': seq<Entry>, current': Entry, j: nat)
    requires i < |lines|
    ensures i < j <= |lines|
    ensures parsed + RunLines(lines, i, current) == parsed' + RunLines(lines, j, current')
  {
    var line := Trim(lines[i]);
    var ipPort := BoundaryMatch(line);
    if ipPort.Some? {
      var ip, port := ipPort.value.0, ipPort.value.1;
      RunLinesOpen(lines, i, current, ip, port);
      AppendAssoc(parsed, Flush(current), RunLines(lines, i + 1, Fresh(ip, port)));
      parsed' := parsed;
      if |current| > 0 {
        parsed' := parsed' + [current];
      }
      assert parsed' == parsed + Flush(current);
      current' := Fresh(ip, port);
      j := i + 1;
      assert parsed + RunLines(lines, i, current) == parsed' + RunLines(lines, j, current');
    } else {
      parsed' := parsed;
      var atCloudName;
      current', atCloudName := ApplyFieldRules(current, line);
      if atCloudName && i + 1 < |lines| && Trim(lines[i + 1]) != "" {
        RunLinesCloud(lines, i, current);
        current' := current'[Cloud := Trim(lines[i + 1])];
        j := i + 2;
        assert RunLines(lines, i, current) == RunLines(lines, j, current');
      } else {
        RunLinesRule(lines, i, current);
        j := i + 1;
        assert RunLines(lines, i, current) == RunLines(lines, j, current');
      }
    }
  }

  /** `parseInputData`: one pass over the lines with a current entry and a look-ahead that skips a line. */
  method ParseInputData(input: string) returns (parsed: seq<Entry>)
    ensures parsed == Parse(input)
  {
    parsed := [];
    var lines := Split(input, "\n");
    var current: Entry := map[];
    var i := 0;
    ghost var all := RunLines(lines, 0, map[]);
    while i < |lines|
      invariant 0 <= i <= |lines|
      invariant all == parsed + RunLines(lines, i, current)
      decreases |lines| - i
    {
      parsed, current, i := ParseLine(lines, i, parsed, current);
    }
    if |current| > 0 {
      parsed := parsed + [current];
    }
    assert parsed == all;
    RunLinesIsRun(lines, 0, map[]);
    RunIsRecords(Tokens(lines, 0));
  }
}
