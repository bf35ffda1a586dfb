/**
 * What the records of `parseInputData` look like (index.js:142-240), proved
 * about the event reading of the parser (RecordParser.Records): which fields
 * each line may assign, last-write-wins for the prefix fields, the one-shot
 * domain and protocol, the first-match title, the leading partial record, the
 * records opened by boundary lines and the `CloudName` look-ahead.
 */
module ParserTheory {

  import opened Wrappers
  import opened Text
  import opened Patterns
  import opened HostRecord
  import opened RecordParser

  /** The lines one of the rules before `CloudName` recognises whatever the entry holds: geo, ASN, Organization, date, Server, URL. */
  predicate IsFieldLine(line: string) {
    StartsWith(line, "country ") || StartsWith(line, "ASN: ") || StartsWith(line, "Organization: ") ||
    IsDate(line) || StartsWith(line, "Server: ") || DomainMatch(line).Some?
  }

  /** The fields the rule that takes a trimmed line may assign: the first rule whose line test matches decides. */
  function RuleFields(line: string): set<Field> {
    if StartsWith(line, "country ") then {Country, Region, City}
    else if StartsWith(line, "ASN: ") then {Asn}
    else if StartsWith(line, "Organization: ") then {Organization}
    else if IsDate(line) then {Date}
    else if StartsWith(line, "Server: ") then {Server}
    else if DomainMatch(line).Some? then {Domain, Protocol}
    else if line == "CloudName" then {}
    else if IsTitleCandidate(line) then {Title}
    else {}
  }

  /** The fields an event may assign; a boundary assigns none of the current entry's (it replaces the entry). */
  function Writes(ev: Event): set<Field> {
    match ev
    case Open(_, _) => {}
    case CloudValue(_) => {Cloud}
    case Plain(line) => RuleFields(line)
  }

  /** A URL line holds a colon, so the title rule never takes it. */
  lemma UrlLineIsNoTitle(line: string)
    requires DomainMatch(line).Some?
    ensures !IsTitleCandidate(line)
  {
    DomainMatchSpec(line);
    ContainsChar(line, ':');
  }

  /** One event keeps every key, adds keys only among the fields it may assign, and leaves every other field as it was. */
  lemma StepFrame(e: Entry, ev: Event)
    ensures e.Keys <= Step(e, ev).Keys <= e.Keys + Writes(ev)
    ensures forall f :: f !in Writes(ev) ==> Lookup(Step(e, ev), f) == Lookup(e, f)
  {
    if ev.Plain? && DomainMatch(ev.line).Some? {
      UrlLineIsNoTitle(ev.line);
    }
  }

  lemma {:induction false} FoldAppend(e: Entry, a: seq<Event>, b: seq<Event>)
    ensures Fold(e, a + b) == Fold(Fold(e, a), b)
    decreases |a|
  {
    if a != [] {
      assert (a + b)[0] == a[0] && (a + b)[1..] == a[1..] + b;
      FoldAppend(Step(e, a[0]), a[1..], b);
    } else {
      assert a + b == b;
    }
  }

  /** A field no event assigns keeps its value (or its absence) through a fold. */
  lemma {:induction false} FoldFrame(e: Entry, evs: seq<Event>, f: Field)
    requires forall k :: 0 <= k < |evs| ==> f !in Writes(evs[k])
    ensures Lookup(Fold(e, evs), f) == Lookup(e, f)
    decreases |evs|
  {
    if evs != [] {
      StepFrame(e, evs[0]);
      FoldFrame(Step(e, evs[0]), evs[1..], f);
    }
  }

  /**
   * Last write wins: after `pre`, an event `ev` and events `post` none of which
   * may assign `f`, the field holds what `ev` left in it.
   */
  lemma LastWriteWins(e: Entry, pre: seq<Event>, ev: Event, post: seq<Event>, f: Field)
    requires forall k :: 0 <= k < |post| ==> f !in Writes(post[k])
    ensures Lookup(Fold(e, pre + [ev] + post), f) == Lookup(Step(Fold(e, pre), ev), f)
  {
    FoldAppend(e, pre + [ev], post);
    FoldAppend(e, pre, [ev]);
    assert [ev][1..] == [];
    FoldFrame(Fold(e, pre + [ev]), post, f);
  }

  /**
   * The geo line (index.js:176-182): the rest after `country ` is split on
   * ` / `, and its first three parts overwrite country, region and city; a
   * field beyond the parts keeps its value.
   */
  lemma GeoLine(e: Entry, line: string)
    requires StartsWith(line, "country ")
    ensures var parts := Split(line[8..], " / "); var r := ApplyLine(e, line);
      r[Country] == parts[0] &&
      Lookup(r, Region) == (if |parts| >= 2 then Some(parts[1]) else Lookup(e, Region)) &&
      Lookup(r, City) == (if |parts| >= 3 then Some(parts[2]) else Lookup(e, City)) &&
      forall f :: f != Country && f != Region && f != City ==> Lookup(r, f) == Lookup(e, f)
  {
    StripPrefix(line, "country ");
  }

  /** The ASN line (index.js:185-188) overwrites `asn` with the rest of the line after the prefix. */
  lemma AsnLine(e: Entry, line: string)
    requires StartsWith(line, "ASN: ")
    ensures ApplyLine(e, line) == e[Asn := line[5..]]
  {
    StripPrefix(line, "ASN: ");
    if |line| >= 8 { assert line[..8][0] == 'A'; }
  }

  /** The Organization line (index.js:191-194) overwrites `organization` with the rest of the line after the prefix. */
  lemma OrganizationLine(e: Entry, line: string)
    requires StartsWith(line, "Organization: ")
    ensures ApplyLine(e, line) == e[Organization := line[14..]]
  {
    StripPrefix(line, "Organization: ");
    assert line[..8][0] == 'O' && line[..5][0] == 'O';
  }

  /** A date line (index.js:197-200) overwrites `date` with the whole line. */
  lemma DateLine(e: Entry, line: string)
    requires IsDate(line)
    ensures ApplyLine(e, line) == e[Date := line]
  {
    assert !StartsWith(line, "country ") && !StartsWith(line, "ASN: ") && !StartsWith(line, "Organization: ") by {
      assert IsDigit(line[0]);
    }
  }

  /** The Server line (index.js:203-206) overwrites `server` with the rest of the line after the prefix. */
  lemma ServerLine(e: Entry, line: string)
    requires StartsWith(line, "Server: ")
    ensures ApplyLine(e, line) == e[Server := line[8..]]
  {
    StripPrefix(line, "Server: ");
    assert line[0] == 'S';
  }

  /**
   * The URL rule (index.js:209-216) on an entry whose domain is still empty:
   * domain becomes the host of the first URL, protocol becomes HTTPS exactly
   * when the line contains `https://` anywhere, and nothing else changes.
   */
  lemma DomainLine(e: Entry, line: string)
    requires !StartsWith(line, "country ") && !StartsWith(line, "ASN: ") && !StartsWith(line, "Organization: ")
    requires !IsDate(line) && !StartsWith(line, "Server: ")
    requires DomainMatch(line).Some? && !Truthy(e, Domain)
    ensures var r := ApplyLine(e, line);
      r[Domain] == DomainMatch(line).value &&
      Lookup(r, Protocol) == (if Contains(line, "https://") then Some(SecureProtocol) else Lookup(e, Protocol)) &&
      forall f :: f != Domain && f != Protocol ==> Lookup(r, f) == Lookup(e, f)
  {
  }

  /** Once the domain is non-empty, no event changes the domain or the protocol. */
  lemma StepDomainSticky(e: Entry, ev: Event)
    requires Truthy(e, Domain)
    ensures Lookup(Step(e, ev), Domain) == Lookup(e, Domain)
    ensures Lookup(Step(e, ev), Protocol) == Lookup(e, Protocol)
  {
    StepFrame(e, ev);
    if ev.Plain? && Domain in RuleFields(ev.line) {
      UrlLineIsNoTitle(ev.line);
      assert ApplyLine(e, ev.line) == e;
    }
  }

  /** A later URL line changes neither the domain nor the protocol: both are fixed from the first domain-setting line on. */
  lemma {:induction false} FoldDomainSticky(e: Entry, evs: seq<Event>)
    requires Truthy(e, Domain)
    ensures Lookup(Fold(e, evs), Domain) == Lookup(e, Domain)
    ensures Lookup(Fold(e, evs), Protocol) == Lookup(e, Protocol)
    decreases |evs|
  {
    if evs != [] {
      StepDomainSticky(e, evs[0]);
      FoldDomainSticky(Step(e, evs[0]), evs[1..]);
    }
  }

  /** The protocol changes only on the line that sets the domain, and only to HTTPS, for a line holding `https://`. */
  lemma StepProtocol(e: Entry, ev: Event)
    requires Lookup(Step(e, ev), Protocol) != Lookup(e, Protocol)
    ensures ev.Plain? && Contains(ev.line, "https://") && DomainMatch(ev.line).Some?
    ensures !Truthy(e, Domain) && Lookup(Step(e, ev), Domain) == Some(DomainMatch(ev.line).value)
    ensures Lookup(Step(e, ev), Protocol) == Some(SecureProtocol)
  {
    StepFrame(e, ev);
    if ev.Plain? && DomainMatch(ev.line).Some? {
      UrlLineIsNoTitle(ev.line);
    }
  }

  /**
   * The title changes only on a candidate line (index.js:229-231) while the
   * entry has a truthy ip and an empty title, and then becomes that line.
   */
  lemma StepTitle(e: Entry, ev: Event)
    requires Lookup(Step(e, ev), Title) != Lookup(e, Title)
    ensures ev.Plain? && IsTitleCandidate(ev.line) && !IsFieldLine(ev.line) && ev.line != "CloudName"
    ensures Truthy(e, Ip) && !Truthy(e, Title) && Lookup(Step(e, ev), Title) == Some(ev.line)
  {
    StepFrame(e, ev);
  }

  /**
   * A candidate line holds no colon, no `country` and no leading digit, so
   * none of the geo, ASN, Organization, date, Server and URL rules takes it.
   */
  lemma TitleCandidateIsNoFieldLine(line: string)
    requires IsTitleCandidate(line)
    ensures !IsFieldLine(line)
  {
    ContainsChar(line, ':');
    PrefixContains(line, "country ", "country");
    assert ':' in "ASN: " && ':' in "Organization: " && ':' in "Server: ";
    PrefixHolds(line, "ASN: ", ':');
    PrefixHolds(line, "Organization: ", ':');
    PrefixHolds(line, "Server: ", ':');
    DomainMatchSpec(line);
  }

  /**
   * The other half of StepTitle: a candidate line other than `CloudName` sets
   * the title of an entry with a truthy ip and an empty title, and changes
   * nothing else.
   */
  lemma TitleLine(e: Entry, line: string)
    requires IsTitleCandidate(line) && line != "CloudName"
    requires Truthy(e, Ip) && !Truthy(e, Title)
    ensures ApplyLine(e, line) == e[Title := line]
  {
    TitleCandidateIsNoFieldLine(line);
  }

  /** The first title wins: once the title is non-empty it never changes. */
  lemma {:induction false} FoldTitleSticky(e: Entry, evs: seq<Event>)
    requires Truthy(e, Title)
    ensures Lookup(Fold(e, evs), Title) == Lookup(e, Title)
    decreases |evs|
  {
    if evs != [] {
      if Lookup(Step(e, evs[0]), Title) != Lookup(e, Title) {
        StepTitle(e, evs[0]);
      }
      FoldTitleSticky(Step(e, evs[0]), evs[1..]);
    }
  }

  /** No rule assigns ip or port: they stay what the boundary line set (or absent). */
  lemma FoldKeepsIpPort(e: Entry, evs: seq<Event>)
    ensures Lookup(Fold(e, evs), Ip) == Lookup(e, Ip)
    ensures Lookup(Fold(e, evs), Port) == Lookup(e, Port)
  {
    FoldFrame(e, evs, Ip);
    FoldFrame(e, evs, Port);
  }

  /** Without a truthy ip no title is ever set. */
  lemma {:induction false} FoldNoTitleWithoutIp(e: Entry, evs: seq<Event>)
    requires !Truthy(e, Ip)
    ensures Lookup(Fold(e, evs), Title) == Lookup(e, Title)
    decreases |evs|
  {
    if evs != [] {
      if Lookup(Step(e, evs[0]), Title) != Lookup(e, Title) {
        StepTitle(e, evs[0]);
      }
      StepFrame(e, evs[0]);
      FoldNoTitleWithoutIp(Step(e, evs[0]), evs[1..]);
    }
  }

  /** An event that gives an entry without ip at least one key: a `CloudName` value or a line one of the first six rules recognises. */
  predicate SetsKey(ev: Event) {
    ev.CloudValue? || (ev.Plain? && IsFieldLine(ev.line))
  }

  lemma StepWithoutIp(e: Entry, ev: Event)
    requires Ip !in e
    ensures Ip !in Step(e, ev)
    ensures SetsKey(ev) ==> |Step(e, ev)| > 0
    ensures !SetsKey(ev) ==> Step(e, ev) == e
  {
    StepFrame(e, ev);
    if SetsKey(ev) && ev.Plain? {
      var line := ev.line;
      if !StartsWith(line, "country ") && !StartsWith(line, "ASN: ") && !StartsWith(line, "Organization: ") &&
         !IsDate(line) && !StartsWith(line, "Server: ") && Truthy(e, Domain) {
        assert Domain in e;
      }
    }
  }

  /** For an entry without ip, folding yields a non-empty entry exactly when the entry had a key or some event sets one. */
  lemma {:induction false} FoldWithoutIp(e: Entry, evs: seq<Event>)
    requires Ip !in e
    ensures Ip !in Fold(e, evs)
    ensures |Fold(e, evs)| > 0 <==> |e| > 0 || exists k :: 0 <= k < |evs| && SetsKey(evs[k])
    decreases |evs|
  {
    if evs != [] {
      var s := Step(e, evs[0]);
      StepWithoutIp(e, evs[0]);
      StepFrame(e, evs[0]);
      FoldWithoutIp(s, evs[1..]);
      if exists k :: 0 <= k < |evs| && SetsKey(evs[k]) {
        var k :| 0 <= k < |evs| && SetsKey(evs[k]);
        if k > 0 {
          assert SetsKey(evs[1..][k - 1]);
        }
      }
      if exists k :: 0 <= k < |evs[1..]| && SetsKey(evs[1..][k]) {
        var k :| 0 <= k < |evs[1..]| && SetsKey(evs[1..][k]);
        assert SetsKey(evs[k + 1]);
      }
    }
  }

  /**
   * The lines before the first boundary give at most one record: one exactly
   * when one of them is a recognised field line or a `CloudName` value, and
   * then without ip, port or title.
   */
  lemma LeadingRecord(evs: seq<Event>)
    ensures var lead := Flush(Fold(map[], Before(evs)));
      |lead| <= 1 &&
      (|lead| == 1 <==> exists k :: 0 <= k < |Before(evs)| && SetsKey(Before(evs)[k])) &&
      forall r :: r in lead ==> Ip !in r && Port !in r && Title !in r
  {
    FoldWithoutIp(map[], Before(evs));
    FoldKeepsIpPort(map[], Before(evs));
    FoldNoTitleWithoutIp(map[], Before(evs));
  }

  /** The ip and port captures of the boundary events, in order. */
  function Boundaries(evs: seq<Event>): (b: seq<(string, string)>)
    ensures |b| <= |evs|
    decreases |evs|
  {
    if evs == [] then []
    else if evs[0].Open? then [(evs[0].ip, evs[0].port)] + Boundaries(evs[1..])
    else Boundaries(evs[1..])
  }

  lemma {:induction false} BoundariesFrom(evs: seq<Event>)
    ensures Boundaries(From(evs)) == Boundaries(evs)
    decreases |evs|
  {
    if evs != [] && !evs[0].Open? {
      BoundariesFrom(evs[1..]);
    }
  }

  /**
   * One record per boundary, in boundary order: each has all thirteen keys and
   * the ip and port its boundary line captured.
   */
  lemma {:induction false} BlocksShape(evs: seq<Event>)
    requires evs == [] || evs[0].Open?
    ensures var b := Blocks(evs); var p := Boundaries(evs);
      |b| == |p| &&
      forall k :: 0 <= k < |b| ==> HasAllFields(b[k]) && b[k][Ip] == p[k].0 && b[k][Port] == p[k].1
    decreases |evs|
  {
    if evs != [] {
      var start := Fresh(evs[0].ip, evs[0].port);
      var t := evs[1..];
      BlocksShape(From(t));
      BoundariesFrom(t);
      FoldKeys(start, Before(t));
      FoldKeepsIpPort(start, Before(t));
      var first := Fold(start, Before(t));
      assert HasAllFields(first) && first[Ip] == evs[0].ip && first[Port] == evs[0].port;
    }
  }

  /** Every capture pair is a non-empty run of digits and dots and a non-empty run of digits. */
  predicate CapturesWellFormed(p: seq<(string, string)>) {
    forall k :: 0 <= k < |p| ==> IsIpText(p[k].0) && IsPortText(p[k].1)
  }

  lemma BoundariesCons(ev: Event, rest: seq<Event>)
    ensures Boundaries([ev] + rest) == (if ev.Open? then [(ev.ip, ev.port)] else []) + Boundaries(rest)
  {
    assert ([ev] + rest)[1..] == rest;
  }

  /** Every boundary event of the lines carries a non-empty run of digits and dots and a non-empty run of digits. */
  lemma {:induction false} TokensBoundaries(lines: seq<string>, i: nat)
    ensures CapturesWellFormed(Boundaries(Tokens(lines, i)))
    decreases |lines| - i
  {
    if i < |lines| {
      var line := Trim(lines[i]);
      BoundaryMatchSpec(line);
      match BoundaryMatch(line)
      case Some((ip, port)) =>
        TokensBoundaries(lines, i + 1);
        BoundariesCons(Open(ip, port), Tokens(lines, i + 1));
      case None =>
        if line == "CloudName" && i + 1 < |lines| && Trim(lines[i + 1]) != "" {
          TokensBoundaries(lines, i + 2);
          BoundariesCons(CloudValue(Trim(lines[i + 1])), Tokens(lines, i + 2));
        } else if line == "CloudName" {
          TokensBoundaries(lines, i + 1);
        } else {
          TokensBoundaries(lines, i + 1);
          BoundariesCons(Plain(line), Tokens(lines, i + 1));
        }
    }
  }

  /**
   * The records of `parseInputData(input)`: an optional leading record without
   * ip, port or title, then one record per boundary in order, each with all
   * thirteen keys and the non-empty ip and port its line captured.
   */
  lemma ParseShape(input: string)
    ensures var evs := Tokens(Split(input, "\n"), 0); var r := Parse(input); var p := Boundaries(evs);
      |p| <= |r| <= |p| + 1 &&
      (|r| == |p| + 1 ==> Ip !in r[0] && Port !in r[0] && Title !in r[0]) &&
      forall k :: 0 <= k < |p| ==>
        var rec := r[|r| - |p| + k];
        HasAllFields(rec) && rec[Ip] == p[k].0 && rec[Port] == p[k].1 && IsIpText(rec[Ip]) && IsPortText(rec[Port])
  {
    var evs := Tokens(Split(input, "\n"), 0);
    var lead := Flush(Fold(map[], Before(evs)));
    LeadingRecord(evs);
    BlocksShape(From(evs));
    BoundariesFrom(evs);
    TokensBoundaries(Split(input, "\n"), 0);
    var r := Parse(input);
    assert r == lead + Blocks(From(evs));
    if |lead| == 1 {
      assert r[0] == lead[0];
      assert lead[0] in lead;
    }
  }

  lemma CloudNameIsNoBoundary()
    ensures BoundaryMatch("CloudName").None?
  {
    assert !IsDigitOrDot("CloudName"[0]);
  }

  /**
   * The `CloudName` look-ahead (index.js:219-226): with a non-blank next line,
   * that line, trimmed, becomes the cloud value and is read by no other rule,
   * even when it is an `ip:port` line; with an absent or blank next line the
   * `CloudName` line has no effect and nothing is skipped.
   */
  lemma CloudNameLookAhead(lines: seq<string>, i: nat)
    requires i < |lines| && Trim(lines[i]) == "CloudName"
    ensures i + 1 < |lines| && Trim(lines[i + 1]) != "" ==>
      Tokens(lines, i) == [CloudValue(Trim(lines[i + 1]))] + Tokens(lines, i + 2)
    ensures i + 1 == |lines| || Trim(lines[i + 1]) == "" ==> Tokens(lines, i) == Tokens(lines, i + 1)
  {
    CloudNameIsNoBoundary();
  }

  /** A boundary line `ip:port` is its own trim: it starts with a digit or dot and ends with a digit. */
  lemma BoundaryLine(ip: string, port: string)
    requires IsIpText(ip) && IsPortText(port)
    ensures Trim(ip + ":" + port) == ip + ":" + port
    ensures BoundaryMatch(Trim(ip + ":" + port)) == Some((ip, port))
  {
    var line := ip + ":" + port;
    assert line[0] == ip[0] && line[|line| - 1] == port[|port| - 1];
    TrimPlain(line);
    BoundaryMatchOf(ip, port);
  }

  /**
   * A `CloudName` line swallows the boundary line after it: that line becomes
   * the cloud of the open record instead of opening a second record.
   */
  lemma CloudNameSwallowsBoundary(ip: string, port: string, ip2: string, port2: string)
    requires IsIpText(ip) && IsPortText(port) && IsIpText(ip2) && IsPortText(port2)
    ensures ParseLines([ip + ":" + port, "CloudName", ip2 + ":" + port2]) == [Fresh(ip, port)[Cloud := ip2 + ":" + port2]]
  {
    var l0, l2 := ip + ":" + port, ip2 + ":" + port2;
    var lines := [l0, "CloudName", l2];
    BoundaryLine(ip, port);
    BoundaryLine(ip2, port2);
    TrimPlain("CloudName");
    assert Tokens(lines, 0) == [Open(ip, port)] + Tokens(lines, 1);
    CloudNameLookAhead(lines, 1);
    assert Tokens(lines, 1) == [CloudValue(l2)] + Tokens(lines, 3);
    assert Tokens(lines, 3) == [];
    var evs := [Open(ip, port), CloudValue(l2)];
    assert Tokens(lines, 0) == evs;
    var cv := [CloudValue(l2)];
    var rec := Fresh(ip, port)[Cloud := l2];
    assert Before(evs) == [] && From(evs) == evs && evs[1..] == cv;
    assert Flush(Fold(map[], [])) == [];
    assert Before(cv) == cv && From(cv) == [];
    assert Fold(Fresh(ip, port), cv) == rec;
    assert Blocks(evs) == [rec] + Blocks([]);
  }
}
