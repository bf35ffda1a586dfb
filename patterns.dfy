/**
 * The regular expressions of the parser, each written out as a scan over the
 * characters with a contract that says which lines it matches.  `\d` and `\w`
 * are ASCII classes, as in JavaScript without the `u` flag.
 */
module Patterns {

  import opened Wrappers
  import opened Text

  predicate IsDigit(c: char) { '0' <= c <= '9' }

  predicate IsDigitOrDot(c: char) { IsDigit(c) || c == '.' }

  /** `\w`. */
  predicate IsWordChar(c: char) { ('a' <= c <= 'z') || ('A' <= c <= 'Z') || IsDigit(c) || c == '_' }

  /** `[\w.-]`. */
  predicate IsHostChar(c: char) { IsWordChar(c) || c == '.' || c == '-' }

  /** Length of the longest prefix of `s` whose characters satisfy `p` (a greedy `p+` / `p*`). */
  function Span(s: string, p: char -> bool): (n: nat)
    ensures n <= |s|
  {
    if |s| > 0 && p(s[0]) then 1 + Span(s[1..], p) else 0
  }

  /** Span stops at the first character that fails `p`. */
  lemma {:induction false} SpanSpec(s: string, p: char -> bool)
    ensures forall i :: 0 <= i < Span(s, p) ==> p(s[i])
    ensures Span(s, p) < |s| ==> !p(s[Span(s, p)])
  {
    if |s| > 0 && p(s[0]) {
      SpanSpec(s[1..], p);
      assert forall i :: 1 <= i <= Span(s[1..], p) ==> s[i] == s[1..][i - 1];
    }
  }

  predicate IsIpText(s: string) { s != [] && forall i :: 0 <= i < |s| ==> IsDigitOrDot(s[i]) }

  predicate IsPortText(s: string) { s != [] && forall i :: 0 <= i < |s| ==> IsDigit(s[i]) }

  /** `s` matches `^[\d.]+:\d` with the colon at position `k`. */
  ghost predicate BoundaryAt(s: string, k: int) {
    0 < k && k + 1 < |s| && (forall j :: 0 <= j < k ==> IsDigitOrDot(s[j])) && s[k] == ':' && IsDigit(s[k + 1])
  }

  /** `line.match(/^([\d.]+):(\d+)/)` with its two groups. */
  function BoundaryMatch(line: string): Option<(string, string)> {
    var k := Span(line, IsDigitOrDot);
    if 0 < k && k + 1 < |line| && line[k] == ':' && IsDigit(line[k + 1]) then
      var n := Span(line[k + 1..], IsDigit);
      Some((line[..k], line[k + 1..k + 1 + n]))
    else
      None
  }

  /**
   * The boundary pattern matches exactly the lines that start with digits and
   * dots, a colon and a digit; the groups are the ip text and the whole run of
   * digits after the colon, and the line starts with `ip:port`.
   */
  lemma BoundaryMatchSpec(line: string)
    ensures BoundaryMatch(line).Some? <==> exists k :: BoundaryAt(line, k)
    ensures BoundaryMatch(line).Some? ==>
      var (ip, port) := BoundaryMatch(line).value;
      IsIpText(ip) && IsPortText(port) && StartsWith(line, ip + ":" + port) &&
      (|ip| + 1 + |port| == |line| || !IsDigit(line[|ip| + 1 + |port|]))
  {
    var k := Span(line, IsDigitOrDot);
    SpanSpec(line, IsDigitOrDot);
    assert forall j :: BoundaryAt(line, j) ==> j == k;
    if 0 < k && k + 1 < |line| && line[k] == ':' && IsDigit(line[k + 1]) {
      var n := Span(line[k + 1..], IsDigit);
      SpanSpec(line[k + 1..], IsDigit);
      assert BoundaryAt(line, k);
      var ip, port := line[..k], line[k + 1..k + 1 + n];
      assert port == line[k + 1..][..n];
      assert line[..k + 1 + n] == ip + ":" + port;
    }
  }

  /** Span over a run of `p`-characters followed by a character failing `p` (or nothing) is the run's length. */
  lemma {:induction false} SpanRun(s: string, t: string, p: char -> bool)
    requires forall i :: 0 <= i < |s| ==> p(s[i])
    requires t == [] || !p(t[0])
    ensures Span(s + t, p) == |s|
    decreases |s|
  {
    if |s| > 0 {
      assert (s + t)[1..] == s[1..] + t;
      SpanRun(s[1..], t, p);
    } else {
      assert s + t == t;
    }
  }

  /** A line `ip:port` with an ip text and a port text matches the boundary pattern with exactly those groups. */
  lemma BoundaryMatchOf(ip: string, port: string)
    requires IsIpText(ip) && IsPortText(port)
    ensures BoundaryMatch(ip + ":" + port) == Some((ip, port))
  {
    var line := ip + ":" + port;
    SpanRun(ip, ":" + port, IsDigitOrDot);
    assert line == ip + (":" + port);
    assert line[|ip| + 1..] == port + [];
    SpanRun(port, [], IsDigit);
    assert line[..|ip|] == ip;
    assert line[|ip| + 1..|ip| + 1 + |port|] == port;
  }

  /** A URL `http(s)://h…` with a host character `h` starts at position `q` of `s`. */
  ghost predicate UrlAt(s: string, q: int) {
    0 <= q <= |s| &&
    ((StartsWith(s[q..], "https://") && q + 8 < |s| && IsHostChar(s[q + 8])) ||
     (StartsWith(s[q..], "http://") && q + 7 < |s| && IsHostChar(s[q + 7])))
  }

  /** Every URL starts with `h`, so a string without `h` holds none. */
  lemma UrlStartsWithH(s: string)
    requires 'h' !in s
    ensures forall q :: !UrlAt(s, q)
  {
    forall q | 0 <= q && q + 7 < |s| ensures s[q..][..7][0] == s[q] {
    }
  }

  /** The leftmost match of `/https?:\/\/([\w.-]+)/` at or after position `p`, and its group. */
  function UrlFrom(s: string, p: nat): Option<string>
    requires p <= |s|
    decreases |s| - p
  {
    if p == |s| then None
    else if StartsWith(s[p..], "https://") && p + 8 < |s| && IsHostChar(s[p + 8]) then
      Some(s[p + 8..p + 8 + Span(s[p + 8..], IsHostChar)])
    else if StartsWith(s[p..], "http://") && p + 7 < |s| && IsHostChar(s[p + 7]) then
      Some(s[p + 7..p + 7 + Span(s[p + 7..], IsHostChar)])
    else
      UrlFrom(s, p + 1)
  }

  /** The URL scan finds a match exactly when a URL starts at or after `p`; the group is a non-empty run of host characters. */
  lemma {:induction false} UrlFromSpec(s: string, p: nat)
    requires p <= |s|
    ensures UrlFrom(s, p).Some? <==> exists q :: p <= q && UrlAt(s, q)
    ensures UrlFrom(s, p).Some? ==>
      var h := UrlFrom(s, p).value;
      h != [] && (forall i :: 0 <= i < |h| ==> IsHostChar(h[i])) && ':' in s
    decreases |s| - p
  {
    if p == |s| {
      assert forall q :: p <= q ==> !UrlAt(s, q);
    } else if StartsWith(s[p..], "https://") && p + 8 < |s| && IsHostChar(s[p + 8]) {
      assert UrlAt(s, p);
      assert s[p + 5] == s[p..][..8][5];
      SpanSpec(s[p + 8..], IsHostChar);
    } else if StartsWith(s[p..], "http://") && p + 7 < |s| && IsHostChar(s[p + 7]) {
      assert UrlAt(s, p);
      assert s[p + 4] == s[p..][..7][4];
      SpanSpec(s[p + 7..], IsHostChar);
    } else {
      assert !UrlAt(s, p);
      UrlFromSpec(s, p + 1);
    }
  }

  /** At a URL, the scan's group is the whole run of host characters after `https://` (tried first, as `s?` is greedy) or else after `http://`. */
  lemma UrlFromAt(s: string, q: nat)
    requires UrlAt(s, q)
    ensures UrlFrom(s, q).Some?
    ensures
      var l := if StartsWith(s[q..], "https://") && q + 8 < |s| && IsHostChar(s[q + 8]) then 8 else 7;
      var h := UrlFrom(s, q).value;
      q + l + |h| <= |s| && h == s[q + l..q + l + |h|] && (q + l + |h| == |s| || !IsHostChar(s[q + l + |h|]))
  {
    if StartsWith(s[q..], "https://") && q + 8 < |s| && IsHostChar(s[q + 8]) {
      SpanSpec(s[q + 8..], IsHostChar);
    } else {
      SpanSpec(s[q + 7..], IsHostChar);
    }
  }

  /** The scan from `p` finds the leftmost URL at or after `p`: it gives what the scan from that URL's start gives. */
  lemma {:induction false} UrlFromFirst(s: string, p: nat) returns (q: nat)
    requires p <= |s| && UrlFrom(s, p).Some?
    ensures p <= q && UrlAt(s, q) && UrlFrom(s, p) == UrlFrom(s, q)
    ensures forall q' :: p <= q' < q ==> !UrlAt(s, q')
    decreases |s| - p
  {
    if StartsWith(s[p..], "https://") && p + 8 < |s| && IsHostChar(s[p + 8]) {
      q := p;
    } else if StartsWith(s[p..], "http://") && p + 7 < |s| && IsHostChar(s[p + 7]) {
      q := p;
    } else {
      assert !UrlAt(s, p);
      q := UrlFromFirst(s, p + 1);
    }
  }

  /**
   * The scan's group is the host of the leftmost URL at or after `p`: that URL
   * starts at `q`, none starts between `p` and `q`, and the group is the whole
   * run of host characters after its `https://` or else its `http://`.
   */
  lemma UrlFromLeftmost(s: string, p: nat) returns (q: nat)
    requires p <= |s| && UrlFrom(s, p).Some?
    ensures p <= q && UrlAt(s, q)
    ensures forall q' :: p <= q' < q ==> !UrlAt(s, q')
    ensures
      var l := if StartsWith(s[q..], "https://") && q + 8 < |s| && IsHostChar(s[q + 8]) then 8 else 7;
      var h := UrlFrom(s, p).value;
      q + l + |h| <= |s| && h == s[q + l..q + l + |h|] && (q + l + |h| == |s| || !IsHostChar(s[q + l + |h|]))
  {
    q := UrlFromFirst(s, p);
    UrlFromAt(s, q);
  }

  /** `line.match(/https?:\/\/([\w.-]+)/)[1]`. */
  function DomainMatch(line: string): Option<string> {
    UrlFrom(line, 0)
  }

  /** The domain pattern matches exactly the lines holding a URL; the group is a non-empty run of host characters. */
  lemma DomainMatchSpec(line: string)
    ensures DomainMatch(line).Some? <==> exists q :: UrlAt(line, q)
    ensures DomainMatch(line).Some? ==>
      var h := DomainMatch(line).value;
      h != [] && (forall i :: 0 <= i < |h| ==> IsHostChar(h[i])) && ':' in line
  {
    UrlFromSpec(line, 0);
  }

  /** The domain group is the whole host run of the line's leftmost URL. */
  lemma DomainMatchLeftmost(line: string) returns (q: nat)
    requires DomainMatch(line).Some?
    ensures UrlAt(line, q) && forall q' :: 0 <= q' < q ==> !UrlAt(line, q')
    ensures
      var l := if StartsWith(line[q..], "https://") && q + 8 < |line| && IsHostChar(line[q + 8]) then 8 else 7;
      var h := DomainMatch(line).value;
      q + l + |h| <= |line| && h == line[q + l..q + l + |h|] && (q + l + |h| == |line| || !IsHostChar(line[q + l + |h|]))
  {
    q := UrlFromLeftmost(line, 0);
  }

  /** `/^\d{4}-\d{2}-\d{2}$/`. */
  predicate IsDate(line: string) {
    |line| == 10 && IsDigit(line[0]) && IsDigit(line[1]) && IsDigit(line[2]) && IsDigit(line[3]) &&
    line[4] == '-' && IsDigit(line[5]) && IsDigit(line[6]) && line[7] == '-' && IsDigit(line[8]) && IsDigit(line[9])
  }

  /** The line-shape part of the title test: length strictly between 5 and 200, none of `HTTP/`, `country`, `:`, no leading digit. */
  predicate IsTitleCandidate(line: string) {
    5 < |line| < 200 && !Contains(line, "HTTP/") && !Contains(line, "country") && !Contains(line, ":") &&
    !(|line| > 0 && IsDigit(line[0]))
  }
}
