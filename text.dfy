/**
 * The string operations the parser and the query engine use: `trim`, `split`,
 * `join`, `startsWith`, `includes`, `replace` with a string pattern and
 * `toLowerCase`, written out over `seq<char>`.
 */
module Text {

  import opened Wrappers

  /** The code points ECMAScript's `String.prototype.trim` removes (WhiteSpace and LineTerminator). */
  predicate IsTrimmable(c: char) {
    var n := c as int;
    n == 0x09 || n == 0x0A || n == 0x0B || n == 0x0C || n == 0x0D || n == 0x20 || n == 0xA0
    || n == 0x1680 || (0x2000 <= n <= 0x200A) || n == 0x2028 || n == 0x2029 || n == 0x202F
    || n == 0x205F || n == 0x3000 || n == 0xFEFF
  }

  /** `s` without its leading white space. */
  function TrimStart(s: string): string {
    if |s| > 0 && IsTrimmable(s[0]) then TrimStart(s[1..]) else s
  }

  /** `s` without its trailing white space. */
  function TrimEnd(s: string): string {
    if |s| > 0 && IsTrimmable(s[|s| - 1]) then TrimEnd(s[..|s| - 1]) else s
  }

  /** `s.trim()`. */
  function Trim(s: string): string {
    TrimEnd(TrimStart(s))
  }

  lemma {:induction false} TrimStartSpec(s: string)
    ensures var r := TrimStart(s);
      |r| <= |s| && r == s[|s| - |r|..] &&
      (forall i :: 0 <= i < |s| - |r| ==> IsTrimmable(s[i])) &&
      (r == [] || !IsTrimmable(r[0]))
  {
    if |s| > 0 && IsTrimmable(s[0]) {
      TrimStartSpec(s[1..]);
    }
  }

  lemma {:induction false} TrimEndSpec(s: string)
    ensures var r := TrimEnd(s);
      |r| <= |s| && r == s[..|r|] &&
      (forall i :: |r| <= i < |s| ==> IsTrimmable(s[i])) &&
      (r == [] || !IsTrimmable(r[|r| - 1]))
  {
    if |s| > 0 && IsTrimmable(s[|s| - 1]) {
      TrimEndSpec(s[..|s| - 1]);
    }
  }

  /**
   * What `trim` leaves: the part `s[a..a + |r|]` of `s`, empty exactly when `s`
   * is all white space and otherwise starting and ending with a non-space, with
   * only white space cut off on either side.
   */
  lemma TrimSpec(s: string) returns (a: nat)
    ensures var r := Trim(s);
      |r| <= |s| &&
      (r == [] || (!IsTrimmable(r[0]) && !IsTrimmable(r[|r| - 1]))) &&
      (r == [] <==> forall i :: 0 <= i < |s| ==> IsTrimmable(s[i])) &&
      a <= |s| - |r| && r == s[a..a + |r|] &&
      (forall i :: 0 <= i < a ==> IsTrimmable(s[i])) &&
      (forall i :: a + |r| <= i < |s| ==> IsTrimmable(s[i]))
  {
    var t := TrimStart(s);
    TrimStartSpec(s);
    TrimEndSpec(t);
    var r := TrimEnd(t);
    a := |s| - |t|;
    assert r != [] ==> t[0] == r[0];
    assert r == s[a..a + |r|];
    forall i | a + |r| <= i < |s| ensures IsTrimmable(s[i]) {
      assert s[i] == t[i - a];
    }
  }

  /** A string that neither starts nor ends with white space is its own trim. */
  lemma TrimPlain(s: string)
    requires |s| > 0 && !IsTrimmable(s[0]) && !IsTrimmable(s[|s| - 1])
    ensures Trim(s) == s
  {
  }

  predicate StartsWith(s: string, prefix: string) {
    |prefix| <= |s| && s[..|prefix|] == prefix
  }

  /** `t` occurs in `s` at position `i`. */
  ghost predicate OccursAt(s: string, t: string, i: int) {
    0 <= i && i + |t| <= |s| && s[i..i + |t|] == t
  }

  /** `s.includes(t)`, by a left-to-right scan. */
  function Contains(s: string, t: string): bool
    decreases |s|
  {
    if StartsWith(s, t) then true
    else if |s| == 0 then false
    else Contains(s[1..], t)
  }

  /** `includes` means "occurs at some position". */
  lemma {:induction false} ContainsOccurs(s: string, t: string)
    ensures Contains(s, t) <==> exists i :: OccursAt(s, t, i)
    decreases |s|
  {
    if StartsWith(s, t) {
      assert OccursAt(s, t, 0);
    } else if |s| == 0 {
      assert forall i :: !OccursAt(s, t, i);
    } else {
      ContainsOccurs(s[1..], t);
      if Contains(s[1..], t) {
        var i :| OccursAt(s[1..], t, i);
        assert s[i + 1..i + 1 + |t|] == s[1..][i..i + |t|];
        assert OccursAt(s, t, i + 1);
      } else {
        forall i | 0 < i && OccursAt(s, t, i) ensures OccursAt(s[1..], t, i - 1) {
          assert i - 1 + |t| <= |s[1..]|;
          assert s[1..][i - 1..i - 1 + |t|] == s[i..i + |t|];
        }
        assert !OccursAt(s, t, 0);
      }
    }
  }

  /** For a one-character pattern, `includes` is membership. */
  lemma {:induction false} ContainsChar(s: string, c: char)
    ensures Contains(s, [c]) <==> c in s
    decreases |s|
  {
    if |s| > 0 {
      ContainsChar(s[1..], c);
      assert s == [s[0]] + s[1..];
    }
  }

  /** A string that starts with `p` contains every prefix `w` of `p`. */
  lemma PrefixContains(s: string, p: string, w: string)
    requires StartsWith(p, w)
    ensures StartsWith(s, p) ==> Contains(s, w)
  {
    if StartsWith(s, p) {
      assert s[..|w|] == p[..|w|];
    }
  }

  /** A string that starts with `p` holds every character of `p`. */
  lemma PrefixHolds(s: string, p: string, c: char)
    requires c in p
    ensures StartsWith(s, p) ==> c in s
  {
    if StartsWith(s, p) {
      var k :| 0 <= k < |p| && p[k] == c;
      assert s[k] == s[..|p|][k];
    }
  }

  /** The first position at which `t` occurs in `s`. */
  function IndexOf(s: string, t: string): (r: Option<nat>)
    ensures r.Some? ==> r.value + |t| <= |s| && s[r.value..r.value + |t|] == t
    decreases |s|
  {
    if StartsWith(s, t) then Some(0)
    else if |s| == 0 then None
    else match IndexOf(s[1..], t)
      case None => None
      case Some(i) => assert s[i + 1..i + 1 + |t|] == s[1..][i..i + |t|]; Some(i + 1)
  }

  /** IndexOf finds the first occurrence: none starts earlier, and when it finds none there is none. */
  lemma {:induction false} IndexOfFirst(s: string, t: string)
    ensures IndexOf(s, t).Some? ==> forall j :: 0 <= j < IndexOf(s, t).value ==> !OccursAt(s, t, j)
    ensures IndexOf(s, t).None? ==> forall j :: !OccursAt(s, t, j)
    decreases |s|
  {
    if !StartsWith(s, t) && |s| > 0 {
      IndexOfFirst(s[1..], t);
      assert !OccursAt(s, t, 0);
      forall j | 0 < j && OccursAt(s, t, j) ensures OccursAt(s[1..], t, j - 1) {
        assert s[1..][j - 1..j - 1 + |t|] == s[j..j + |t|];
      }
    }
  }

  /** `s.replace(t, rep)` with a string pattern: only the first occurrence is replaced. */
  function ReplaceFirst(s: string, t: string, rep: string): string {
    match IndexOf(s, t)
    case None => s
    case Some(i) => s[..i] + rep + s[i + |t|..]
  }

  /** Replacing a prefix by the empty string strips it, which is how the parser uses `replace`. */
  lemma StripPrefix(s: string, p: string)
    requires StartsWith(s, p)
    ensures ReplaceFirst(s, p, "") == s[|p|..]
  {
  }

  /** `parts.join(sep)`. */
  function Join(parts: seq<string>, sep: string): string
    decreases |parts|
  {
    if |parts| == 0 then ""
    else if |parts| == 1 then parts[0]
    else parts[0] + sep + Join(parts[1..], sep)
  }

  /** The scan behind `s.split(sep)`: `cur` is the part collected so far. */
  function SplitFrom(s: string, sep: string, cur: string): (parts: seq<string>)
    requires |sep| > 0
    ensures |parts| >= 1
    decreases |s|
  {
    if |s| == 0 then [cur]
    else if StartsWith(s, sep) then [cur] + SplitFrom(s[|sep|..], sep, "")
    else SplitFrom(s[1..], sep, cur + [s[0]])
  }

  /** `s.split(sep)` for a non-empty string separator: occurrences are found left to right and do not overlap. */
  function Split(s: string, sep: string): (parts: seq<string>)
    requires |sep| > 0
    ensures |parts| >= 1
    ensures Join(parts, sep) == s
  {
    JoinSplitFrom(s, sep, "");
    SplitFrom(s, sep, "")
  }

  /**
   * Where `split` cuts: at the first occurrence of the separator, then again
   * in what follows it, so occurrences are taken left to right and never
   * overlap; with no occurrence the whole string is the only part.
   */
  lemma SplitFirst(s: string, sep: string)
    requires |sep| > 0
    ensures Split(s, sep) == match IndexOf(s, sep)
      case None => [s]
      case Some(i) => [s[..i]] + Split(s[i + |sep|..], sep)
  {
    IndexOfFirst(s, sep);
    match IndexOf(s, sep)
    case None =>
      SplitFromSkip(s, sep, "", |s|);
      assert s[|s|..] == [] && "" + s[..|s|] == s;
    case Some(i) =>
      SplitFromSkip(s, sep, "", i);
      assert StartsWith(s[i..], sep) by { assert s[i..][..|sep|] == s[i..i + |sep|]; }
      assert s[i..][|sep|..] == s[i + |sep|..];
      assert "" + s[..i] == s[..i];
  }

  /** Scanning past `k` characters that start no separator only moves them into the current part. */
  lemma {:induction false} SplitFromSkip(s: string, sep: string, cur: string, k: nat)
    requires |sep| > 0 && k <= |s|
    requires forall j :: 0 <= j < k ==> !OccursAt(s, sep, j)
    ensures SplitFrom(s, sep, cur) == SplitFrom(s[k..], sep, cur + s[..k])
    decreases k
  {
    if k == 0 {
      assert s[0..] == s && cur + s[..0] == cur;
    } else {
      assert !OccursAt(s, sep, 0);
      assert !StartsWith(s, sep);
      forall j | 0 <= j < k - 1
        ensures !OccursAt(s[1..], sep, j)
      {
        assert !OccursAt(s, sep, j + 1);
        if j + 1 + |sep| <= |s| {
          assert s[1..][j..j + |sep|] == s[j + 1..j + 1 + |sep|];
        }
      }
      SplitFromSkip(s[1..], sep, cur + [s[0]], k - 1);
      assert s[1..][k - 1..] == s[k..];
      assert cur + [s[0]] + s[1..][..k - 1] == cur + s[..k];
    }
  }

  lemma {:induction false} JoinSplitFrom(s: string, sep: string, cur: string)
    requires |sep| > 0
    ensures Join(SplitFrom(s, sep, cur), sep) == cur + s
    decreases |s|
  {
    if |s| == 0 {
    } else if StartsWith(s, sep) {
      var rest := SplitFrom(s[|sep|..], sep, "");
      JoinSplitFrom(s[|sep|..], sep, "");
      assert ([cur] + rest)[1..] == rest;
      assert s == sep + s[|sep|..];
    } else {
      JoinSplitFrom(s[1..], sep, cur + [s[0]]);
      assert s == [s[0]] + s[1..];
    }
  }

  lemma {:induction false} SplitFromPlain(p: string, t: string, c: char, cur: string)
    requires c !in p
    ensures SplitFrom(p + t, [c], cur) == SplitFrom(t, [c], cur + p)
    decreases |p|
  {
    if |p| > 0 {
      assert (p + t)[..1] == [p[0]];
      assert !StartsWith(p + t, [c]);
      assert (p + t)[1..] == p[1..] + t;
      SplitFromPlain(p[1..], t, c, cur + [p[0]]);
      assert cur + [p[0]] + p[1..] == cur + p;
    } else {
      assert p + t == t && cur + p == cur;
    }
  }

  /** Splitting on a single character undoes joining on it, when no part contains that character. */
  lemma {:induction false} SplitJoin(parts: seq<string>, c: char)
    requires |parts| >= 1
    requires forall k :: 0 <= k < |parts| ==> c !in parts[k]
    ensures Split(Join(parts, [c]), [c]) == parts
    decreases |parts|
  {
    if |parts| == 1 {
      SplitFromPlain(parts[0], "", c, "");
      assert parts[0] + "" == parts[0];
    } else {
      var j := Join(parts[1..], [c]);
      SplitFromPlain(parts[0], [c] + j, c, "");
      assert parts[0] + [c] + j == parts[0] + ([c] + j);
      assert "" + parts[0] == parts[0];
      assert StartsWith([c] + j, [c]);
      assert ([c] + j)[1..] == j;
      assert SplitFrom([c] + j, [c], parts[0]) == [parts[0]] + SplitFrom(j, [c], "");
      SplitJoin(parts[1..], c);
      assert [parts[0]] + parts[1..] == parts;
    }
  }

  /** A character in neither the parts nor the separator is not in their join. */
  lemma {:induction false} JoinAvoids(parts: seq<string>, sep: string, c: char)
    requires c !in sep
    requires forall k :: 0 <= k < |parts| ==> c !in parts[k]
    ensures c !in Join(parts, sep)
    decreases |parts|
  {
    if |parts| > 1 {
      JoinAvoids(parts[1..], sep, c);
    }
  }

  /** The join of a non-empty list ends with its last part. */
  lemma {:induction false} JoinEndsWith(parts: seq<string>, sep: string)
    requires |parts| >= 1
    ensures var j, last := Join(parts, sep), parts[|parts| - 1]; |last| <= |j| && j[|j| - |last|..] == last
    decreases |parts|
  {
    if |parts| > 1 {
      JoinEndsWith(parts[1..], sep);
      var j := Join(parts[1..], sep);
      assert parts[0] + sep + j == (parts[0] + sep) + j;
    }
  }

  /** The number of occurrences of `c` in `s`. */
  function Count(s: string, c: char): (n: nat)
    ensures n == 0 <==> c !in s
    decreases |s|
  {
    if |s| == 0 then 0 else (if s[0] == c then 1 else 0) + Count(s[1..], c)
  }

  lemma {:induction false} CountAppend(a: string, b: string, c: char)
    ensures Count(a + b, c) == Count(a, c) + Count(b, c)
    decreases |a|
  {
    if |a| > 0 {
      assert (a + b)[1..] == a[1..] + b;
      CountAppend(a[1..], b, c);
    } else {
      assert a + b == b;
    }
  }

  /** The occurrences of `c` in all of the parts. */
  function CountAll(parts: seq<string>, c: char): (n: nat)
    ensures n == 0 <==> forall k :: 0 <= k < |parts| ==> c !in parts[k]
    decreases |parts|
  {
    if |parts| == 0 then 0 else Count(parts[0], c) + CountAll(parts[1..], c)
  }

  /** Splitting on one character gives one part more than it has occurrences. */
  lemma {:induction false} SplitFromCount(s: string, c: char, cur: string)
    ensures |SplitFrom(s, [c], cur)| == Count(s, c) + 1
    decreases |s|
  {
    if |s| > 0 {
      if StartsWith(s, [c]) {
        SplitFromCount(s[1..], c, "");
      } else {
        SplitFromCount(s[1..], c, cur + [s[0]]);
      }
    }
  }

  /** Joining on a one-character separator adds one occurrence between each two parts. */
  lemma {:induction false} JoinCount(parts: seq<string>, c: char)
    requires |parts| >= 1
    ensures Count(Join(parts, [c]), c) == CountAll(parts, c) + |parts| - 1
    decreases |parts|
  {
    if |parts| > 1 {
      JoinCount(parts[1..], c);
      var j := Join(parts[1..], [c]);
      CountAppend(parts[0] + [c], j, c);
      CountAppend(parts[0], [c], c);
    } else {
      assert CountAll(parts[1..], c) == 0;
    }
  }

  function LowerChar(c: char): char {
    if 'A' <= c <= 'Z' then (c as int + 32) as char else c
  }

  /** `s.toLowerCase()` restricted to ASCII letters. */
  function ToLower(s: string): (r: string)
    ensures |r| == |s|
    ensures forall i :: 0 <= i < |s| ==> r[i] == LowerChar(s[i])
  {
    seq(|s|, i requires 0 <= i < |s| => LowerChar(s[i]))
  }

  /**
   * Lower-casing turns each upper-case letter into its lower-case letter, keeps
   * every other character, and so changes nothing the second time.
   */
  lemma ToLowerSpec(s: string)
    ensures forall i :: 0 <= i < |s| ==> !('A' <= ToLower(s)[i] <= 'Z')
    ensures forall i :: 0 <= i < |s| && !('A' <= s[i] <= 'Z') ==> ToLower(s)[i] == s[i]
    ensures forall i :: 0 <= i < |s| && 'A' <= s[i] <= 'Z' ==> ToLower(s)[i] == s[i] - 'A' + 'a'
    ensures ToLower(ToLower(s)) == ToLower(s)
  {
  }
}
