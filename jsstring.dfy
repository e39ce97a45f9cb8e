/**
 * The few JavaScript string operations the compiler relies on, with the
 * semantics of the ECMAScript built-ins (a string is a sequence of characters).
 */
module JsString {

  /** `pat` occurs in `s` starting at index `i`. */
  predicate OccursAt(s: string, pat: string, i: int)
  {
    0 <= i && i + |pat| <= |s| && s[i..i + |pat|] == pat
  }

  predicate Contains(s: string, pat: string)
  {
    exists i :: 0 <= i <= |s| && OccursAt(s, pat, i)
  }

  predicate StartsWith(s: string, prefix: string)
  {
    |prefix| <= |s| && s[..|prefix|] == prefix
  }

  /** `String.prototype.endsWith`. */
  predicate EndsWith(s: string, suffix: string)
  {
    |suffix| <= |s| && s[|s| - |suffix|..] == suffix
  }

  function IndexOfFrom(s: string, pat: string, from: nat): (r: int)
    decreases |s| - from
    ensures r == -1 || (from <= r && OccursAt(s, pat, r))
    ensures r == -1 ==> forall i :: from <= i ==> !OccursAt(s, pat, i)
    ensures r != -1 ==> forall i :: from <= i < r ==> !OccursAt(s, pat, i)
  {
    if from + |pat| > |s| then -1
    else if s[from..from + |pat|] == pat then from
    else IndexOfFrom(s, pat, from + 1)
  }

  /** `String.prototype.indexOf`: the first index at which `pat` occurs, or -1. */
  function IndexOf(s: string, pat: string): (r: int)
    ensures r == -1 <==> !Contains(s, pat)
    ensures r != -1 ==> OccursAt(s, pat, r) && forall i :: 0 <= i < r ==> !OccursAt(s, pat, i)
  {
    IndexOfFrom(s, pat, 0)
  }

  /**
   * `s.replace(pat, rep)` with a string pattern: only the FIRST occurrence of
   * `pat` is replaced (an empty pattern occurs at index 0, so `rep` is
   * prepended). `$`-patterns in `rep` are not interpreted.
   */
  function ReplaceFirst(s: string, pat: string, rep: string): string
  {
    var i := IndexOf(s, pat);
    if i < 0 then s else s[..i] + rep + s[i + |pat|..]
  }

  lemma ReplaceFirstAbsent(s: string, pat: string, rep: string)
    requires !Contains(s, pat)
    ensures ReplaceFirst(s, pat, rep) == s
  {
  }

  lemma ReplaceFirstEmptyPattern(s: string, rep: string)
    ensures ReplaceFirst(s, "", rep) == rep + s
  {
    assert OccursAt(s, "", 0);
  }

  /** An occurrence with none before it is the one `IndexOf` finds. */
  lemma IndexOfIs(s: string, pat: string, i: int)
    requires OccursAt(s, pat, i)
    requires forall j :: 0 <= j < i ==> !OccursAt(s, pat, j)
    ensures IndexOf(s, pat) == i
  {
  }

  /** Replacing the first occurrence inside a prefix that already holds one leaves the rest alone. */
  lemma ReplaceFirstInPrefix(a: string, b: string, pat: string, rep: string)
    requires Contains(a, pat)
    ensures ReplaceFirst(a + b, pat, rep) == ReplaceFirst(a, pat, rep) + b
  {
    var i := IndexOf(a, pat);
    IndexOfInPrefix(a, b, pat);
    ReplaceFirstAt(a + b, pat, rep, i);
    ReplaceFirstAt(a, pat, rep, i);
    SpliceInPrefix(a, b, i, |pat|, rep);
  }

  /** The first occurrence inside `a` is the first one in `a + b`. */
  lemma IndexOfInPrefix(a: string, b: string, pat: string)
    requires Contains(a, pat)
    ensures IndexOf(a + b, pat) == IndexOf(a, pat)
  {
    var i := IndexOf(a, pat);
    PrefixOccurrences(a, b, pat, i);
    IndexOfIs(a + b, pat, i);
  }

  /** `ReplaceFirst` where the first occurrence is known. */
  lemma ReplaceFirstAt(s: string, pat: string, rep: string, i: int)
    requires i == IndexOf(s, pat) && 0 <= i
    ensures 0 <= i && i + |pat| <= |s|
    ensures ReplaceFirst(s, pat, rep) == s[..i] + rep + s[i + |pat|..]
  {
  }

  /** Splicing `rep` over `a[i..i + m]` inside `a + b` splices it in `a` and keeps `b`. */
  lemma SpliceInPrefix(a: string, b: string, i: int, m: int, rep: string)
    requires 0 <= i && 0 <= m && i + m <= |a|
    ensures (a + b)[..i] + rep + (a + b)[i + m..] == a[..i] + rep + a[i + m..] + b
  {
    assert (a + b)[..i] == a[..i];
    assert (a + b)[i + m..] == a[i + m..] + b;
  }

  /** Up to and including the first occurrence in `a`, `a + b` has the same occurrences as `a`. */
  lemma PrefixOccurrences(a: string, b: string, pat: string, i: int)
    requires i == IndexOf(a, pat) && 0 <= i
    ensures OccursAt(a + b, pat, i)
    ensures forall j :: 0 <= j < i ==> !OccursAt(a + b, pat, j)
  {
    var s := a + b;
    assert s[i..i + |pat|] == a[i..i + |pat|];
    forall j | 0 <= j < i
      ensures !OccursAt(s, pat, j)
    {
      assert !OccursAt(a, pat, j) && j + |pat| <= |a|;
      assert s[j..j + |pat|] == a[j..j + |pat|];
    }
  }

  /** When `pat` first occurs at the very start, the replacement goes there. */
  lemma ReplaceFirstAtStart(s: string, pat: string, rep: string)
    requires StartsWith(s, pat)
    ensures ReplaceFirst(s, pat, rep) == rep + s[|pat|..]
  {
    assert OccursAt(s, pat, 0);
    IndexOfIs(s, pat, 0);
    ReplaceFirstAt(s, pat, rep, 0);
    assert s[..0] + rep == rep;
  }

  /** An occurrence in `b` is an occurrence in `a + b`, shifted by `|a|`. */
  lemma OccursShift(a: string, b: string, pat: string, k: int)
    requires 0 <= k
    ensures OccursAt(a + b, pat, |a| + k) <==> OccursAt(b, pat, k)
  {
    if |a| + k + |pat| <= |a + b| {
      assert (a + b)[|a| + k..|a| + k + |pat|] == b[k..k + |pat|];
    }
  }

  /** With no occurrence starting inside `a`, the first occurrence in `a + b` is the first one in `b`, shifted. */
  lemma IndexOfAfter(a: string, b: string, pat: string)
    requires forall i :: 0 <= i < |a| ==> !OccursAt(a + b, pat, i)
    ensures IndexOf(a + b, pat) == if IndexOf(b, pat) == -1 then -1 else |a| + IndexOf(b, pat)
  {
    var j := IndexOf(a + b, pat);
    var k := IndexOf(b, pat);
    if j == -1 {
      if k != -1 {
        OccursShift(a, b, pat, k);
      }
    } else {
      OccursShift(a, b, pat, j - |a|);
      if k < j - |a| {
        OccursShift(a, b, pat, k);
      }
    }
  }

  /** When `pat` occurs only in `b` and nowhere that straddles `a` and `b`, the replacement happens in `b`. */
  lemma ReplaceFirstAfter(a: string, b: string, pat: string, rep: string)
    requires forall i :: 0 <= i < |a| ==> !OccursAt(a + b, pat, i)
    ensures ReplaceFirst(a + b, pat, rep) == a + ReplaceFirst(b, pat, rep)
  {
    IndexOfAfter(a, b, pat);
    ReplaceFirstShifted(a, b, pat, rep);
  }

  /** The replacement in `a + b` when its first occurrence is the first one of `b`, shifted. */
  lemma ReplaceFirstShifted(a: string, b: string, pat: string, rep: string)
    requires IndexOf(a + b, pat) == if IndexOf(b, pat) == -1 then -1 else |a| + IndexOf(b, pat)
    ensures ReplaceFirst(a + b, pat, rep) == a + ReplaceFirst(b, pat, rep)
  {
    var k := IndexOf(b, pat);
    if k != -1 {
      ReplaceFirstShiftedAt(a, b, pat, rep, k);
    }
  }

  lemma ReplaceFirstShiftedAt(a: string, b: string, pat: string, rep: string, k: int)
    requires k == IndexOf(b, pat) && 0 <= k && IndexOf(a + b, pat) == |a| + k
    ensures ReplaceFirst(a + b, pat, rep) == a + ReplaceFirst(b, pat, rep)
  {
    ReplaceFirstAt(b, pat, rep, k);
    var s, j := a + b, |a| + k;
    calc {
      ReplaceFirst(s, pat, rep);
      s[..j] + rep + s[j + |pat|..];
      { SpliceInSuffix(a, b, k, |pat|, rep); }
      a + (b[..k] + rep + b[k + |pat|..]);
      a + ReplaceFirst(b, pat, rep);
    }
  }

  /** Splicing `rep` over `b[k..k + m]` inside `a + b` keeps `a` and splices it in `b`. */
  lemma SpliceInSuffix(a: string, b: string, k: int, m: int, rep: string)
    requires 0 <= k && 0 <= m && k + m <= |b|
    ensures (a + b)[..|a| + k] + rep + (a + b)[|a| + k + m..] == a + (b[..k] + rep + b[k + m..])
  {
    assert (a + b)[..|a| + k] == a + b[..k];
    assert (a + b)[|a| + k + m..] == b[k + m..];
  }

  /** A pattern that starts with a character absent from `s` does not occur in it. */
  lemma AbsentByFirstChar(s: string, pat: string)
    requires |pat| > 0 && pat[0] !in s
    ensures !Contains(s, pat)
  {
    forall i | 0 <= i <= |s|
      ensures !OccursAt(s, pat, i)
    {
      if i + |pat| <= |s| {
        assert s[i..i + |pat|][0] == s[i];
      }
    }
  }

  /** A pattern whose first character is absent from `a` cannot start inside `a`. */
  lemma NoOccurrenceIn(a: string, b: string, pat: string)
    requires |pat| > 0 && pat[0] !in a
    ensures forall i :: 0 <= i < |a| ==> !OccursAt(a + b, pat, i)
  {
    forall i | 0 <= i < |a|
      ensures !OccursAt(a + b, pat, i)
    {
      if i + |pat| <= |a + b| {
        assert (a + b)[i..i + |pat|][0] == a[i];
        assert a[i] in a;
      }
    }
  }

  /**
   * Replacing a pattern that cannot reach into `e` (its first character is
   * not in `e`, and `e`'s first character is not in it) only touches `p`.
   */
  lemma ReplaceFirstBeforeSuffix(p: string, e: string, pat: string, rep: string)
    requires |pat| > 0 && |e| > 0
    requires pat[0] !in e && e[0] !in pat
    ensures ReplaceFirst(p + e, pat, rep) == ReplaceFirst(p, pat, rep) + e
  {
    if Contains(p, pat) {
      ReplaceFirstInPrefix(p, e, pat, rep);
    } else {
      forall i | 0 <= i <= |p + e|
        ensures !OccursAt(p + e, pat, i)
      {
        var s := p + e;
        if i + |pat| <= |s| {
          if i + |pat| <= |p| {
            assert s[i..i + |pat|] == p[i..i + |pat|];
            assert !OccursAt(p, pat, i);
          } else if i < |p| {
            assert s[i..i + |pat|][|p| - i] == e[0];
            assert pat[|p| - i] in pat;
          } else {
            assert s[i..i + |pat|][0] == e[i - |p|];
            assert e[i - |p|] in e;
          }
        }
      }
    }
  }

  /** A string that starts with the pattern has it replaced there. */
  lemma ReplaceFirstLeading(pat: string, rest: string, rep: string)
    ensures ReplaceFirst(pat + rest, pat, rep) == rep + rest
  {
    ReplaceFirstAtStart(pat + rest, pat, rep);
    assert (pat + rest)[|pat|..] == rest;
  }

  /** A prefix without the pattern's first character is skipped over. */
  lemma ReplaceFirstSkip(a: string, pat: string, rest: string, rep: string)
    requires |pat| > 0 && pat[0] !in a
    ensures ReplaceFirst(a + (pat + rest), pat, rep) == a + (rep + rest)
  {
    NoOccurrenceIn(a, pat + rest, pat);
    ReplaceFirstAfter(a, pat + rest, pat, rep);
    ReplaceFirstLeading(pat, rest, rep);
  }

  /** A pattern that ends the string, after a prefix without its first character, is the one replaced. */
  lemma ReplaceFirstLast(a: string, pat: string, rep: string)
    requires |pat| > 0 && pat[0] !in a
    ensures ReplaceFirst(a + pat, pat, rep) == a + rep
  {
    ReplaceFirstSkip(a, pat, "", rep);
    assert a + (pat + "") == a + pat;
    assert a + (rep + "") == a + rep;
  }

  /** Removing a pattern that ends the string, after a prefix without its first character, leaves the prefix. */
  lemma RemoveFirstLast(s: string, a: string, pat: string)
    requires s == a + pat && |pat| > 0 && pat[0] !in a
    ensures ReplaceFirst(s, pat, "") == a
  {
    ReplaceFirstLast(a, pat, "");
    assert a + "" == a;
  }

  /** The same, with the text after the pattern kept. */
  lemma ReplaceFirstMiddle(a: string, pat: string, rest: string, rep: string)
    requires |pat| > 0 && pat[0] !in a
    ensures ReplaceFirst(a + pat + rest, pat, rep) == a + rep + rest
  {
    ReplaceFirstSkip(a, pat, rest, rep);
    assert a + (pat + rest) == a + pat + rest;
    assert a + (rep + rest) == a + rep + rest;
  }

  /** `[a, b, c].join(sep)`. */
  function Join(parts: seq<string>, sep: char): string
  {
    if |parts| == 0 then ""
    else if |parts| == 1 then parts[0]
    else parts[0] + [sep] + Join(parts[1..], sep)
  }

  /** Index of the first `c` in `s`, or -1. */
  function IndexOfChar(s: string, c: char): (r: int)
    ensures r == -1 <==> c !in s
    ensures r != -1 ==> 0 <= r < |s| && s[r] == c && c !in s[..r]
  {
    if |s| == 0 then -1
    else if s[0] == c then 0
    else
      var r := IndexOfChar(s[1..], c);
      if r == -1 then -1 else r + 1
  }

  /** Index of the last `c` in `s`, or -1 (`String.prototype.lastIndexOf`). */
  function LastIndexOfChar(s: string, c: char): (r: int)
    ensures r == -1 <==> c !in s
    ensures r != -1 ==> 0 <= r < |s| && s[r] == c && c !in s[r + 1..]
  {
    if |s| == 0 then -1
    else if s[|s| - 1] == c then |s| - 1
    else LastIndexOfChar(s[..|s| - 1], c)
  }

  /** `s.split(sep)` for a one-character separator. */
  function Split(s: string, sep: char): (parts: seq<string>)
    decreases |s|
    ensures |parts| >= 1
  {
    var i := IndexOfChar(s, sep);
    if i == -1 then [s] else [s[..i]] + Split(s[i + 1..], sep)
  }

  /** The first part of `a + b` is `a` when `b` starts with the separator and `a` holds none. */
  lemma SplitFirst(a: string, b: string, sep: char)
    requires sep !in a && |b| > 0 && b[0] == sep
    ensures Split(a + b, sep)[0] == a
  {
    var s := a + b;
    assert s[|a|] == sep;
    assert s[..|a|] == a;
    assert IndexOfChar(s, sep) == |a|;
  }

  /** The number of occurrences of `c` in `s`. */
  function CountChar(s: string, c: char): (n: nat)
    ensures n <= |s|
    ensures n == 0 <==> c !in s
  {
    if |s| == 0 then 0 else (if s[0] == c then 1 else 0) + CountChar(s[1..], c)
  }

  /** Counting over a concatenation adds up. */
  lemma {:induction false} CountCharAppend(a: string, b: string, c: char)
    decreases |a|
    ensures CountChar(a + b, c) == CountChar(a, c) + CountChar(b, c)
  {
    if |a| > 0 {
      assert (a + b)[1..] == a[1..] + b;
      CountCharAppend(a[1..], b, c);
    } else {
      assert a + b == b;
    }
  }

  /** The part after the first separator is the first part of the rest. */
  lemma SplitSecond(a: string, b: string, rest: string, sep: char)
    requires sep !in a && sep !in b && |rest| > 0 && rest[0] == sep
    ensures |Split(a + ([sep] + (b + rest)), sep)| >= 2
    ensures Split(a + ([sep] + (b + rest)), sep)[1] == b
  {
    var tail := [sep] + (b + rest);
    assert tail[1..] == b + rest;
    SplitFirstRest(a, tail, sep);
    SplitFirst(b, rest, sep);
  }

  /** When `b` starts with the separator and `a` holds none, the parts of `a + b` are `a` and the parts after it. */
  lemma SplitFirstRest(a: string, b: string, sep: char)
    requires sep !in a && |b| > 0 && b[0] == sep
    ensures Split(a + b, sep) == [a] + Split(b[1..], sep)
  {
    var s := a + b;
    assert s[..|a|] == a;
    IndexOfCharAt(s, sep, |a|);
    assert s[|a| + 1..] == b[1..];
  }

  /** The first `c` is at `i` when `s[i]` is one and none comes before it. */
  lemma IndexOfCharAt(s: string, c: char, i: int)
    requires 0 <= i < |s| && s[i] == c && c !in s[..i]
    ensures IndexOfChar(s, c) == i
  {
  }

  /** Splitting and joining again gives back the string. */
  lemma {:induction false} SplitJoin(s: string, sep: char)
    decreases |s|
    ensures Join(Split(s, sep), sep) == s
  {
    var i := IndexOfChar(s, sep);
    if i != -1 {
      SplitJoin(s[i + 1..], sep);
      assert s == s[..i] + ([sep] + s[i + 1..]);
      SplitJoinStep(s[..i], s[i + 1..], sep);
      SplitJoinOfEqual(s, s[..i] + ([sep] + s[i + 1..]), sep);
    }
  }

  lemma SplitJoinOfEqual(s: string, t: string, sep: char)
    requires s == t && Join(Split(t, sep), sep) == t
    ensures Join(Split(s, sep), sep) == s
  {
  }

  /** One step of `SplitJoin`: a separator-free text, the separator, and a text that splits and rejoins. */
  lemma SplitJoinStep(a: string, b: string, sep: char)
    requires sep !in a
    requires Join(Split(b, sep), sep) == b
    ensures Join(Split(a + ([sep] + b), sep), sep) == a + ([sep] + b)
  {
    SplitAfterFirst(a, b, sep);
    JoinConsAssoc(a, Split(b, sep), b, sep);
    JoinOfEqual(Split(a + ([sep] + b), sep), [a] + Split(b, sep), a + ([sep] + b), sep);
  }

  lemma SplitAfterFirst(a: string, b: string, sep: char)
    requires sep !in a
    ensures Split(a + ([sep] + b), sep) == [a] + Split(b, sep)
  {
    SplitFirstRest(a, [sep] + b, sep);
    assert ([sep] + b)[1..] == b;
  }

  lemma JoinConsAssoc(a: string, parts: seq<string>, b: string, sep: char)
    requires |parts| >= 1 && Join(parts, sep) == b
    ensures Join([a] + parts, sep) == a + ([sep] + b)
  {
    JoinCons(a, parts, sep);
    assert a + [sep] + b == a + ([sep] + b);
  }

  lemma JoinOfEqual(p: seq<string>, q: seq<string>, s: string, sep: char)
    requires p == q && Join(q, sep) == s
    ensures Join(p, sep) == s
  {
  }

  /** Joining a part in front of at least one more puts one separator between. */
  lemma JoinCons(a: string, parts: seq<string>, sep: char)
    requires |parts| >= 1
    ensures Join([a] + parts, sep) == a + [sep] + Join(parts, sep)
  {
    assert ([a] + parts)[1..] == parts;
  }

  /** Splitting a joined list of separator-free parts gives the parts back. */
  lemma {:induction false} JoinSplit(parts: seq<string>, sep: char)
    requires |parts| >= 1
    requires forall k :: 0 <= k < |parts| ==> sep !in parts[k]
    ensures Split(Join(parts, sep), sep) == parts
  {
    if |parts| > 1 {
      JoinSplit(parts[1..], sep);
      JoinSplitStep(parts[0], parts[1..], sep);
      assert parts == [parts[0]] + parts[1..];
    }
  }

  /** One step of `JoinSplit`: a separator-free part in front of parts that split back. */
  lemma JoinSplitStep(a: string, parts: seq<string>, sep: char)
    requires sep !in a && |parts| >= 1
    requires Split(Join(parts, sep), sep) == parts
    ensures Split(Join([a] + parts, sep), sep) == [a] + parts
  {
    var rest := Join(parts, sep);
    JoinConsAssoc(a, parts, rest, sep);
    SplitAfterFirst(a, rest, sep);
    SplitOfEqual(Join([a] + parts, sep), a + ([sep] + rest), [a] + parts, sep);
  }

  lemma SplitOfEqual(s: string, t: string, parts: seq<string>, sep: char)
    requires s == t && Split(t, sep) == parts
    ensures Split(s, sep) == parts
  {
  }

  /**
   * `s.replace(/[cs]+$/, '')`: removes the longest suffix made only of
   * characters from `drop`.
   */
  function TrimTrailing(s: string, drop: set<char>): (r: string)
    ensures |r| <= |s| && r == s[..|r|]
    ensures |r| == 0 || r[|r| - 1] !in drop
    ensures forall i :: |r| <= i < |s| ==> s[i] in drop
  {
    if |s| > 0 && s[|s| - 1] in drop then TrimTrailing(s[..|s| - 1], drop) else s
  }

  /** `s.replace(/[cs]/g, '')`: every character from `drop` removed. */
  function Without(s: string, drop: set<char>): string
  {
    if |s| == 0 then ""
    else (if s[0] in drop then "" else [s[0]]) + Without(s[1..], drop)
  }

  /** Nothing to drop leaves the string as it is. */
  lemma {:induction false} WithoutNothing(s: string, drop: set<char>)
    requires forall i :: 0 <= i < |s| ==> s[i] !in drop
    ensures Without(s, drop) == s
  {
    if |s| > 0 {
      WithoutNothing(s[1..], drop);
      assert s == [s[0]] + s[1..];
    }
  }

  /** What remains holds no dropped character. */
  lemma {:induction false} WithoutDrops(s: string, drop: set<char>)
    ensures forall i :: 0 <= i < |Without(s, drop)| ==> Without(s, drop)[i] !in drop
  {
    if |s| > 0 {
      WithoutDrops(s[1..], drop);
    }
  }
}
