/**
 The Python string operations the converter relies on, over `seq<char>`:
 `pat in s`, `s.find(pat)`, `s.count(pat)`, `s.replace(pat, rep)`,
 `s.split(sep)` and `sep.join(parts)`. As in CPython, matching is plain,
 case-sensitive and scans left to right taking non-overlapping occurrences.
 Patterns and separators are non-empty (the program only ever uses `"<head>"`
 and `"."`).
 */
module Strings {
  import opened Optional

  /** `pat` occurs in `s` at index `i`. */
  predicate MatchAt(s: string, pat: string, i: int) {
    0 <= i && i + |pat| <= |s| && forall t :: 0 <= t < |pat| ==> s[i + t] == pat[t]
  }

  /** Python's `pat in s`. */
  predicate Contains(s: string, pat: string) {
    exists i | 0 <= i <= |s| - |pat| :: MatchAt(s, pat, i)
  }

  /** The leftmost occurrence of `pat` in `s` at or after index `k`. */
  function FindFrom(s: string, pat: string, k: nat): (r: Option<nat>)
    requires k <= |s|
    ensures r.Some? ==> k <= r.value && MatchAt(s, pat, r.value)
    ensures r.Some? ==> forall j :: k <= j < r.value ==> !MatchAt(s, pat, j)
    ensures r.None? ==> forall j :: k <= j ==> !MatchAt(s, pat, j)
    decreases |s| - k
  {
    if k + |pat| > |s| then None
    else if MatchAt(s, pat, k) then Some(k)
    else FindFrom(s, pat, k + 1)
  }

  /** Python's `s.find(pat)`, with `None` for -1. */
  function Find(s: string, pat: string): (r: Option<nat>)
    ensures r.Some? <==> Contains(s, pat)
    ensures r.Some? ==> MatchAt(s, pat, r.value)
    ensures r.Some? ==> forall j :: 0 <= j < r.value ==> !MatchAt(s, pat, j)
  {
    FindFrom(s, pat, 0)
  }

  /** Python's `s.count(pat)`: the number of non-overlapping occurrences. */
  function Count(s: string, pat: string): (n: nat)
    requires |pat| > 0
    ensures n == 0 <==> !Contains(s, pat)
    decreases |s|
  {
    match Find(s, pat)
    case None => 0
    case Some(i) => 1 + Count(s[i + |pat|..], pat)
  }

  /** Python's `s.replace(pat, rep)`: every occurrence, left to right. */
  function ReplaceAll(s: string, pat: string, rep: string): (r: string)
    requires |pat| > 0
    ensures !Contains(s, pat) ==> r == s
    decreases |s|
  {
    match Find(s, pat)
    case None => s
    case Some(i) => s[..i] + rep + ReplaceAll(s[i + |pat|..], pat, rep)
  }

  /** Python's `s.split(sep)`. */
  function Split(s: string, sep: string): (parts: seq<string>)
    requires |sep| > 0
    ensures |parts| >= 1
    ensures forall k :: 0 <= k < |parts| ==> !Contains(parts[k], sep)
    ensures parts[0] <= s
    ensures |parts| == 1 <==> !Contains(s, sep)
    ensures |parts| == 1 ==> parts == [s]
    ensures |parts| > 1 ==> MatchAt(s, sep, |parts[0]|)
    decreases |s|
  {
    match Find(s, sep)
    case None => [s]
    case Some(i) =>
      CleanBeforeFirst(s, sep, i);
      [s[..i]] + Split(s[i + |sep|..], sep)
  }

  /** Python's `sep.join(parts)`. */
  function Join(parts: seq<string>, sep: string): string {
    if |parts| == 0 then ""
    else if |parts| == 1 then parts[0]
    else parts[0] + sep + Join(parts[1..], sep)
  }

  /** Two texts that agree on their first `n` characters have the same
      occurrences among those characters. */
  lemma MatchInCommonPrefix(x: string, y: string, pat: string, n: nat, j: nat)
    requires n <= |x| && n <= |y| && x[..n] == y[..n] && j + |pat| <= n
    ensures MatchAt(x, pat, j) <==> MatchAt(y, pat, j)
  {
    forall v | j <= v < j + |pat|
      ensures x[v] == y[v]
    {
      assert x[v] == x[..n][v];
      assert y[v] == y[..n][v];
    }
  }

  /** Occurrences in a suffix are occurrences in the whole, shifted. */
  lemma MatchInSuffix(s: string, pat: string, k: nat, j: nat)
    requires k <= |s|
    ensures MatchAt(s[k..], pat, j) <==> MatchAt(s, pat, k + j)
  {
    if j + |pat| <= |s| - k {
      forall v | k + j <= v < k + j + |pat|
        ensures s[k..][v - k] == s[v]
      {
      }
    }
  }

  /** `x` occurs in `a + x + b` right after `a`. */
  lemma MatchOfInfix(a: string, x: string, b: string)
    ensures MatchAt(a + x + b, x, |a|)
  {
    forall u | 0 <= u < |x|
      ensures (a + x + b)[|a| + u] == x[u]
    {
    }
  }

  /** A match of `pat + b` is in particular a match of `pat`. */
  lemma MatchOfExtension(s: string, pat: string, b: string, j: int)
    ensures MatchAt(s, pat + b, j) ==> MatchAt(s, pat, j)
  {
    if MatchAt(s, pat + b, j) {
      forall u | 0 <= u < |pat|
        ensures s[j + u] == pat[u]
      {
        assert (pat + b)[u] == pat[u];
      }
    }
  }

  /** The text before the first occurrence holds no occurrence at all. */
  lemma CleanBeforeFirst(s: string, pat: string, i: nat)
    requires |pat| > 0 && i <= |s|
    requires forall j :: 0 <= j < i ==> !MatchAt(s, pat, j)
    ensures !Contains(s[..i], pat)
  {
    forall j | 0 <= j <= i - |pat|
      ensures !MatchAt(s[..i], pat, j)
    {
      MatchInCommonPrefix(s[..i], s, pat, i, j);
    }
  }

  /** An occurrence of `pat` at `i` that no earlier one precedes is what `Find` returns. */
  lemma FindIsFirst(s: string, pat: string, i: nat)
    requires MatchAt(s, pat, i)
    requires forall j :: 0 <= j < i ==> !MatchAt(s, pat, j)
    ensures Find(s, pat).Some? && Find(s, pat).value == i
  {
    assert Contains(s, pat);
  }

  /** One step of `Count`. */
  lemma CountStep(s: string, pat: string)
    requires |pat| > 0 && Find(s, pat).Some?
    ensures Count(s, pat) == 1 + Count(s[Find(s, pat).value + |pat|..], pat)
  {
  }

  /** One step of `ReplaceAll`. */
  lemma ReplaceStep(s: string, pat: string, rep: string)
    requires |pat| > 0 && Find(s, pat).Some?
    ensures ReplaceAll(s, pat, rep)
         == s[..Find(s, pat).value] + rep + ReplaceAll(s[Find(s, pat).value + |pat|..], pat, rep)
  {
  }

  /** One step of `Split`. */
  lemma SplitStep(s: string, sep: string)
    requires |sep| > 0 && Find(s, sep).Some?
    ensures Split(s, sep) == [s[..Find(s, sep).value]] + Split(s[Find(s, sep).value + |sep|..], sep)
  {
  }

  /** Past a stretch in which no occurrence starts, `Find` sees the same first
      occurrence, shifted. */
  lemma FindAfterSkip(s: string, pat: string, k: nat)
    requires k <= |s|
    requires forall j :: 0 <= j < k ==> !MatchAt(s, pat, j)
    ensures Find(s, pat).Some? <==> Find(s[k..], pat).Some?
    ensures Find(s, pat).Some? ==> Find(s, pat).value == k + Find(s[k..], pat).value
  {
    if Find(s, pat).None? {
      forall j | 0 <= j <= |s| - k - |pat|
        ensures !MatchAt(s[k..], pat, j)
      {
        MatchInSuffix(s, pat, k, j);
      }
    } else {
      var i := Find(s, pat).value;
      forall j | 0 <= j < i - k
        ensures !MatchAt(s[k..], pat, j)
      {
        MatchInSuffix(s, pat, k, j);
      }
      MatchInSuffix(s, pat, k, i - k);
      FindIsFirst(s[k..], pat, i - k);
    }
  }

  /** Counting may skip a stretch in which no occurrence starts. */
  lemma CountSkip(s: string, pat: string, k: nat)
    requires |pat| > 0 && k <= |s|
    requires forall j :: 0 <= j < k ==> !MatchAt(s, pat, j)
    ensures Count(s, pat) == Count(s[k..], pat)
  {
    FindAfterSkip(s, pat, k);
    if Find(s, pat).Some? {
      var i := Find(s, pat).value;
      var i' := Find(s[k..], pat).value;
      CountStep(s, pat);
      CountStep(s[k..], pat);
      assert s[k..][i' + |pat|..] == s[i + |pat|..];
    }
  }

  /** An occurrence at the very start is counted and skipped. */
  lemma CountAtStart(s: string, pat: string)
    requires |pat| > 0 && MatchAt(s, pat, 0)
    ensures Count(s, pat) == 1 + Count(s[|pat|..], pat)
  {
    FindIsFirst(s, pat, 0);
    CountStep(s, pat);
  }

  /** An occurrence at the head of a text is counted and skipped. */
  lemma CountAtHead(pat: string, t: string)
    requires |pat| > 0
    ensures Count(pat + t, pat) == 1 + Count(t, pat)
  {
    forall v | 0 <= v < |pat|
      ensures (pat + t)[v] == pat[v]
    {
    }
    assert MatchAt(pat + t, pat, 0);
    CountAtStart(pat + t, pat);
    assert (pat + t)[|pat|..] == t;
  }

  /** `x` occurs in any text that has `x` as an infix. */
  lemma ContainsInfix(a: string, x: string, b: string)
    ensures Contains(a + x + b, x)
  {
    MatchOfInfix(a, x, b);
  }

  /** Every text contains itself. */
  lemma ContainsSelf(x: string)
    ensures Contains(x, x)
  {
    assert x[0..|x|] == x;
    assert MatchAt(x, x, 0);
  }

  /** Containment survives putting text in front. */
  lemma ContainsLeft(a: string, t: string, x: string)
    requires Contains(t, x)
    ensures Contains(a + t, x)
  {
    ContainsWidened(a, t, [], x);
    assert a + t + [] == a + t;
  }

  /** Containment survives appending text. */
  lemma ContainsRight(t: string, b: string, x: string)
    requires Contains(t, x)
    ensures Contains(t + b, x)
  {
    ContainsWidened([], t, b, x);
    assert [] + t + b == t + b;
  }

  /** Containment survives surrounding the text with more text. */
  lemma ContainsWidened(a: string, t: string, b: string, x: string)
    requires Contains(t, x)
    ensures Contains(a + t + b, x)
  {
    var i :| 0 <= i <= |t| - |x| && MatchAt(t, x, i);
    forall u | 0 <= u < |x|
      ensures (a + t + b)[|a| + i + u] == x[u]
    {
      assert (a + t + b)[|a| + i + u] == t[i + u];
    }
    assert MatchAt(a + t + b, x, |a| + i);
  }

  /**
   Inserting `b` after every occurrence of `pat` keeps the first occurrence where
   it was, leaves the text before it alone, and puts `b` right after it.
   */
  lemma ReplaceKeepsFirst(s: string, pat: string, b: string, i: nat)
    requires |pat| > 0 && Find(s, pat).Some? && Find(s, pat).value == i
    ensures forall j :: 0 <= j < i ==> !MatchAt(ReplaceAll(s, pat, pat + b), pat, j)
    ensures MatchAt(ReplaceAll(s, pat, pat + b), pat + b, i)
    ensures ReplaceAll(s, pat, pat + b)[..i] == s[..i]
  {
    var rest := ReplaceAll(s[i + |pat|..], pat, pat + b);
    var out := ReplaceAll(s, pat, pat + b);
    ReplaceStep(s, pat, pat + b);
    assert out == s[..i] + (pat + b) + rest;
    MatchOfInfix(s[..i], pat + b, rest);
    InsertKeepsPrefix(s, pat, b, rest, i);
    var n := i + |pat|;
    assert n <= |out| && n <= |s| && out[..n] == s[..n];
    forall j | 0 <= j < i
      ensures !MatchAt(out, pat, j)
    {
      MatchInCommonPrefix(out, s, pat, n, j);
    }
  }

  /** Inserting `b` after an occurrence of `pat` at `i` keeps the text up to
      the end of that occurrence. */
  lemma InsertKeepsPrefix(s: string, pat: string, b: string, rest: string, i: nat)
    requires MatchAt(s, pat, i)
    ensures (s[..i] + (pat + b) + rest)[..i] == s[..i]
    ensures (s[..i] + (pat + b) + rest)[..i + |pat|] == s[..i + |pat|]
  {
    var out := s[..i] + (pat + b) + rest;
    forall u | 0 <= u < i + |pat|
      ensures out[u] == s[u]
    {
      if u >= i {
        assert out[u] == (pat + b)[u - i] == pat[u - i];
      }
    }
  }

  /** An inserted `pat + b` with no occurrence before it counts once, and an
      inert `b` adds nothing. */
  lemma CountAroundInsert(x: string, pat: string, b: string, rest: string)
    requires |pat| > 0 && Inert(b, pat)
    requires forall j :: 0 <= j < |x| ==> !MatchAt(x + (pat + b) + rest, pat, j)
    ensures Count(x + (pat + b) + rest, pat) == 1 + Count(rest, pat)
  {
    var s := x + (pat + b) + rest;
    assert s == x + pat + (b + rest);
    CountAtInsert(x, pat, b + rest);
    CountAfterInert(b, rest, pat);
  }

  /** An inserted `q` with no occurrence of `q` before it counts once. */
  lemma CountAtInsert(x: string, q: string, rest: string)
    requires |q| > 0
    requires forall j :: 0 <= j < |x| ==> !MatchAt(x + q + rest, q, j)
    ensures Count(x + q + rest, q) == 1 + Count(rest, q)
  {
    CountSkip(x + q + rest, q, |x|);
    DropLeading(x, q, rest);
    CountAtHead(q, rest);
  }

  /** Inserting `b` after every occurrence of `pat` leaves the first occurrence
      where it was. */
  lemma ReplaceKeepsFind(s: string, pat: string, b: string)
    requires |pat| > 0
    ensures Find(ReplaceAll(s, pat, pat + b), pat) == Find(s, pat)
  {
    if Find(s, pat).Some? {
      var i := Find(s, pat).value;
      ReplaceKeepsFirst(s, pat, b, i);
      MatchOfExtension(ReplaceAll(s, pat, pat + b), pat, b, i);
      FindIsFirst(ReplaceAll(s, pat, pat + b), pat, i);
    }
  }

  /** Inserting `b` after every occurrence of `pat` produces exactly as many
      `pat + b` as there were `pat`. */
  lemma {:induction false} ReplaceCountsInsertions(s: string, pat: string, b: string)
    requires |pat| > 0
    ensures Count(ReplaceAll(s, pat, pat + b), pat + b) == Count(s, pat)
    decreases |s|
  {
    if Find(s, pat).Some? {
      var i := Find(s, pat).value;
      var rest := ReplaceAll(s[i + |pat|..], pat, pat + b);
      ExtendedFirst(s, pat, b);
      CountAtInsert(s[..i], pat + b, rest);
      ReplaceCountsInsertions(s[i + |pat|..], pat, b);
      CountStep(s, pat);
    } else {
      ExtensionAbsent(s, pat, b);
    }
  }

  /** Text without `pat` has no `pat + b` either. */
  lemma ExtensionAbsent(s: string, pat: string, b: string)
    ensures !Contains(s, pat) ==> !Contains(s, pat + b)
  {
    forall j | 0 <= j <= |s| - |pat + b|
      ensures !Contains(s, pat) ==> !MatchAt(s, pat + b, j)
    {
      MatchOfExtension(s, pat, b, j);
    }
  }

  /**
   After inserting `b` after every `pat`, the first `pat + b` stands where the
   first `pat` stood, with the untouched text before it.
   */
  lemma ExtendedFirst(s: string, pat: string, b: string)
    requires |pat| > 0 && Find(s, pat).Some?
    ensures var i := Find(s, pat).value;
      var rest := ReplaceAll(s[i + |pat|..], pat, pat + b);
      && ReplaceAll(s, pat, pat + b) == s[..i] + (pat + b) + rest
      && forall j :: 0 <= j < i ==> !MatchAt(s[..i] + (pat + b) + rest, pat + b, j)
  {
    var i := Find(s, pat).value;
    var out := ReplaceAll(s, pat, pat + b);
    ReplaceStep(s, pat, pat + b);
    ReplaceKeepsFirst(s, pat, b, i);
    forall j | 0 <= j < i
      ensures !MatchAt(out, pat + b, j)
    {
      MatchOfExtension(out, pat, b, j);
    }
  }

  /**
   A pattern whose first character does not recur in it cannot overlap
   itself: in a text free of `pat` followed by `pat`, the first occurrence is
   the appended one.
   */
  lemma CleanBeforeInfix(a: string, pat: string, t: string)
    requires |pat| > 0 && !Contains(a, pat) && pat[0] !in pat[1..]
    ensures forall j :: 0 <= j < |a| ==> !MatchAt(a + pat + t, pat, j)
  {
    var s := a + pat + t;
    forall j | 0 <= j < |a|
      ensures !MatchAt(s, pat, j)
    {
      if j + |pat| <= |a| {
        MatchInCommonPrefix(s, a, pat, |a|, j);
        assert !MatchAt(a, pat, j);
      } else {
        var k := |a| - j;
        assert s[j + k] == pat[0];
        assert pat[1..][k - 1] == pat[k];
      }
    }
  }

  /** A text free of `pat`, followed by a character that `pat` never uses,
      holds no occurrence that starts inside that text. */
  lemma CleanUpToBreak(c: string, t: string, pat: string)
    requires !Contains(c, pat) && |t| > 0 && t[0] !in pat
    ensures forall j :: 0 <= j < |c| ==> !MatchAt(c + t, pat, j)
  {
    forall j | 0 <= j < |c|
      ensures !MatchAt(c + t, pat, j)
    {
      if j + |pat| <= |c| {
        MatchInCommonPrefix(c + t, c, pat, |c|, j);
        assert !MatchAt(c, pat, j);
      } else {
        assert (c + t)[|c|] == t[0];
        assert |c| - j < |pat| ==> pat[|c| - j] in pat;
      }
    }
  }

  /** Counting a text free of `pat` up to a character that `pat` never uses. */
  lemma CountAfterClean(c: string, t: string, pat: string)
    requires |pat| > 0 && !Contains(c, pat) && |t| > 0 && t[0] !in pat
    ensures Count(c + t, pat) == Count(t, pat)
  {
    CleanUpToBreak(c, t, pat);
    CountSkip(c + t, pat, |c|);
    assert (c + t)[|c|..] == t;
  }

  /** Replacing in a text whose first occurrence sits right after `a`. */
  lemma ReplaceAtFirst(a: string, pat: string, t: string, rep: string)
    requires |pat| > 0
    requires forall j :: 0 <= j < |a| ==> !MatchAt(a + pat + t, pat, j)
    ensures ReplaceAll(a + pat + t, pat, rep) == a + rep + ReplaceAll(t, pat, rep)
  {
    var s := a + pat + t;
    MatchOfInfix(a, pat, t);
    FindIsFirst(s, pat, |a|);
    ReplaceStep(s, pat, rep);
    assert s[..|a|] == a;
    assert s[|a| + |pat|..] == t;
  }

  /** An inert text holds no occurrence at all. */
  lemma InertCountsNothing(b: string, pat: string)
    requires |pat| > 0 && Inert(b, pat)
    ensures Count(b, pat) == 0
  {
    CountAfterInert(b, [], pat);
    assert b + [] == b;
    assert Find([], pat).None?;
  }

  /**
   When the inserted text `b` cannot start an occurrence of `pat`, inserting it
   after every occurrence leaves the number of occurrences unchanged.
   */
  lemma {:induction false} ReplaceKeepsCount(s: string, pat: string, b: string)
    requires |pat| > 0 && Inert(b, pat)
    ensures Count(ReplaceAll(s, pat, pat + b), pat) == Count(s, pat)
    decreases |s|
  {
    if Find(s, pat).Some? {
      var i := Find(s, pat).value;
      var rest := ReplaceAll(s[i + |pat|..], pat, pat + b);
      var out := ReplaceAll(s, pat, pat + b);
      ReplaceStep(s, pat, pat + b);
      assert out == s[..i] + (pat + b) + rest;
      ReplaceKeepsFirst(s, pat, b, i);
      CountAroundInsert(s[..i], pat, b, rest);
      ReplaceKeepsCount(s[i + |pat|..], pat, b);
      CountStep(s, pat);
      assert Count(out, pat) == 1 + Count(rest, pat);
      assert Count(s, pat) == 1 + Count(s[i + |pat|..], pat);
    } else {
      assert ReplaceAll(s, pat, pat + b) == s;
    }
  }

  /**
   Inserting `b` after every occurrence of `pat` is undone by replacing every
   `pat + b` with `pat`: the original text is recovered exactly.
   */
  lemma {:induction false} ReplaceUndone(s: string, pat: string, b: string)
    requires |pat| > 0
    ensures ReplaceAll(ReplaceAll(s, pat, pat + b), pat + b, pat) == s
    decreases |s|
  {
    if Find(s, pat).None? {
      ExtensionAbsent(s, pat, b);
    } else {
      var i := Find(s, pat).value;
      var rest := ReplaceAll(s[i + |pat|..], pat, pat + b);
      ExtendedFirst(s, pat, b);
      ReplaceAtFirst(s[..i], pat + b, rest, pat);
      ReplaceUndone(s[i + |pat|..], pat, b);
      AroundMatch(s, pat, i);
    }
  }

  /** Dropping the leading part of a three-part text. */
  lemma DropLeading(x: string, y: string, z: string)
    ensures (x + y + z)[|x|..] == y + z
  {
  }

  /** A text reassembled around one of its matches. */
  lemma AroundMatch(s: string, pat: string, i: nat)
    requires MatchAt(s, pat, i)
    ensures s == s[..i] + pat + s[i + |pat|..]
  {
    assert s[i..i + |pat|] == pat;
    assert s == s[..i] + s[i..i + |pat|] + s[i + |pat|..];
  }

  /** Splitting and joining back with the same separator restores the text. */
  lemma {:induction false} SplitJoinRoundTrip(s: string, sep: string)
    requires |sep| > 0
    ensures Join(Split(s, sep), sep) == s
    decreases |s|
  {
    if Find(s, sep).Some? {
      var i := Find(s, sep).value;
      var tail := Split(s[i + |sep|..], sep);
      SplitStep(s, sep);
      assert Split(s, sep) == [s[..i]] + tail;
      assert ([s[..i]] + tail)[1..] == tail;
      SplitJoinRoundTrip(s[i + |sep|..], sep);
      assert Join(Split(s, sep), sep) == s[..i] + sep + s[i + |sep|..];
      AroundMatch(s, sep, i);
    } else {
      assert Split(s, sep) == [s];
    }
  }

  /** `s.replace(pat, rep)` is `rep.join(s.split(pat))`. */
  lemma {:induction false} ReplaceIsJoinOfSplit(s: string, pat: string, rep: string)
    requires |pat| > 0
    ensures ReplaceAll(s, pat, rep) == Join(Split(s, pat), rep)
    decreases |s|
  {
    if Find(s, pat).Some? {
      var i := Find(s, pat).value;
      var tail := Split(s[i + |pat|..], pat);
      SplitStep(s, pat);
      assert Split(s, pat) == [s[..i]] + tail;
      assert ([s[..i]] + tail)[1..] == tail;
      ReplaceStep(s, pat, rep);
      ReplaceIsJoinOfSplit(s[i + |pat|..], pat, rep);
      assert ReplaceAll(s, pat, rep) == s[..i] + rep + Join(tail, rep);
    } else {
      assert Split(s, pat) == [s];
      assert ReplaceAll(s, pat, rep) == s;
    }
  }

  /** Splitting yields one more piece than there are separators. */
  lemma {:induction false} SplitCountsSeparators(s: string, sep: string)
    requires |sep| > 0
    ensures |Split(s, sep)| == Count(s, sep) + 1
    decreases |s|
  {
    if Find(s, sep).Some? {
      var i := Find(s, sep).value;
      SplitStep(s, sep);
      CountStep(s, sep);
      SplitCountsSeparators(s[i + |sep|..], sep);
      assert |Split(s, sep)| == 1 + |Split(s[i + |sep|..], sep)|;
      assert Count(s, sep) == 1 + Count(s[i + |sep|..], sep);
    } else {
      assert Count(s, sep) == 0;
      assert Split(s, sep) == [s];
    }
  }

  /** As far as `b` reaches, `pat` could begin at index `j` of `b`. */
  predicate Compatible(b: string, pat: string, j: int) {
    0 <= j && forall u :: 0 <= u < |pat| && j + u < |b| ==> b[j + u] == pat[u]
  }

  /** No occurrence of `pat` can start inside `b`, whatever text follows it. */
  predicate Inert(b: string, pat: string) {
    forall j :: 0 <= j < |b| ==> !Compatible(b, pat, j)
  }

  /** Whatever follows an inert text, no occurrence starts inside it. */
  lemma InertBlocksMatch(b: string, t: string, pat: string)
    requires Inert(b, pat)
    ensures forall j :: 0 <= j < |b| ==> !MatchAt(b + t, pat, j)
  {
    forall j | 0 <= j < |b| && MatchAt(b + t, pat, j)
      ensures Compatible(b, pat, j)
    {
      forall u | 0 <= u < |pat| && j + u < |b|
        ensures b[j + u] == pat[u]
      {
        assert (b + t)[j + u] == b[j + u];
      }
    }
  }

  /** Counting past an inert text. */
  lemma CountAfterInert(b: string, t: string, pat: string)
    requires |pat| > 0 && Inert(b, pat)
    ensures Count(b + t, pat) == Count(t, pat)
  {
    InertBlocksMatch(b, t, pat);
    CountSkip(b + t, pat, |b|);
    assert (b + t)[|b|..] == t;
  }

  /** Inert texts stay inert when put side by side. */
  lemma InertConcat(a: string, b: string, pat: string)
    requires Inert(a, pat) && Inert(b, pat)
    ensures Inert(a + b, pat)
  {
    forall j | 0 <= j < |a + b| && Compatible(a + b, pat, j)
      ensures false
    {
      if j < |a| {
        forall u | 0 <= u < |pat| && j + u < |a|
          ensures a[j + u] == pat[u]
        {
          assert (a + b)[j + u] == a[j + u];
        }
        assert Compatible(a, pat, j);
      } else {
        forall u | 0 <= u < |pat| && j - |a| + u < |b|
          ensures b[j - |a| + u] == pat[u]
        {
          assert (a + b)[j + u] == b[j - |a| + u];
        }
        assert Compatible(b, pat, j - |a|);
      }
    }
  }

  /** A text without the first character of `pat` is inert. */
  lemma InertWithoutLead(b: string, pat: string)
    requires |pat| > 0 && pat[0] !in b
    ensures Inert(b, pat)
  {
    forall j | 0 <= j < |b|
      ensures !Compatible(b, pat, j)
    {
      assert b[j] in b;
    }
  }

  /**
   A tag `b` whose only copy of `pat`'s first character is its own first
   character, and which departs from `pat` at position `k`, is inert.
   */
  lemma InertTag(b: string, pat: string, k: nat)
    requires 0 < k < |b| && k < |pat|
    requires b[k] != pat[k] && pat[0] !in b[1..]
    ensures Inert(b, pat)
  {
    forall j | 0 < j < |b|
      ensures !Compatible(b, pat, j)
    {
      assert b[j] == b[1..][j - 1];
      assert b[1..][j - 1] in b[1..];
    }
  }
}
