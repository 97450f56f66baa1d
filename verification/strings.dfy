/**
  The Python string operations the mover relies on: `needle in haystack`
  (substring test), `str.endswith`-style suffix tests, and `str.replace`
  (replace every non-overlapping occurrence, scanning left to right).
 */
module Strings {

  /** `pre` is a prefix of `s`. */
  predicate IsPrefix(pre: string, s: string) {
    |pre| <= |s| && s[..|pre|] == pre
  }

  /** `s` ends with `suffix`. */
  predicate EndsWith(s: string, suffix: string) {
    |suffix| <= |s| && s[|s| - |suffix|..] == suffix
  }

  /** `pat` occurs in `s` starting at index `i`. */
  predicate OccursAt(s: string, pat: string, i: int) {
    0 <= i && i + |pat| <= |s| && s[i..i + |pat|] == pat
  }

  lemma OccursAtShift(s: string, pat: string, k: int)
    requires s != [] && 0 <= k
    ensures OccursAt(s, pat, k + 1) <==> OccursAt(s[1..], pat, k)
  {
    if k + 1 + |pat| <= |s| {
      assert s[k + 1..k + 1 + |pat|] == s[1..][k..k + |pat|];
    }
  }

  /** One mismatching character rules an occurrence out. */
  lemma MismatchIsNoOccurrence(s: string, pat: string, k: nat, d: nat)
    requires d < |pat| && k + d < |s| && s[k + d] != pat[d]
    ensures !OccursAt(s, pat, k)
  {
    if k + |pat| <= |s| {
      assert s[k..k + |pat|][d] == s[k + d];
    }
  }

  lemma OccursAtZero(s: string, pat: string)
    ensures OccursAt(s, pat, 0) <==> IsPrefix(pat, s)
  {
  }

  /** Python's `needle in haystack` on strings: the needle starts at some position. */
  predicate Contains(haystack: string, needle: string)
    decreases |haystack|
  {
    IsPrefix(needle, haystack) || (haystack != [] && Contains(haystack[1..], needle))
  }

  /** `needle in haystack` holds exactly when the needle occurs at some position. */
  lemma {:induction false} ContainsSpec(haystack: string, needle: string)
    ensures Contains(haystack, needle) <==> exists k :: OccursAt(haystack, needle, k)
    decreases |haystack|
  {
    OccursAtZero(haystack, needle);
    if IsPrefix(needle, haystack) {
      assert OccursAt(haystack, needle, 0);
    } else if haystack != [] {
      ContainsSpec(haystack[1..], needle);
      if Contains(haystack[1..], needle) {
        var k :| OccursAt(haystack[1..], needle, k);
        OccursAtShift(haystack, needle, k);
        assert OccursAt(haystack, needle, k + 1);
      } else {
        forall k | OccursAt(haystack, needle, k)
          ensures false
        {
          OccursAtShift(haystack, needle, k - 1);
        }
      }
    } else {
      forall k | OccursAt(haystack, needle, k)
        ensures false
      {
      }
    }
  }

  /** A haystack shorter than the needle does not contain it. */
  lemma {:induction false} ShorterThanNeedle(haystack: string, needle: string)
    requires |haystack| < |needle|
    ensures !Contains(haystack, needle)
    decreases |haystack|
  {
    if haystack != [] {
      ShorterThanNeedle(haystack[1..], needle);
    }
  }

  /**
    Python's `s.replace(pat, rep)`: every occurrence of `pat`, found left to
    right without overlap, is replaced by `rep`. An empty `pat` matches
    before every character and at the end.
   */
  function ReplaceAll(s: string, pat: string, rep: string): (r: string)
    decreases |s|
  {
    if pat == [] then
      if s == [] then rep else rep + [s[0]] + ReplaceAll(s[1..], pat, rep)
    else if s == [] then []
    else if IsPrefix(pat, s) then rep + ReplaceAll(s[|pat|..], pat, rep)
    else [s[0]] + ReplaceAll(s[1..], pat, rep)
  }

  /** Number of occurrences `ReplaceAll` replaces (Python's `str.count`). */
  function CountOccurrences(s: string, pat: string): (r: nat)
    requires pat != []
    decreases |s|
  {
    if s == [] then 0
    else if IsPrefix(pat, s) then 1 + CountOccurrences(s[|pat|..], pat)
    else CountOccurrences(s[1..], pat)
  }

  /** One step of `ReplaceAll` at an occurrence. */
  lemma ReplaceAllAtOccurrence(s: string, pat: string, rep: string)
    requires pat != [] && IsPrefix(pat, s)
    ensures ReplaceAll(s, pat, rep) == rep + ReplaceAll(s[|pat|..], pat, rep)
  {
  }

  /** One step of `ReplaceAll` past a character that starts no occurrence. */
  lemma ReplaceAllPastChar(s: string, pat: string, rep: string)
    requires pat != [] && s != [] && !IsPrefix(pat, s)
    ensures ReplaceAll(s, pat, rep) == [s[0]] + ReplaceAll(s[1..], pat, rep)
  {
  }

  lemma TailOfAppend<T>(a: seq<T>, b: seq<T>)
    requires a != []
    ensures (a + b)[1..] == a[1..] + b
  {
  }

  lemma HeadAndTail<T>(a: seq<T>, x: seq<T>)
    requires a != []
    ensures [a[0]] + (a[1..] + x) == a + x
  {
    assert [a[0]] + a[1..] == a;
  }

  lemma SplitAt<T>(s: seq<T>, i: nat)
    requires i <= |s|
    ensures s[..i] + s[i..] == s
  {
  }

  lemma DropOfDrop<T>(s: seq<T>, i: nat, m: nat)
    requires i + m <= |s|
    ensures s[i..][m..] == s[i + m..]
  {
  }

  lemma TakeOfDrop<T>(s: seq<T>, i: nat, m: nat)
    requires i + m <= |s|
    ensures s[i..][..m] == s[i..i + m]
  {
  }

  lemma AppendAssoc<T>(a: seq<T>, b: seq<T>, c: seq<T>)
    ensures a + (b + c) == a + b + c
  {
  }

  /** A stretch in which no occurrence starts is copied unchanged. */
  lemma {:induction false} ReplaceAllPrefixFree(a: string, b: string, pat: string, rep: string)
    requires pat != []
    requires forall k :: 0 <= k < |a| ==> !OccursAt(a + b, pat, k)
    ensures ReplaceAll(a + b, pat, rep) == a + ReplaceAll(b, pat, rep)
    decreases |a|
  {
    if a == [] {
      assert a + b == b;
    } else {
      var s := a + b;
      TailOfAppend(a, b);
      assert !IsPrefix(pat, s) by {
        OccursAtZero(s, pat);
      }
      ReplaceAllPastChar(s, pat, rep);
      assert forall k :: 0 <= k < |a[1..]| ==> !OccursAt(a[1..] + b, pat, k) by {
        forall k | 0 <= k < |a[1..]|
          ensures !OccursAt(a[1..] + b, pat, k)
        {
          OccursAtShift(s, pat, k);
        }
      }
      ReplaceAllPrefixFree(a[1..], b, pat, rep);
      HeadAndTail(a, ReplaceAll(b, pat, rep));
    }
  }

  /**
    The find-and-continue reading of `str.replace`: with `i` the leftmost
    occurrence, the result is the text before it, the replacement, and the
    replaced remainder after it.
   */
  lemma {:induction false} ReplaceAllLeftmost(s: string, pat: string, rep: string, i: nat)
    requires pat != [] && OccursAt(s, pat, i)
    requires forall k :: 0 <= k < i ==> !OccursAt(s, pat, k)
    ensures ReplaceAll(s, pat, rep) == s[..i] + rep + ReplaceAll(s[i + |pat|..], pat, rep)
  {
    var before, from := s[..i], s[i..];
    var after := s[i + |pat|..];
    SplitAt(s, i);
    DropOfDrop(s, i, |pat|);
    TakeOfDrop(s, i, |pat|);
    ReplaceAllPrefixFree(before, from, pat, rep);
    ReplaceAllAtOccurrence(from, pat, rep);
    AppendAssoc(before, rep, ReplaceAll(after, pat, rep));
  }

  /** A string without an occurrence of a non-empty `pat` is left unchanged. */
  lemma {:induction false} ReplaceAllWithoutOccurrence(s: string, pat: string, rep: string)
    requires pat != [] && !Contains(s, pat)
    ensures ReplaceAll(s, pat, rep) == s
    decreases |s|
  {
    if s != [] {
      ReplaceAllPastChar(s, pat, rep);
      ReplaceAllWithoutOccurrence(s[1..], pat, rep);
      assert s == [s[0]] + s[1..];
    }
  }

  /** Each replacement changes the length by `|rep| - |pat|`. */
  lemma {:induction false} ReplaceAllLength(s: string, pat: string, rep: string)
    requires pat != []
    ensures |ReplaceAll(s, pat, rep)| == |s| + CountOccurrences(s, pat) * (|rep| - |pat|)
    decreases |s|
  {
    if s != [] {
      if IsPrefix(pat, s) {
        var rest := s[|pat|..];
        ReplaceAllAtOccurrence(s, pat, rep);
        ReplaceAllLength(rest, pat, rep);
        Distribute(CountOccurrences(rest, pat), |rep| - |pat|);
      } else {
        ReplaceAllPastChar(s, pat, rep);
        ReplaceAllLength(s[1..], pat, rep);
      }
    }
  }

  lemma Distribute(n: int, d: int)
    ensures (1 + n) * d == d + n * d
  {
  }

  /** `str.count` is zero exactly when the pattern does not occur. */
  lemma {:induction false} CountZeroIffAbsent(s: string, pat: string)
    requires pat != []
    ensures CountOccurrences(s, pat) == 0 <==> !Contains(s, pat)
    decreases |s|
  {
    if s != [] && !IsPrefix(pat, s) {
      CountZeroIffAbsent(s[1..], pat);
    }
  }
}
