/** Knuth-Morris-Pratt matching: the prefix function, the matcher, the sentinel form,
    and the two failure tables that are indexed by the mismatching position. */
module KMP {

  /** The prefix of p of length k is a suffix of s[..i]. */
  ghost predicate Ends(p: string, k: int, s: string, i: int) {
    0 <= k <= |p| && k <= i <= |s| && forall j :: 0 <= j < k ==> p[j] == s[i - k + j]
  }

  /** k is the longest length below b with that property. */
  ghost predicate Longest(p: string, k: int, s: string, i: int, b: int) {
    Ends(p, k, s, i) && k < b && forall l :: k < l < b ==> !Ends(p, l, s, i)
  }

  /** The length of the longest proper prefix of p[..i] that is also its suffix. */
  ghost predicate LongestBorder(p: string, k: int, i: int) {
    Longest(p, k, p, i, i)
  }

  ghost predicate Occurs(p: string, s: string, q: int) {
    0 <= q <= |s| - |p| && s[q..q + |p|] == p
  }

  lemma {:induction false} OccursEnds(p: string, s: string, i: int)
    ensures Ends(p, |p|, s, i) <==> Occurs(p, s, i - |p|)
  {
    var q := i - |p|;
    if Occurs(p, s, q) {
      assert forall j :: 0 <= j < |p| ==> s[q..q + |p|][j] == p[j];
    }
  }

  lemma {:induction false} Extend(p: string, k: int, s: string, i: int)
    ensures Ends(p, k + 1, s, i + 1) && k >= 0 <==> Ends(p, k, s, i) && k < |p| && i < |s| && p[k] == s[i]
  {
    if Ends(p, k + 1, s, i + 1) && k >= 0 {
      assert p[k] == s[i + 1 - (k + 1) + k];
      forall j | 0 <= j < k ensures p[j] == s[i - k + j] {
        assert p[j] == s[i + 1 - (k + 1) + j];
      }
    }
    if Ends(p, k, s, i) && k < |p| && i < |s| && p[k] == s[i] {
      forall j | 0 <= j < k + 1 ensures p[j] == s[i + 1 - (k + 1) + j] {
        assert j < k ==> p[j] == s[i - k + j];
      }
    }
  }

  /** Shorter suffixes of the text that are prefixes are the borders of a longer one. */
  lemma {:induction false} Shorter(p: string, k: int, s: string, i: int, l: int)
    requires Ends(p, k, s, i) && 0 <= l < k
    ensures Ends(p, l, s, i) <==> Ends(p, l, p, k)
  {
    if Ends(p, l, s, i) || Ends(p, l, p, k) {
      forall j | 0 <= j < l ensures p[j] == s[i - l + j] && p[j] == p[k - l + j] {
        assert p[k - l + j] == s[i - k + (k - l + j)];
      }
    }
  }

  /** The prefix of length l + 1 ends at s[i]. */
  ghost predicate Extends(p: string, l: int, s: string, i: int) {
    Ends(p, l + 1, s, i + 1)
  }

  /** No length above k, below b, can still be extended by the character s[i]. */
  ghost predicate Candidate(p: string, k: int, s: string, i: int, b: int) {
    && -1 <= k < b <= |p| && 0 <= i < |s|
    && (k >= 0 ==> Ends(p, k, s, i))
    && forall l :: k < l < b ==> !Extends(p, l, s, i)
  }

  lemma {:induction false} Start(p: string, k: int, s: string, i: int, b: int)
    requires Longest(p, k, s, i, b) && b <= |p| && i < |s|
    ensures Candidate(p, k, s, i, b)
  {
    forall l | k < l < b ensures !Extends(p, l, s, i) {
      Extend(p, l, s, i);
    }
  }

  /** Falling back to the longest border misses nothing. */
  lemma {:induction false} Fall(p: string, k: int, s: string, i: int, b: int, k': int)
    requires Candidate(p, k, s, i, b) && k > 0 && p[k] != s[i] && LongestBorder(p, k', k)
    ensures Candidate(p, k', s, i, b)
  {
    Shorter(p, k, s, i, k');
    Extend(p, k, s, i);
    forall l | k' < l < k ensures !Extends(p, l, s, i) {
      Extend(p, l, s, i);
      Shorter(p, k, s, i, l);
    }
  }

  lemma {:induction false} Match(p: string, k: int, s: string, i: int, b: int)
    requires Candidate(p, k, s, i, b)
    ensures k >= 0 && p[k] == s[i] ==> Longest(p, k + 1, s, i + 1, b + 1)
    ensures k == -1 || (k == 0 && p[k] != s[i]) ==> Longest(p, 0, s, i + 1, b + 1)
  {
    Extend(p, k, s, i);
    var i' := i + 1;
    forall l | k + 1 < l < b + 1 ensures !Ends(p, l, s, i') {
      assert !Extends(p, l - 1, s, i);
    }
  }

  // ---------------------------------------------------------------- the prefix function

  ghost predicate PrefixTable(p: string, pi: seq<int>, n: nat) {
    n <= |pi| && forall j :: 0 <= j < n ==> LongestBorder(p, pi[j], j + 1)
  }

  lemma {:induction false} TableGrows(p: string, pi: seq<int>, i: nat, k: int)
    requires PrefixTable(p, pi, i) && i < |pi| && LongestBorder(p, k, i + 1)
    ensures PrefixTable(p, pi[i := k], i + 1)
  {
  }

  /** One character c = s[i] of either loop: fall back until c fits or nothing is left,
      then take it.  b limits the lengths of interest. */
  method Advance(pi: array<int>, p: string, c: char, k0: int, ghost s: string, ghost i: int, ghost b: int)
    returns (k: int, ghost falls: nat)
    requires Longest(p, k0, s, i, b) && b <= |p| && i < |s| && c == s[i]
    requires k0 <= pi.Length && PrefixTable(p, pi[..], k0)
    ensures Longest(p, k, s, i + 1, b + 1)
    ensures k + falls <= k0 + 1
  {
    k, falls := k0, 0;
    Start(p, k, s, i, b);
    while k > 0 && p[k] != c
      invariant 0 <= k && k + falls <= k0 && Candidate(p, k, s, i, b)
      decreases k
    {
      assert pi[..][k - 1] == pi[k - 1] && LongestBorder(p, pi[..][k - 1], k);
      Fall(p, k, s, i, b, pi[k - 1]);
      k, falls := pi[k - 1], falls + 1;
    }
    Match(p, k, s, i, b);
    if p[k] == c {
      k := k + 1;
    }
  }

  method ComputePrefixFunction(pattern: string) returns (pi: array<int>, ghost falls: nat)
    ensures pi.Length == |pattern| && PrefixTable(pattern, pi[..], |pattern|)
    ensures falls <= |pattern|
  {
    var m := |pattern|;
    pi := new int[m](_ => 0);
    falls := 0;
    var k := 0;
    var i := 1;
    while i < m
      invariant pi.Length == m && 1 <= i && (i == 1 || i <= m) && falls + k < i
      invariant 0 <= k && (m > 0 ==> LongestBorder(pattern, k, i) && PrefixTable(pattern, pi[..], i))
    {
      ghost var f;
      k, f := Advance(pi, pattern, pattern[i], k, pattern, i, i);
      falls := falls + f;
      TableGrows(pattern, pi[..], i, k);
      ghost var was := pi[..];
      pi[i] := k;
      assert pi[..] == was[i := k];
      i := i + 1;
    }
  }

  // ---------------------------------------------------------------- all occurrences

  /** r lists, in increasing order, exactly the occurrences that end by position n. */
  ghost predicate AllOccurrences(r: seq<int>, p: string, s: string, n: int) {
    && (forall a, b :: 0 <= a < b < |r| ==> r[a] < r[b])
    && (forall q :: q in r <==> Occurs(p, s, q) && q + |p| <= n)
  }

  lemma {:induction false} NextOccurrence(r: seq<int>, p: string, s: string, n: int)
    requires AllOccurrences(r, p, s, n)
    ensures Ends(p, |p|, s, n + 1) ==> AllOccurrences(r + [n + 1 - |p|], p, s, n + 1)
    ensures !Ends(p, |p|, s, n + 1) ==> AllOccurrences(r, p, s, n + 1)
  {
    OccursEnds(p, s, n + 1);
    var q := n + 1 - |p|;
    if Ends(p, |p|, s, n + 1) {
      var r' := r + [q];
      forall a, b | 0 <= a < b < |r'| ensures r'[a] < r'[b] {
        assert r[a] in r;
      }
      forall x ensures x in r' <==> Occurs(p, s, x) && x + |p| <= n + 1 {
      }
    }
  }

  /** Position i of the matcher's loop: one character, and a match reported if it ends there. */
  method MatchNext(pi: array<int>, text: string, pattern: string, i: nat, k0: int, result0: seq<int>)
    returns (k: int, result: seq<int>, ghost falls: nat)
    requires pattern != "" && i < |text| && pi.Length == |pattern| && PrefixTable(pattern, pi[..], |pattern|)
    requires Longest(pattern, k0, text, i, |pattern|) && AllOccurrences(result0, pattern, text, i)
    ensures Longest(pattern, k, text, i + 1, |pattern|) && AllOccurrences(result, pattern, text, i + 1)
    ensures k + falls <= k0 + 1
  {
    var m := |pattern|;
    result := result0;
    k, falls := Advance(pi, pattern, text[i], k0, text, i, m);
    NextOccurrence(result, pattern, text, i);
    if k == m {
      result := result + [i - m + 1];
      assert LongestBorder(pattern, pi[..][m - 1], m);
      Restart(pattern, text, i + 1, pi[m - 1]);
      k, falls := pi[k - 1], falls + 1;
    }
  }

  method Kmp(text: string, pattern: string) returns (result: seq<int>, ghost falls: nat)
    requires pattern != ""
    ensures AllOccurrences(result, pattern, text, |text|)
    ensures falls <= |text|
  {
    var n, m := |text|, |pattern|;
    var pi, setup := ComputePrefixFunction(pattern);
    result, falls := [], 0;
    var k := 0;
    for i := 0 to n
      invariant 0 <= k && Longest(pattern, k, text, i, m) && falls + k <= i
      invariant pi.Length == m && PrefixTable(pattern, pi[..], m)
      invariant AllOccurrences(result, pattern, text, i)
    {
      ghost var f;
      k, result, f := MatchNext(pi, text, pattern, i, k, result);
      falls := falls + f;
    }
  }

  /** After a full match the longest border of the pattern is what remains matched. */
  lemma {:induction false} Restart(p: string, s: string, i: int, k: int)
    requires Ends(p, |p|, s, i) && LongestBorder(p, k, |p|)
    ensures Longest(p, k, s, i, |p|)
  {
    Shorter(p, |p|, s, i, k);
    forall l | k < l < |p| ensures !Ends(p, l, s, i) {
      Shorter(p, |p|, s, i, l);
    }
  }

  // ---------------------------------------------------------------- with a sentinel

  /** Entry i is one less than the longest border of s[..i+1]; -1 when there is none. */
  ghost predicate SentinelTable(p: string, next: seq<int>, n: nat) {
    n <= |next| && forall j :: 0 <= j < n ==> LongestBorder(p, next[j] + 1, j + 1)
  }

  lemma {:induction false} SentinelGrows(p: string, next: seq<int>, i: nat, j: int)
    requires SentinelTable(p, next, i) && i < |next| && LongestBorder(p, j + 1, i + 1)
    ensures SentinelTable(p, next[i := j], i + 1)
  {
  }

  /** One character of either sentinel loop. */
  method SentinelAdvance(next: array<int>, p: string, c: char, j0: int, ghost s: string, ghost i: int, ghost b: int)
    returns (j: int)
    requires Longest(p, j0 + 1, s, i, b) && b <= |p| && i < |s| && c == s[i]
    requires j0 + 1 <= next.Length && SentinelTable(p, next[..], j0 + 1)
    ensures Longest(p, j + 1, s, i + 1, b + 1)
  {
    j := j0;
    Start(p, j + 1, s, i, b);
    while j >= 0 && c != p[j + 1]
      invariant -1 <= j <= j0 && Candidate(p, j + 1, s, i, b)
      decreases j
    {
      assert next[..][j] == next[j] && LongestBorder(p, next[..][j] + 1, j + 1);
      Fall(p, j + 1, s, i, b, next[j] + 1);
      j := next[j];
    }
    Match(p, j + 1, s, i, b);
    if c == p[j + 1] {
      j := j + 1;
    }
  }

  method GetNext(next: array<int>, s: string)
    requires 0 < |s| <= next.Length
    modifies next
    ensures SentinelTable(s, next[..], |s|)
  {
    var j := -1;
    next[0] := j;
    for i := 1 to |s|
      invariant SentinelTable(s, next[..], i)
      invariant j >= -1 && LongestBorder(s, j + 1, i)
    {
      j := SentinelAdvance(next, s, s[i], j, s, i, i);
      SentinelGrows(s, next[..], i, j);
      ghost var was := next[..];
      next[i] := j;
      assert next[..] == was[i := j];
    }
  }

  /** The first occurrence, or -1 when there is none; 0 for the empty needle. */
  method StrStr(haystack: string, needle: string) returns (r: int)
    ensures r == -1 || Occurs(needle, haystack, r)
    ensures forall q :: Occurs(needle, haystack, q) ==> r != -1 && r <= q
  {
    if |needle| == 0 {
      assert haystack[0..0] == needle;
      return 0;
    }
    var next := new int[|needle|];
    GetNext(next, needle);
    var j := -1;
    for i := 0 to |haystack|
      invariant j >= -1 && Longest(needle, j + 1, haystack, i, |needle|)
      invariant next.Length == |needle| && SentinelTable(needle, next[..], |needle|)
      invariant AllOccurrences([], needle, haystack, i)
    {
      j := SentinelAdvance(next, needle, haystack[i], j, haystack, i, |needle|);
      NextOccurrence([], needle, haystack, i);
      if j == |needle| - 1 {
        OccursEnds(needle, haystack, i + 1);
        FirstOccurrence(needle, haystack, i);
        return i - |needle| + 1;
      }
    }
    FirstOccurrence(needle, haystack, |haystack|);
    return -1;
  }

  lemma {:induction false} FirstOccurrence(p: string, s: string, n: int)
    requires AllOccurrences([], p, s, n)
    ensures forall q :: Occurs(p, s, q) ==> n + 1 - |p| <= q
  {
    forall q | Occurs(p, s, q) ensures n + 1 - |p| <= q {
      assert q !in [];
    }
  }

  /** The matcher and the sentinel search agree: the first listed occurrence is the answer. */
  lemma {:induction false} FirstOfAll(r: seq<int>, first: int, p: string, s: string)
    requires AllOccurrences(r, p, s, |s|)
    requires first == -1 || Occurs(p, s, first)
    requires forall q :: Occurs(p, s, q) ==> first != -1 && first <= q
    ensures first == if r == [] then -1 else r[0]
  {
    if first != -1 {
      assert first in r;
    }
    if r != [] {
      assert r[0] in r;
    }
  }

  // ---------------------------------------------------------------- tables indexed by the mismatch

  /** Entry i > 0 is the longest border of t[..i]; entry 0 is -1. */
  ghost predicate NextTable(t: string, next: seq<int>, n: nat) {
    n <= |next| && forall j :: 0 <= j < n ==> if j == 0 then next[j] == -1 else LongestBorder(t, next[j], j)
  }

  lemma {:induction false} NextGrows(t: string, next: seq<int>, i: nat, k: int)
    requires NextTable(t, next, i) && 0 < i < |next| && LongestBorder(t, k, i)
    ensures NextTable(t, next[i := k], i + 1)
  {
  }

  method GetNextPlain(t: string, next: array<int>)
    requires 0 < |t| <= next.Length
    modifies next
    ensures NextTable(t, next[..], |t|)
  {
    var k := -1;
    next[0] := k;
    var i := 0;
    while i < |t| - 1
      invariant 0 <= i < |t| && Candidate(t, k, t, i, i)
      invariant NextTable(t, next[..], i + 1)
      decreases |t| - i, k
    {
      ghost var was := next[..];
      if k == -1 || t[i] == t[k] {
        Match(t, k, t, i, i);
        k := k + 1;
        i := i + 1;
        NextGrows(t, was, i, k);
        next[i] := k;
        assert next[..] == was[i := k];
        Start(t, k, t, i, i);
      } else {
        FallPlain(t, k, i, was[k]);
        k := next[k];
      }
    }
  }

  lemma {:induction false} FallPlain(t: string, k: int, i: int, k': int)
    requires 0 <= k && Candidate(t, k, t, i, i) && t[k] != t[i]
    requires if k == 0 then k' == -1 else LongestBorder(t, k', k)
    ensures Candidate(t, k', t, i, i) && k' < k
  {
    if k > 0 {
      Fall(t, k, t, i, i, k');
    } else {
      Extend(t, 0, t, i);
    }
  }

  /** k is a border of t[..i] that is followed by a character other than t[i]. */
  ghost predicate Differs(t: string, k: int, i: int) {
    0 <= i < |t| && Ends(t, k, t, i) && k < i && t[k] != t[i]
  }

  /** The longest such border, or -1 when there is none. */
  ghost predicate NextVal(t: string, k: int, i: int) {
    (k == -1 || Differs(t, k, i)) && forall l :: k < l < i ==> !Differs(t, l, i)
  }

  ghost predicate NextValTable(t: string, nextval: seq<int>, n: nat) {
    n <= |nextval| && forall j :: 0 <= j < n ==> NextVal(t, nextval[j], j)
  }

  /** A mismatch at k cannot be repaired by a border followed by the same character. */
  lemma {:induction false} FallVal(t: string, k: int, i: int, k': int)
    requires 0 <= k && Candidate(t, k, t, i, i) && t[k] != t[i] && NextVal(t, k', k)
    ensures Candidate(t, k', t, i, i) && k' < k
  {
    Extend(t, k, t, i);
    if k' >= 0 {
      Shorter(t, k, t, i, k');
    }
    forall l | k' < l < k ensures !Extends(t, l, t, i) {
      Extend(t, l, t, i);
      Shorter(t, k, t, i, l);
      assert !Differs(t, l, k);
    }
  }

  /** The entry for i: its longest border k, or the entry of k when the same character follows. */
  lemma {:induction false} EntryVal(t: string, k: int, i: int, k': int)
    requires LongestBorder(t, k, i) && i < |t| && NextVal(t, k', k)
    ensures NextVal(t, if t[i] != t[k] then k else k', i)
  {
    if t[i] == t[k] {
      if k' >= 0 {
        Shorter(t, k, t, i, k');
      }
      forall l | k' < l < i ensures !Differs(t, l, i) {
        if l < k {
          Shorter(t, k, t, i, l);
          assert !Differs(t, l, k);
        }
      }
    }
  }

  lemma {:induction false} ValGrows(t: string, nextval: seq<int>, i: nat, k: int)
    requires NextValTable(t, nextval, i) && i < |nextval| && 0 <= k < i < |t| && LongestBorder(t, k, i)
    ensures NextValTable(t, nextval[i := if t[i] != t[k] then k else nextval[k]], i + 1)
  {
    EntryVal(t, k, i, nextval[k]);
  }

  method GetNextVal(t: string, nextval: array<int>)
    requires 0 < |t| <= nextval.Length
    modifies nextval
    ensures NextValTable(t, nextval[..], |t|)
  {
    nextval[0] := -1;
    var i, k := 0, -1;
    while i < |t| - 1
      invariant 0 <= i < |t| && Candidate(t, k, t, i, i)
      invariant NextValTable(t, nextval[..], i + 1)
      decreases |t| - i, k
    {
      ghost var was := nextval[..];
      if k == -1 || t[i] == t[k] {
        Match(t, k, t, i, i);
        k := k + 1;
        i := i + 1;
        ValGrows(t, was, i, k);
        if t[i] != t[k] {
          nextval[i] := k;
        } else {
          nextval[i] := nextval[k];
        }
        assert nextval[..] == was[i := nextval[i]];
        Start(t, k, t, i, i);
      } else {
        assert NextVal(t, was[k], k);
        FallVal(t, k, i, nextval[k]);
        k := nextval[k];
      }
    }
  }
}
