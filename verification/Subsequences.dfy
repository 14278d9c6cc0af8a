/** Longest common subsequence and longest palindromic subsequence: the table
    programs against the subsequences themselves, and why the two ways of finding
    a longest palindrome agree. */
module Subsequences {
  import opened Common

  // ---------------------------------------------------------------- subsequences

  /** Strictly increasing positions within [lo, hi). */
  ghost predicate Positions(xs: seq<int>, lo: int, hi: int) {
    && (forall k :: 0 <= k < |xs| ==> lo <= xs[k] < hi)
    && (forall k, l :: 0 <= k < l < |xs| ==> xs[k] < xs[l])
  }

  /** u is s read at the positions xs. */
  ghost predicate ReadAt(u: string, s: string, xs: seq<int>) {
    && |u| == |xs| && Positions(xs, 0, |s|)
    && forall k :: 0 <= k < |u| ==> u[k] == s[xs[k]]
  }

  ghost predicate IsSubsequence(u: string, s: string) {
    exists xs :: ReadAt(u, s, xs)
  }

  ghost predicate IsPalindrome(u: string) {
    forall k :: 0 <= k < |u| ==> u[k] == u[|u| - 1 - k]
  }

  ghost predicate IsCommon(u: string, a: string, b: string) {
    IsSubsequence(u, a) && IsSubsequence(u, b)
  }

  ghost predicate IsLongestCommon(n: int, a: string, b: string) {
    && (exists u :: IsCommon(u, a, b) && |u| == n)
    && (forall u :: IsCommon(u, a, b) ==> |u| <= n)
  }

  ghost predicate IsPalindromeOf(u: string, s: string) {
    IsSubsequence(u, s) && IsPalindrome(u)
  }

  ghost predicate IsLongestPalindrome(n: int, s: string) {
    && (exists u :: IsPalindromeOf(u, s) && |u| == n)
    && (forall u :: IsPalindromeOf(u, s) ==> |u| <= n)
  }

  /** s read at positions xs. */
  function Pick(s: string, xs: seq<int>): (u: string)
    requires forall k :: 0 <= k < |xs| ==> 0 <= xs[k] < |s|
    ensures |u| == |xs| && forall k :: 0 <= k < |u| ==> u[k] == s[xs[k]]
  {
    seq(|xs|, k requires 0 <= k < |xs| => s[xs[k]])
  }

  // ---------------------------------------------------------------- common subsequences

  /** Length of a longest common subsequence of a[..i] and b[..j]. */
  function Lcs(a: string, b: string, i: nat, j: nat): nat
    requires i <= |a| && j <= |b|
  {
    if i == 0 || j == 0 then 0
    else if a[i - 1] == b[j - 1] then Lcs(a, b, i - 1, j - 1) + 1
    else Max(Lcs(a, b, i, j - 1), Lcs(a, b, i - 1, j))
  }

  /** Positions xs of a and ys of b that read the same. */
  ghost predicate Paired(a: string, b: string, i: int, j: int, xs: seq<int>, ys: seq<int>) {
    && 0 <= i <= |a| && 0 <= j <= |b|
    && |xs| == |ys| && Positions(xs, 0, i) && Positions(ys, 0, j)
    && forall k :: 0 <= k < |xs| ==> a[xs[k]] == b[ys[k]]
  }

  lemma {:induction false} LcsBound(a: string, b: string, i: nat, j: nat, xs: seq<int>, ys: seq<int>)
    requires Paired(a, b, i, j, xs, ys)
    ensures |xs| <= Lcs(a, b, i, j)
    decreases i + j
  {
    var n := |xs|;
    if n > 0 {
      assert 0 <= xs[n - 1] < i && 0 <= ys[n - 1] < j;
      if a[i - 1] == b[j - 1] {
        LcsBound(a, b, i - 1, j - 1, xs[..n - 1], ys[..n - 1]);
      } else if xs[n - 1] < i - 1 {
        LcsBound(a, b, i - 1, j, xs, ys);
      } else {
        assert a[xs[n - 1]] == b[ys[n - 1]];
        LcsBound(a, b, i, j - 1, xs, ys);
      }
    }
  }

  lemma {:induction false} LcsReached(a: string, b: string, i: nat, j: nat) returns (xs: seq<int>, ys: seq<int>)
    requires i <= |a| && j <= |b|
    ensures Paired(a, b, i, j, xs, ys) && |xs| == Lcs(a, b, i, j)
    decreases i + j
  {
    xs, ys := [], [];
    if i > 0 && j > 0 {
      if a[i - 1] == b[j - 1] {
        xs, ys := LcsReached(a, b, i - 1, j - 1);
        xs, ys := xs + [i - 1], ys + [j - 1];
      } else if Lcs(a, b, i, j - 1) >= Lcs(a, b, i - 1, j) {
        xs, ys := LcsReached(a, b, i, j - 1);
      } else {
        xs, ys := LcsReached(a, b, i - 1, j);
      }
    }
  }

  /** The table's recurrence computes the longest common subsequence. */
  lemma {:induction false} LcsIsLongest(a: string, b: string)
    ensures IsLongestCommon(Lcs(a, b, |a|, |b|), a, b)
  {
    var xs, ys := LcsReached(a, b, |a|, |b|);
    var u := Pick(a, xs);
    assert ReadAt(u, a, xs) && ReadAt(u, b, ys);
    assert IsCommon(u, a, b);
    forall v | IsCommon(v, a, b) ensures |v| <= Lcs(a, b, |a|, |b|) {
      var vs :| ReadAt(v, a, vs);
      var ws :| ReadAt(v, b, ws);
      LcsBound(a, b, |a|, |b|, vs, ws);
    }
  }

  // ---------------------------------------------------------------- palindromes

  /** Length of a longest palindromic subsequence of s[i..j], both ends included. */
  function Lps(s: string, i: nat, j: int): nat
    requires -1 <= j < |s|
    decreases j - i
  {
    if i > j then 0
    else if i == j then 1
    else if s[i] == s[j] then Lps(s, i + 1, j - 1) + 2
    else Max(Lps(s, i + 1, j), Lps(s, i, j - 1))
  }

  /** Positions in [i, j] that read the same in both directions. */
  ghost predicate Mirrored(s: string, i: int, j: int, xs: seq<int>) {
    && 0 <= i && j < |s| && Positions(xs, i, j + 1)
    && forall k :: 0 <= k < |xs| ==> s[xs[k]] == s[xs[|xs| - 1 - k]]
  }

  /** The middle of a palindrome is one, strictly inside. */
  lemma {:induction false} Unwrapped(s: string, i: nat, j: int, xs: seq<int>)
    requires Mirrored(s, i, j, xs) && |xs| >= 2
    ensures Mirrored(s, i + 1, j - 1, xs[1..|xs| - 1])
  {
    var n, ys := |xs|, xs[1..|xs| - 1];
    forall k | 0 <= k < |ys| ensures i + 1 <= ys[k] < j {
      assert xs[0] < xs[k + 1] < xs[n - 1];
    }
    forall k | 0 <= k < |ys| ensures s[ys[k]] == s[ys[|ys| - 1 - k]] {
      assert ys[k] == xs[k + 1] && ys[|ys| - 1 - k] == xs[n - 1 - (k + 1)];
    }
  }

  lemma {:induction false} LpsBound(s: string, i: nat, j: int, xs: seq<int>)
    requires -1 <= j && Mirrored(s, i, j, xs)
    ensures |xs| <= Lps(s, i, j)
    decreases j - i
  {
    var n := |xs|;
    if n > 0 && i < j {
      assert i <= xs[0] <= xs[n - 1] <= j && s[xs[0]] == s[xs[n - 1]];
      if s[i] == s[j] {
        if n >= 2 {
          Unwrapped(s, i, j, xs);
          LpsBound(s, i + 1, j - 1, xs[1..n - 1]);
        }
      } else if xs[0] > i {
        LpsBound(s, i + 1, j, xs);
      } else {
        LpsBound(s, i, j - 1, xs);
      }
    } else if n > 0 {
      PositionsRise(xs, i, j + 1, n - 1);
    }
  }

  lemma {:induction false} PositionsRise(xs: seq<int>, lo: int, hi: int, k: nat)
    requires Positions(xs, lo, hi) && k < |xs|
    ensures lo + k <= xs[k] < hi
  {
    if k > 0 {
      PositionsRise(xs, lo, hi, k - 1);
    }
  }

  lemma {:induction false} Wrapped(s: string, i: nat, j: int, ys: seq<int>) returns (xs: seq<int>)
    requires i < j < |s| && s[i] == s[j] && Mirrored(s, i + 1, j - 1, ys)
    ensures Mirrored(s, i, j, xs) && |xs| == |ys| + 2
  {
    var n := |ys| + 2;
    xs := seq(n, k requires 0 <= k < n => if k == 0 then i else if k == n - 1 then j else ys[k - 1]);
  }

  lemma {:induction false} LpsReached(s: string, i: nat, j: int) returns (xs: seq<int>)
    requires -1 <= j < |s|
    ensures Mirrored(s, i, j, xs) && |xs| == Lps(s, i, j)
    decreases j - i
  {
    if i > j {
      xs := [];
    } else if i == j {
      xs := [i];
    } else if s[i] == s[j] {
      xs := LpsReached(s, i + 1, j - 1);
      xs := Wrapped(s, i, j, xs);
    } else if Lps(s, i + 1, j) >= Lps(s, i, j - 1) {
      xs := LpsReached(s, i + 1, j);
    } else {
      xs := LpsReached(s, i, j - 1);
    }
  }

  /** The interval recurrence computes the longest palindromic subsequence. */
  lemma {:induction false} LpsIsLongest(s: string)
    ensures IsLongestPalindrome(Lps(s, 0, |s| - 1), s)
  {
    var xs := LpsReached(s, 0, |s| - 1);
    var u := Pick(s, xs);
    assert ReadAt(u, s, xs);
    assert IsPalindromeOf(u, s);
    forall v | IsPalindromeOf(v, s) ensures |v| <= Lps(s, 0, |s| - 1) {
      var vs :| ReadAt(v, s, vs);
      LpsBound(s, 0, |s| - 1, vs);
    }
  }

  // ---------------------------------------------------------------- why both ways agree

  /** Rising positions xs and falling positions zs of s that read the same. */
  ghost predicate Facing(s: string, xs: seq<int>, zs: seq<int>) {
    && |xs| == |zs| && Positions(xs, 0, |s|)
    && (forall k :: 0 <= k < |zs| ==> 0 <= zs[k] < |s| && s[xs[k]] == s[zs[k]])
    && (forall k, l :: 0 <= k < l < |zs| ==> zs[k] > zs[l])
  }

  /** Up along xs to index k, then down again along zs. */
  lemma {:induction false} OuterPalindrome(s: string, xs: seq<int>, zs: seq<int>, k: nat) returns (ps: seq<int>)
    requires Facing(s, xs, zs) && k < |xs| && xs[k] < zs[k]
    ensures Mirrored(s, 0, |s| - 1, ps) && |ps| == 2 * (k + 1)
  {
    ps := seq(2 * (k + 1), i requires 0 <= i < 2 * (k + 1) => if i <= k then xs[i] else zs[2 * k + 1 - i]);
    OuterRises(s, xs, zs, k, ps);
    forall i | 0 <= i < |ps| ensures 0 <= ps[i] < |s| && s[ps[i]] == s[ps[|ps| - 1 - i]] {
      OuterMirrors(s, xs, zs, k, ps, i);
    }
  }

  lemma {:induction false} OuterMirrors(s: string, xs: seq<int>, zs: seq<int>, k: nat, ps: seq<int>, i: nat)
    requires Facing(s, xs, zs) && k < |xs| && |ps| == 2 * (k + 1) && i < |ps|
    requires forall i :: 0 <= i < |ps| ==> ps[i] == if i <= k then xs[i] else zs[2 * k + 1 - i]
    ensures 0 <= ps[i] < |s| && 0 <= ps[|ps| - 1 - i] < |s| && s[ps[i]] == s[ps[|ps| - 1 - i]]
  {
  }

  lemma {:induction false} OuterRises(s: string, xs: seq<int>, zs: seq<int>, k: nat, ps: seq<int>)
    requires Facing(s, xs, zs) && k < |xs| && xs[k] < zs[k] && |ps| == 2 * (k + 1)
    requires forall i :: 0 <= i < |ps| ==> ps[i] == if i <= k then xs[i] else zs[2 * k + 1 - i]
    ensures forall i, l :: 0 <= i < l < |ps| ==> ps[i] < ps[l]
  {
    assert forall i :: 0 <= i <= k ==> xs[i] <= xs[k] && zs[k] <= zs[i];
    forall i, l | 0 <= i < l < |ps| ensures ps[i] < ps[l] {
    }
  }

  /** Up along xs to a shared middle at index k, then down along zs. */
  lemma {:induction false} CentredPalindrome(s: string, xs: seq<int>, zs: seq<int>, k: nat) returns (ps: seq<int>)
    requires Facing(s, xs, zs) && k < |xs| && xs[k] == zs[k]
    ensures Mirrored(s, 0, |s| - 1, ps) && |ps| == 2 * k + 1
  {
    ps := seq(2 * k + 1, i requires 0 <= i < 2 * k + 1 => if i <= k then xs[i] else zs[2 * k - i]);
    assert forall i :: 0 <= i <= k ==> xs[i] <= xs[k] && zs[k] <= zs[i];
    forall i, l | 0 <= i < l < |ps| ensures ps[i] < ps[l] {
    }
    forall i | 0 <= i < |ps| ensures 0 <= ps[i] < |s| && s[ps[i]] == s[ps[|ps| - 1 - i]] {
    }
  }

  /** Up along the tail of zs to index k, then on along xs. */
  lemma {:induction false} InnerPalindrome(s: string, xs: seq<int>, zs: seq<int>, k: nat) returns (ps: seq<int>)
    requires Facing(s, xs, zs) && k < |xs| && zs[k] < xs[k]
    ensures Mirrored(s, 0, |s| - 1, ps) && |ps| == 2 * (|xs| - k)
  {
    var n := |xs|;
    var m := n - k;
    ps := seq(2 * m, i requires 0 <= i < 2 * m => if i < m then zs[n - 1 - i] else xs[k + i - m]);
    InnerRises(s, xs, zs, k, ps);
    forall i | 0 <= i < |ps| ensures 0 <= ps[i] < |s| && s[ps[i]] == s[ps[|ps| - 1 - i]] {
      InnerMirrors(s, xs, zs, k, ps, i);
    }
  }

  lemma {:induction false} InnerRises(s: string, xs: seq<int>, zs: seq<int>, k: nat, ps: seq<int>)
    requires Facing(s, xs, zs) && k < |xs| && zs[k] < xs[k] && |ps| == 2 * (|xs| - k)
    requires forall i :: 0 <= i < |ps| ==> ps[i] == if i < |xs| - k then zs[|xs| - 1 - i] else xs[2 * k + i - |xs|]
    ensures forall i, l :: 0 <= i < l < |ps| ==> ps[i] < ps[l]
  {
    assert forall i :: k <= i < |xs| ==> xs[k] <= xs[i] && zs[i] <= zs[k];
    forall i, l | 0 <= i < l < |ps| ensures ps[i] < ps[l] {
    }
  }

  lemma {:induction false} InnerMirrors(s: string, xs: seq<int>, zs: seq<int>, k: nat, ps: seq<int>, i: nat)
    requires Facing(s, xs, zs) && k < |xs| && |ps| == 2 * (|xs| - k) && i < |ps|
    requires forall i :: 0 <= i < |ps| ==> ps[i] == if i < |xs| - k then zs[|xs| - 1 - i] else xs[2 * k + i - |xs|]
    ensures 0 <= ps[i] < |s| && 0 <= ps[|ps| - 1 - i] < |s| && s[ps[i]] == s[ps[|ps| - 1 - i]]
  {
  }

  /** Facing positions contain a palindrome at least as long. */
  lemma {:induction false} FacingPalindrome(s: string, xs: seq<int>, zs: seq<int>) returns (ps: seq<int>)
    requires Facing(s, xs, zs)
    ensures Mirrored(s, 0, |s| - 1, ps) && |ps| >= |xs|
  {
    var n := |xs|;
    if n == 0 {
      ps := [];
    } else {
      var k := (n - 1) / 2;
      if xs[k] < zs[k] {
        ps := OuterPalindrome(s, xs, zs, k);
      } else if xs[k] > zs[k] {
        ps := InnerPalindrome(s, xs, zs, k);
      } else if n % 2 == 1 {
        ps := CentredPalindrome(s, xs, zs, k);
      } else {
        assert zs[k + 1] < zs[k] == xs[k] < xs[k + 1];
        ps := InnerPalindrome(s, xs, zs, k + 1);
      }
    }
  }

  /** Positions common to s and its reversal face each other in s ... */
  lemma {:induction false} CommonFacing(s: string, xs: seq<int>, ys: seq<int>) returns (zs: seq<int>)
    requires Paired(s, Reversed(s), |s|, |s|, xs, ys)
    ensures Facing(s, xs, zs)
  {
    zs := seq(|ys|, k requires 0 <= k < |ys| => |s| - 1 - ys[k]);
    forall k | 0 <= k < |zs| ensures 0 <= zs[k] < |s| && s[xs[k]] == s[zs[k]] {
      assert s[xs[k]] == Reversed(s)[ys[k]];
    }
  }

  /** ... and a palindrome is common to both. */
  lemma {:induction false} PalindromeCommon(s: string, qs: seq<int>) returns (ws: seq<int>)
    requires Mirrored(s, 0, |s| - 1, qs)
    ensures Paired(s, Reversed(s), |s|, |s|, qs, ws)
  {
    ws := seq(|qs|, k requires 0 <= k < |qs| => |s| - 1 - qs[|qs| - 1 - k]);
    forall k | 0 <= k < |qs| ensures 0 <= ws[k] < |s| && s[qs[k]] == Reversed(s)[ws[k]] {
      assert s[qs[k]] == s[qs[|qs| - 1 - k]];
    }
  }

  /** A longest common subsequence of s and its reversal is as long as a longest
      palindromic subsequence of s. */
  lemma {:induction false} LcsOfReversal(s: string)
    ensures Lcs(s, Reversed(s), |s|, |s|) == Lps(s, 0, |s| - 1)
  {
    var n := |s|;
    var xs, ys := LcsReached(s, Reversed(s), n, n);
    var zs := CommonFacing(s, xs, ys);
    var ps := FacingPalindrome(s, xs, zs);
    LpsBound(s, 0, n - 1, ps);
    var qs := LpsReached(s, 0, n - 1);
    var ws := PalindromeCommon(s, qs);
    LcsBound(s, Reversed(s), n, n, qs, ws);
  }

  // ---------------------------------------------------------------- the programs

  /** Row x of the table is right up to column hi. */
  ghost predicate LcsRow(dp: array2<nat>, a: string, b: string, x: nat, hi: nat)
    requires dp.Length0 == |a| + 1 && dp.Length1 == |b| + 1 && x <= |a| && hi <= |b| + 1
    reads dp
  {
    forall y :: 0 <= y < hi ==> dp[x, y] == Lcs(a, b, x, y)
  }

  /** The inner loop: fills row i from the row above. */
  method FillLcsRow(dp: array2<nat>, text1: string, text2: string, i: nat)
    requires dp.Length0 == |text1| + 1 && dp.Length1 == |text2| + 1 && 1 <= i <= |text1|
    requires LcsRow(dp, text1, text2, i - 1, |text2| + 1) && dp[i, 0] == 0
    modifies dp
    ensures LcsRow(dp, text1, text2, i, |text2| + 1)
    ensures forall x, y :: 0 <= x <= |text1| && 0 <= y <= |text2| && x != i ==> dp[x, y] == old(dp[x, y])
  {
    for j := 1 to |text2| + 1
      invariant LcsRow(dp, text1, text2, i - 1, |text2| + 1) && LcsRow(dp, text1, text2, i, j)
      invariant forall x, y :: 0 <= x <= |text1| && 0 <= y <= |text2| && x != i ==> dp[x, y] == old(dp[x, y])
    {
      if text1[i - 1] == text2[j - 1] {
        dp[i, j] := dp[i - 1, j - 1] + 1;
      } else {
        dp[i, j] := Max(dp[i, j - 1], dp[i - 1, j]);
      }
    }
  }

  method LongestCommonSubsequence(text1: string, text2: string) returns (r: nat)
    ensures r == Lcs(text1, text2, |text1|, |text2|)
    ensures IsLongestCommon(r, text1, text2)
  {
    var len1, len2 := |text1|, |text2|;
    var dp := new nat[len1 + 1, len2 + 1]((_, _) => 0);
    for i := 1 to len1 + 1
      invariant LcsRow(dp, text1, text2, i - 1, len2 + 1)
      invariant forall x :: i <= x <= len1 ==> dp[x, 0] == 0
    {
      FillLcsRow(dp, text1, text2, i);
    }
    LcsIsLongest(text1, text2);
    r := dp[len1, len2];
  }

  /** The first version: a common subsequence of the string and its reversal. */
  method LongestPalindromeByReversal(s: string) returns (r: nat)
    ensures IsLongestPalindrome(r, s)
  {
    var s2 := Reversed(s);
    r := LongestCommonSubsequence(s, s2);
    LcsOfReversal(s);
    LpsIsLongest(s);
  }

  ghost predicate LpsRow(dp: array2<nat>, s: string, x: nat, hi: nat)
    requires dp.Length0 == dp.Length1 == |s| && x < |s| && hi <= |s|
    reads dp
  {
    forall y :: 0 <= y < hi ==> dp[x, y] == Lps(s, x, y)
  }

  /** The inner loop: fills row i to the right of the diagonal. */
  method FillLpsRow(dp: array2<nat>, s: string, i: nat)
    requires dp.Length0 == dp.Length1 == |s| && i < |s|
    requires i + 1 < |s| ==> LpsRow(dp, s, i + 1, |s|)
    requires forall y :: 0 <= y < |s| ==> dp[i, y] == 0
    modifies dp
    ensures LpsRow(dp, s, i, |s|)
    ensures forall x, y :: 0 <= x < i && 0 <= y < |s| ==> dp[x, y] == old(dp[x, y])
  {
    var n := |s|;
    dp[i, i] := 1;
    for j := i + 1 to n
      invariant i + 1 < n ==> LpsRow(dp, s, i + 1, n)
      invariant LpsRow(dp, s, i, j)
      invariant forall x, y :: 0 <= x < i && 0 <= y < n ==> dp[x, y] == old(dp[x, y])
    {
      if s[i] == s[j] {
        dp[i, j] := dp[i + 1, j - 1] + 2;
      } else {
        dp[i, j] := Max(dp[i + 1, j], dp[i, j - 1]);
      }
    }
  }

  /** The second version: intervals, from the end of the string backwards. */
  method LongestPalindromeByIntervals(s: string) returns (r: nat)
    requires |s| > 0
    ensures IsLongestPalindrome(r, s)
  {
    var n := |s|;
    var dp := new nat[n, n]((_, _) => 0);
    var i := n - 1;
    while i >= 0
      invariant -1 <= i < n
      invariant i + 1 < n ==> LpsRow(dp, s, i + 1, n)
      invariant forall x, y :: 0 <= x <= i && 0 <= y < n ==> dp[x, y] == 0
    {
      FillLpsRow(dp, s, i);
      i := i - 1;
    }
    LpsIsLongest(s);
    r := dp[0, n - 1];
  }
}
