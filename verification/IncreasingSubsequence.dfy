/** Longest strictly increasing subsequences, by the quadratic table and by binary
    search over the least tails, and chains of nested envelopes. */
module IncreasingSubsequence {
  import opened Common

  // ---------------------------------------------------------------- what is computed

  /** ix names positions below n of a strictly increasing subsequence of s. */
  ghost predicate Inc(s: seq<int>, ix: seq<int>, n: nat) {
    && n <= |s| && (forall k :: 0 <= k < |ix| ==> 0 <= ix[k] < n)
    && (forall a, b :: 0 <= a < b < |ix| ==> ix[a] < ix[b] && s[ix[a]] < s[ix[b]])
  }

  /** r is the length of a longest increasing subsequence of s. */
  ghost predicate LisLength(s: seq<int>, r: int) {
    && (exists ix :: Inc(s, ix, |s|) && |ix| == r)
    && (forall ix :: Inc(s, ix, |s|) ==> |ix| <= r)
  }

  /** Every two computations of it agree. */
  lemma {:induction false} LisUnique(s: seq<int>, a: int, b: int)
    requires LisLength(s, a) && LisLength(s, b)
    ensures a == b
  {
    var u :| Inc(s, u, |s|) && |u| == a;
    var v :| Inc(s, v, |s|) && |v| == b;
  }

  ghost function Last(ix: seq<int>): int
    requires ix != []
  {
    ix[|ix| - 1]
  }

  lemma {:induction false} IncAdd(s: seq<int>, ix: seq<int>, n: nat)
    requires n < |s| && Inc(s, ix, n) && (ix != [] ==> s[Last(ix)] < s[n])
    ensures Inc(s, ix + [n], n + 1) && Last(ix + [n]) == n
  {
    var u := ix + [n];
    forall a, b | 0 <= a < b < |u| ensures u[a] < u[b] && s[u[a]] < s[u[b]] {
      if b == |ix| && a < |ix| - 1 {
        assert s[ix[a]] < s[ix[|ix| - 1]];
      }
    }
  }

  // ---------------------------------------------------------------- the quadratic table

  /** w ends at position i. */
  ghost predicate EndsAt(s: seq<int>, w: seq<int>, i: int) {
    0 <= i < |s| && Inc(s, w, |s|) && w != [] && Last(w) == i
  }

  /** Some subsequence that ends at i has length r, and none whose last step starts
      below j is longer. */
  ghost predicate BestTo(s: seq<int>, i: int, j: int, r: int, w: seq<int>) {
    && EndsAt(s, w, i) && |w| == r
    && forall ix :: EndsAt(s, ix, i) && (|ix| > 1 ==> ix[|ix| - 2] < j) ==> |ix| <= r
  }

  ghost predicate Table(s: seq<int>, dp: seq<int>, ws: seq<seq<int>>, n: nat) {
    n <= |s| && n <= |dp| && n <= |ws| && forall i :: 0 <= i < n ==> BestTo(s, i, i, dp[i], ws[i])
  }

  /** Looking at one more predecessor j. */
  lemma {:induction false} NextBest(s: seq<int>, i: int, j: int, r: int, w: seq<int>, r': int, w': seq<int>)
    requires 0 <= j < i < |s| && BestTo(s, i, j, r, w) && BestTo(s, j, j, r', w')
    ensures if s[i] > s[j] && r' + 1 > r then BestTo(s, i, j + 1, r' + 1, w' + [i]) else BestTo(s, i, j + 1, r, w)
  {
    if s[i] > s[j] {
      IncAdd(s, w', i);
    }
    forall ix | EndsAt(s, ix, i) && |ix| > 1 && ix[|ix| - 2] == j ensures s[i] > s[j] && |ix| <= r' + 1 {
      var u := ix[..|ix| - 1];
      if |u| > 1 {
        assert u[|u| - 2] < u[|u| - 1];
      }
      assert EndsAt(s, u, j);
    }
  }

  /** Row i of the table. */
  method FillEntry(nums: seq<int>, dp: array<int>, i: nat, ghost ws: seq<seq<int>>) returns (ghost w: seq<int>)
    requires i < |nums| == dp.Length && dp[i] == 1 && Table(nums, dp[..], ws, i)
    modifies dp
    ensures forall k :: 0 <= k < dp.Length && k != i ==> dp[k] == old(dp[k])
    ensures BestTo(nums, i, i, dp[i], w)
  {
    w := [i];
    ghost var d := dp[..];
    for j := 0 to i
      invariant forall k :: 0 <= k < dp.Length && k != i ==> dp[k] == d[k]
      invariant BestTo(nums, i, j, dp[i], w)
    {
      assert BestTo(nums, j, j, d[j], ws[j]);
      NextBest(nums, i, j, dp[i], w, d[j], ws[j]);
      if nums[i] > nums[j] {
        w := if dp[j] + 1 > dp[i] then ws[j] + [i] else w;
        dp[i] := Max(dp[i], dp[j] + 1);
      }
    }
  }

  /** lengthOfLIS by the quadratic table. */
  method LengthOfLisQuadratic(nums: seq<int>) returns (r: int)
    requires nums != []
    ensures LisLength(nums, r)
  {
    var n := |nums|;
    var dp := new int[n](_ => 1);
    ghost var ws := [[0]];
    for i := 1 to n
      invariant |ws| == i && Table(nums, dp[..], ws, i)
      invariant forall k :: i <= k < n ==> dp[k] == 1
    {
      ghost var w := FillEntry(nums, dp, i, ws);
      ws := ws + [w];
    }
    r := MaxElement(dp, nums, ws);
  }

  /** max_element over the finished table. */
  method MaxElement(dp: array<int>, ghost nums: seq<int>, ghost ws: seq<seq<int>>) returns (r: int)
    requires 0 < dp.Length == |nums| && Table(nums, dp[..], ws, |nums|)
    ensures LisLength(nums, r)
  {
    r := dp[0];
    ghost var best := 0;
    for i := 1 to dp.Length
      invariant 0 <= best < i && r == dp[best] && forall k :: 0 <= k < i ==> dp[k] <= r
    {
      if dp[i] > r {
        r, best := dp[i], i;
      }
    }
    assert BestTo(nums, best, best, dp[..][best], ws[best]);
    assert Inc(nums, ws[best], |nums|) && |ws[best]| == r;
    forall ix | Inc(nums, ix, |nums|) ensures |ix| <= r {
      if ix != [] {
        var i := Last(ix);
        assert BestTo(nums, i, i, dp[..][i], ws[i]);
      } else {
        assert r == |ws[best]|;
      }
    }
  }

  // ---------------------------------------------------------------- least tails

  ghost predicate Increasing(d: seq<int>) {
    forall a, b :: 0 <= a < b < |d| ==> d[a] < d[b]
  }

  /** ws[k] is a subsequence of length k+1 among the first n elements that ends with d[k]. */
  ghost predicate Witnessed(s: seq<int>, n: nat, d: seq<int>, ws: seq<seq<int>>) {
    |ws| == |d| && forall k :: 0 <= k < |d| ==> WitnessOk(s, n, k, d[k], ws[k])
  }

  ghost predicate WitnessOk(s: seq<int>, n: nat, k: int, x: int, w: seq<int>) {
    Inc(s, w, n) && |w| == k + 1 && w != [] && s[Last(w)] == x
  }

  /** No subsequence among the first n elements is longer than d or ends lower. */
  ghost predicate LeastTails(s: seq<int>, n: nat, d: seq<int>) {
    forall ix :: Inc(s, ix, n) && ix != [] ==> TailOk(s, d, ix)
  }

  ghost predicate TailOk(s: seq<int>, d: seq<int>, ix: seq<int>)
    requires ix != [] && 0 <= Last(ix) < |s|
  {
    |ix| <= |d| && d[|ix| - 1] <= s[Last(ix)]
  }

  /** d[k] is the least possible tail of an increasing subsequence of length k+1, and d
      has an entry for every length that occurs. */
  ghost predicate Tails(s: seq<int>, n: nat, d: seq<int>, ws: seq<seq<int>>) {
    n <= |s| && Increasing(d) && Witnessed(s, n, d, ws) && LeastTails(s, n, d)
  }

  /** p is where x goes: behind every smaller tail, before every other. */
  ghost predicate Slot(d: seq<int>, p: int, x: int) {
    0 <= p <= |d| && (forall k :: 0 <= k < p ==> d[k] < x) && (forall k :: p <= k < |d| ==> x <= d[k])
  }

  function Put<T>(d: seq<T>, p: nat, x: T): (r: seq<T>)
    requires p <= |d|
    ensures |r| == if p == |d| then |d| + 1 else |d|
  {
    if p == |d| then d + [x] else d[p := x]
  }

  ghost function NewWitness(ws: seq<seq<int>>, p: nat, n: nat): seq<int>
    requires p <= |ws|
  {
    if p == 0 then [n] else ws[p - 1] + [n]
  }

  lemma {:induction false} PutWitness(s: seq<int>, n: nat, d: seq<int>, ws: seq<seq<int>>, p: nat)
    requires n < |s| && Witnessed(s, n, d, ws) && Slot(d, p, s[n])
    ensures Witnessed(s, n + 1, Put(d, p, s[n]), Put(ws, p, NewWitness(ws, p, n)))
  {
    var d', ws' := Put(d, p, s[n]), Put(ws, p, NewWitness(ws, p, n));
    if p > 0 {
      assert WitnessOk(s, n, p - 1, d[p - 1], ws[p - 1]);
      IncAdd(s, ws[p - 1], n);
    }
    forall k | 0 <= k < |d'| ensures WitnessOk(s, n + 1, k, d'[k], ws'[k]) {
      if k != p {
        assert WitnessOk(s, n, k, d[k], ws[k]);
      }
    }
  }

  lemma {:induction false} PutLeast(s: seq<int>, n: nat, d: seq<int>, p: nat, ix: seq<int>)
    requires n < |s| && Increasing(d) && LeastTails(s, n, d) && Slot(d, p, s[n])
    requires Inc(s, ix, n + 1) && ix != []
    ensures TailOk(s, Put(d, p, s[n]), ix)
  {
    if Last(ix) < n {
      assert TailOk(s, d, ix);
    } else if |ix| > 1 {
      assert TailOk(s, d, ix[..|ix| - 1]);
      assert |ix| - 2 < p;
    }
  }

  lemma {:induction false} PutIncreasing(d: seq<int>, p: nat, x: int)
    requires Increasing(d) && Slot(d, p, x)
    ensures Increasing(Put(d, p, x))
  {
  }

  /** Placing the next element keeps the tails least. */
  lemma {:induction false} PutTail(s: seq<int>, n: nat, d: seq<int>, ws: seq<seq<int>>, p: nat)
    requires n < |s| && Tails(s, n, d, ws) && Slot(d, p, s[n])
    ensures Tails(s, n + 1, Put(d, p, s[n]), Put(ws, p, NewWitness(ws, p, n)))
  {
    var m, d' := n + 1, Put(d, p, s[n]);
    PutWitness(s, n, d, ws, p);
    PutIncreasing(d, p, s[n]);
    forall ix | Inc(s, ix, m) && ix != [] ensures TailOk(s, d', ix) {
      PutLeast(s, n, d, p, ix);
    }
  }

  /** Once all elements are placed, the number of tails is the length asked for. */
  lemma {:induction false} TailsCount(s: seq<int>, d: seq<int>, ws: seq<seq<int>>)
    requires Tails(s, |s|, d, ws)
    ensures LisLength(s, |d|)
  {
    if d == [] {
      assert Inc(s, [], |s|);
    } else {
      assert WitnessOk(s, |s|, |d| - 1, d[|d| - 1], ws[|d| - 1]);
    }
    forall ix | Inc(s, ix, |s|) ensures |ix| <= |d| {
      assert ix != [] ==> TailOk(s, d, ix);
    }
  }

  /** The binary search of lengthOfLIS, over d[1..len]; pos is the last entry below x. */
  method LastBelow(d: array<int>, len: nat, x: int) returns (pos: nat)
    requires len < d.Length && Increasing(d[1..len + 1])
    ensures Slot(d[1..len + 1], pos, x)
  {
    ghost var t := d[1..len + 1];
    var l, r := 1, len;
    pos := 0;
    while l <= r
      invariant 1 <= l <= r + 1 <= len + 1 && pos == l - 1
      invariant forall k :: 0 <= k < pos ==> t[k] < x
      invariant forall k :: r <= k < len ==> x <= t[k]
    {
      var mid := (l + r) / 2;
      assert t[mid - 1] == d[mid];
      if d[mid] < x {
        pos := mid;
        l := mid + 1;
      } else {
        r := mid - 1;
      }
    }
  }

  /** One element of the loop: a new last tail, or a lower one in its slot. */
  method PlaceTail(d: array<int>, len: nat, x: int) returns (len': nat, ghost pos: nat)
    requires 1 <= len && len + 1 < d.Length && Increasing(d[1..len + 1])
    modifies d
    ensures Slot(old(d[1..len + 1]), pos, x)
    ensures len <= len' <= len + 1 && d[1..len' + 1] == Put(old(d[1..len + 1]), pos, x)
  {
    ghost var t := d[1..len + 1];
    assert t[len - 1] == d[len];
    if x > d[len] {
      len' := len + 1;
      d[len'] := x;
      pos := len;
    } else {
      var p := LastBelow(d, len, x);
      d[p + 1] := x;
      len', pos := len, p;
    }
  }

  /** One round of the loop keeps the tails. */
  method NextTail(d: array<int>, len: nat, x: int, ghost s: seq<int>, ghost i: nat, ghost ws: seq<seq<int>>)
    returns (len': nat, ghost ws': seq<seq<int>>)
    requires 1 <= len <= i < |s| == d.Length - 1 && x == s[i] && Tails(s, i, d[1..len + 1], ws)
    modifies d
    ensures 1 <= len' <= i + 1 && Tails(s, i + 1, d[1..len' + 1], ws')
  {
    ghost var t := d[1..len + 1];
    ghost var pos;
    len', pos := PlaceTail(d, len, x);
    PutTail(s, i, t, ws, pos);
    ws' := Put(ws, pos, NewWitness(ws, pos, i));
  }

  /** lengthOfLIS by binary search.  d keeps the least tails at 1..len. */
  method LengthOfLis(nums: seq<int>) returns (len: int)
    ensures LisLength(nums, len)
  {
    len := 1;
    var n := |nums|;
    NoTails(nums);
    if n == 0 {
      TailsCount(nums, [], []);
      return 0;
    }
    var d := new int[n + 1](_ => 0);
    d[len] := nums[0];
    PutTail(nums, 0, [], [], 0);
    ghost var ws := [[0]];
    assert d[1..2] == [nums[0]];
    for i := 1 to n
      invariant 1 <= len <= i && Tails(nums, i, d[1..len + 1], ws)
    {
      len, ws := NextTail(d, len, nums[i], nums, i, ws);
    }
    TailsCount(nums, d[1..len + 1], ws);
  }

  lemma {:induction false} NoTails(s: seq<int>)
    ensures Tails(s, 0, [], [])
  {
    forall ix | Inc(s, ix, 0) ensures ix == [] {
      Positions(s, ix, 0);
    }
  }

  lemma {:induction false} Positions(s: seq<int>, ix: seq<int>, n: nat)
    requires Inc(s, ix, n)
    ensures ix == [] || 0 < n
  {
    assert ix != [] ==> 0 <= ix[0] < n;
  }

  // ---------------------------------------------------------------- nested envelopes

  datatype Envelope = Envelope(width: int, height: int)

  /** The comparator handed to sort. */
  predicate Before(a: Envelope, b: Envelope) {
    if a.width == b.width then a.height > b.height else a.width < b.width
  }

  /** What sort may leave behind: a permutation with no later element before an earlier one. */
  ghost predicate SortedBy(sorted: seq<Envelope>, envelopes: seq<Envelope>) {
    && multiset(sorted) == multiset(envelopes)
    && forall i, j :: 0 <= i < j < |sorted| ==> !Before(sorted[j], sorted[i])
  }

  predicate Fits(a: Envelope, b: Envelope) {
    a.width < b.width && a.height < b.height
  }

  /** c is a chain of given envelopes, each one fitting into the next. */
  ghost predicate Chain(c: seq<Envelope>, envelopes: seq<Envelope>) {
    && (forall k :: 0 <= k < |c| ==> c[k] in envelopes)
    && (forall a, b :: 0 <= a < b < |c| ==> Fits(c[a], c[b]))
  }

  function Heights(es: seq<Envelope>): (r: seq<int>)
    ensures |r| == |es| && forall k :: 0 <= k < |es| ==> r[k] == es[k].height
  {
    seq(|es|, k requires 0 <= k < |es| => es[k].height)
  }

  lemma InBoth(sorted: seq<Envelope>, envelopes: seq<Envelope>, e: Envelope)
    requires SortedBy(sorted, envelopes)
    ensures e in sorted <==> e in envelopes
  {
    assert e in multiset(sorted) <==> e in multiset(envelopes);
  }

  /** An increasing subsequence of the heights is a chain: equal widths stand in
      descending height, so they never both occur. */
  lemma {:induction false} ChainOfInc(sorted: seq<Envelope>, envelopes: seq<Envelope>, ix: seq<int>)
    requires SortedBy(sorted, envelopes) && Inc(Heights(sorted), ix, |sorted|)
    ensures exists c :: Chain(c, envelopes) && |c| == |ix|
  {
    var c := seq(|ix|, k requires 0 <= k < |ix| => sorted[ix[k]]);
    forall k | 0 <= k < |c| ensures c[k] in envelopes {
      InBoth(sorted, envelopes, sorted[ix[k]]);
    }
    forall a, b | 0 <= a < b < |c| ensures Fits(c[a], c[b]) {
      assert !Before(sorted[ix[b]], sorted[ix[a]]);
    }
    assert Chain(c, envelopes);
  }

  ghost function Where(sorted: seq<Envelope>, e: Envelope): (i: int)
    requires e in sorted
    ensures 0 <= i < |sorted| && sorted[i] == e
  {
    var i :| 0 <= i < |sorted| && sorted[i] == e;
    i
  }

  lemma {:induction false} IncOfChain(sorted: seq<Envelope>, envelopes: seq<Envelope>, c: seq<Envelope>)
    requires SortedBy(sorted, envelopes) && Chain(c, envelopes)
    ensures exists ix :: Inc(Heights(sorted), ix, |sorted|) && |ix| == |c|
  {
    forall e | e in c ensures e in sorted {
      InBoth(sorted, envelopes, e);
    }
    var ix := seq(|c|, k requires 0 <= k < |c| => Where(sorted, c[k]));
    forall a, b | 0 <= a < b < |ix| ensures ix[a] < ix[b] && Heights(sorted)[ix[a]] < Heights(sorted)[ix[b]] {
      assert Fits(c[a], c[b]);
    }
    assert Inc(Heights(sorted), ix, |sorted|);
  }

  ghost predicate LongestChain(envelopes: seq<Envelope>, r: int) {
    && (exists c :: Chain(c, envelopes) && |c| == r)
    && (forall c :: Chain(c, envelopes) ==> |c| <= r)
  }

  /** Sorting reduces two dimensions to one. */
  lemma {:induction false} ChainsAreSubsequences(sorted: seq<Envelope>, envelopes: seq<Envelope>, r: int)
    requires SortedBy(sorted, envelopes) && LisLength(Heights(sorted), r)
    ensures LongestChain(envelopes, r)
  {
    var ix :| Inc(Heights(sorted), ix, |sorted|) && |ix| == r;
    ChainOfInc(sorted, envelopes, ix);
    forall c | Chain(c, envelopes) ensures |c| <= r {
      IncOfChain(sorted, envelopes, c);
    }
  }

  /** The binary search of maxEnvelopes, over top[0..pile). */
  method FindPile(top: array<int>, pile: nat, p: int) returns (left: nat)
    requires pile <= top.Length && Increasing(top[..pile])
    ensures Slot(top[..pile], left, p)
  {
    ghost var t := top[..pile];
    left := 0;
    var right := pile;
    while left < right
      invariant 0 <= left <= right <= pile
      invariant forall k :: 0 <= k < left ==> t[k] < p
      invariant forall k :: right <= k < pile ==> p <= t[k]
    {
      var mid := (right + left) / 2;
      assert t[mid] == top[mid];
      if top[mid] > p {
        right := mid;
      } else if top[mid] < p {
        left := mid + 1;
      } else {
        right := mid;
      }
    }
  }

  /** One envelope of the loop. */
  method PlaceCard(top: array<int>, pile: nat, p: int) returns (pile': nat, ghost slot: nat)
    requires pile < top.Length && Increasing(top[..pile])
    modifies top
    ensures Slot(old(top[..pile]), slot, p)
    ensures pile <= pile' <= pile + 1 && top[..pile'] == Put(old(top[..pile]), slot, p)
  {
    pile' := pile;
    var left := FindPile(top, pile, p);
    if left == pile {
      pile' := pile + 1;
    }
    top[left] := p;
    slot := left;
  }

  /** One round of the loop keeps the tails. */
  method NextCard(top: array<int>, pile: nat, p: int, ghost hs: seq<int>, ghost i: nat, ghost ws: seq<seq<int>>)
    returns (pile': nat, ghost ws': seq<seq<int>>)
    requires pile <= i < |hs| == top.Length && p == hs[i] && Tails(hs, i, top[..pile], ws)
    modifies top
    ensures pile' <= i + 1 && Tails(hs, i + 1, top[..pile'], ws')
  {
    ghost var t := top[..pile];
    ghost var slot;
    pile', slot := PlaceCard(top, pile, p);
    PutTail(hs, i, t, ws, slot);
    ws' := Put(ws, slot, NewWitness(ws, slot, i));
  }

  /** The loop over the sorted envelopes. */
  method CountPiles(sorted: seq<Envelope>) returns (pile: int)
    ensures LisLength(Heights(sorted), pile)
  {
    var n := |sorted|;
    var top := new int[n];
    pile := 0;
    ghost var hs, ws := Heights(sorted), [];
    NoTails(hs);
    for i := 0 to n
      invariant 0 <= pile <= i && Tails(hs, i, top[..pile], ws)
    {
      pile, ws := NextCard(top, pile, sorted[i].height, hs, i, ws);
    }
    TailsCount(hs, top[..pile], ws);
  }

  /** maxEnvelopes, given whatever sort made of the vector. */
  method MaxEnvelopes(sorted: seq<Envelope>, ghost envelopes: seq<Envelope>) returns (pile: int)
    requires SortedBy(sorted, envelopes)
    ensures LongestChain(envelopes, pile)
  {
    pile := CountPiles(sorted);
    ChainsAreSubsequences(sorted, envelopes, pile);
  }
}
