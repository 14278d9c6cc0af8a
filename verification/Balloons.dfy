/** Bursting balloons for coins: the interval table and the memoised recursion
    against every possible bursting order. */
module Balloons {
  import opened Common

  // ---------------------------------------------------------------- bursting orders

  /** The coins for a balloon between two others.  Splitting and joining orders works for
      every such rule. */
  type Payoff = (int, int, int) -> int

  function Gain(left: int, v: int, right: int): int {
    left * v * right
  }

  /** An order names, burst by burst, a position among the n balloons still there. */
  predicate IsOrder(order: seq<nat>, n: nat) {
    |order| == n && (n == 0 || (order[0] < n && IsOrder(order[1..], n - 1)))
  }

  /** The coins for bursting position i of vs, standing between a and b. */
  function Burst(g: Payoff, a: int, vs: seq<int>, b: int, i: nat): int
    requires i < |vs|
  {
    g(if i == 0 then a else vs[i - 1], vs[i], if i == |vs| - 1 then b else vs[i + 1])
  }

  /** The total for bursting all of vs in the given order. */
  function Coins(g: Payoff, a: int, vs: seq<int>, b: int, order: seq<nat>): int
    requires IsOrder(order, |vs|)
    decreases |vs|
  {
    if vs == [] then 0 else Burst(g, a, vs, b, order[0]) + Coins(g, a, Without(vs, order[0]), b, order[1..])
  }

  /** No order yields more than c for nums, with 1 beyond both ends. */
  ghost predicate NoOrderBeats(c: int, nums: seq<int>) {
    forall order :: IsOrder(order, |nums|) ==> Coins(Gain, 1, nums, 1, order) <= c
  }

  /** c is the most coins any order yields. */
  ghost predicate IsMaxCoins(c: int, nums: seq<int>) {
    && (exists order :: IsOrder(order, |nums|) && Coins(Gain, 1, nums, 1, order) == c)
    && NoOrderBeats(c, nums)
  }

  // ---------------------------------------------------------------- the recurrence

  /** What is found for everything strictly between l and r with m burst last. */
  function LastBurst(g: Payoff, val: seq<int>, l: nat, m: nat, r: nat, floor: int): int
    requires l < m < r < |val|
    decreases r - l, 0
  {
    g(val[l], val[m], val[r]) + Best(g, val, l, m, floor) + Best(g, val, m, r, floor)
  }

  /** The best of floor and of LastBurst over the first choices m, l < m < k. */
  function BestBelow(g: Payoff, val: seq<int>, l: nat, r: nat, k: nat, floor: int): int
    requires l < r < |val| && k <= r
    decreases r - l, 1, k
  {
    if k <= l + 1 then floor
    else Max(BestBelow(g, val, l, r, k - 1, floor), LastBurst(g, val, l, k - 1, r, floor))
  }

  /** What both listings compute for everything strictly between l and r; floor is the
      value their maximum starts from, 0 in the table and -1 in the memo. */
  function Best(g: Payoff, val: seq<int>, l: nat, r: nat, floor: int): int
    requires l < r < |val|
    decreases r - l, 2
  {
    if l + 1 == r then 0 else BestBelow(g, val, l, r, r, floor)
  }

  lemma {:induction false} BestBelowBound(g: Payoff, val: seq<int>, l: nat, r: nat, k: nat, m: nat, floor: int)
    requires l < m < k <= r < |val|
    ensures LastBurst(g, val, l, m, r, floor) <= BestBelow(g, val, l, r, k, floor)
    decreases k
  {
    if m < k - 1 {
      BestBelowBound(g, val, l, r, k - 1, m, floor);
    }
  }

  /** No balloon costs coins. */
  ghost predicate Pays(g: Payoff, val: seq<int>) {
    forall l, m, r :: 0 <= l < m < r < |val| ==> PaysAt(g, val, l, m, r)
  }

  ghost predicate PaysAt(g: Payoff, val: seq<int>, l: nat, m: nat, r: nat)
    requires l < m < r < |val|
  {
    g(val[l], val[m], val[r]) >= 0
  }

  lemma {:induction false} BestPays(g: Payoff, val: seq<int>, l: nat, r: nat, floor: int)
    requires l < r < |val| && Pays(g, val)
    ensures Best(g, val, l, r, floor) >= 0
    decreases r - l
  {
    if l + 1 < r {
      LastBurstPays(g, val, l, l + 1, r, floor);
      BestBelowBound(g, val, l, r, r, l + 1, floor);
    }
  }

  lemma {:induction false} LastBurstPays(g: Payoff, val: seq<int>, l: nat, m: nat, r: nat, floor: int)
    requires l < m < r < |val| && Pays(g, val)
    ensures LastBurst(g, val, l, m, r, floor) >= 0
    decreases r - l, 0
  {
    assert PaysAt(g, val, l, m, r);
    BestPays(g, val, l, m, floor);
    BestPays(g, val, m, r, floor);
  }

  lemma {:induction false} BestBelowReached(g: Payoff, val: seq<int>, l: nat, r: nat, k: nat, floor: int)
    returns (m: nat)
    requires l + 1 < k <= r < |val| && Pays(g, val) && floor <= 0
    ensures l < m < k && LastBurst(g, val, l, m, r, floor) == BestBelow(g, val, l, r, k, floor)
    decreases k
  {
    m := k - 1;
    LastBurstPays(g, val, l, m, r, floor);
    if l + 2 < k && BestBelow(g, val, l, r, k - 1, floor) >= LastBurst(g, val, l, k - 1, r, floor) {
      m := BestBelowReached(g, val, l, r, k - 1, floor);
    }
  }

  // ---------------------------------------------------------------- splitting an order at its last burst

  /** The balloon an order bursts last, and what the order does on either side. */
  datatype Parts = Parts(last: nat, left: seq<nat>, right: seq<nat>)

  ghost predicate PartsOk(p: Parts, n: nat) {
    p.last < n && IsOrder(p.left, p.last) && IsOrder(p.right, n - 1 - p.last)
  }

  function Split(order: seq<nat>, n: nat): (p: Parts)
    requires IsOrder(order, n) && n > 0
    ensures PartsOk(p, n)
    decreases n
  {
    if n == 1 then Parts(0, [], []) else Earlier(order[0], Split(order[1..], n - 1))
  }

  /** The parts when balloon i is burst before everything in p. */
  function Earlier(i: nat, p: Parts): Parts {
    if i <= p.last then Parts(p.last + 1, Cons(i, p.left), p.right)
    else Parts(p.last, p.left, Cons(i - p.last - 1, p.right))
  }

  function Cons(i: nat, o: seq<nat>): (r: seq<nat>)
    ensures |r| == |o| + 1 && r[0] == i && r[1..] == o
  {
    [i] + o
  }

  /** A burst left of balloon k earns the same among the balloons left of k. */
  lemma BurstLeft(g: Payoff, a: int, vs: seq<int>, b: int, k: nat, i: nat)
    requires i < k < |vs|
    ensures Burst(g, a, vs, b, i) == Burst(g, a, vs[..k], vs[k], i)
    ensures var ws := Without(vs, i);
            ws[..k - 1] == Without(vs[..k], i) && ws[k - 1] == vs[k] && ws[k..] == vs[k + 1..]
  {
  }

  /** A burst right of balloon k earns the same among the balloons right of k. */
  lemma BurstRight(g: Payoff, a: int, vs: seq<int>, b: int, k: nat, i: nat)
    requires k < i < |vs|
    ensures Burst(g, a, vs, b, i) == Burst(g, vs[k], vs[k + 1..], b, i - k - 1)
    ensures var ws := Without(vs, i);
            ws[..k] == vs[..k] && ws[k] == vs[k] && ws[k + 1..] == Without(vs[k + 1..], i - k - 1)
  {
  }

  /** The coins earned on both sides of balloon k, plus balloon k between the ends. */
  function SplitTotal(g: Payoff, a: int, vs: seq<int>, b: int, k: nat, left: seq<nat>, right: seq<nat>): int
    requires k < |vs| && IsOrder(left, k) && IsOrder(right, |vs| - k - 1)
  {
    Coins(g, a, vs[..k], vs[k], left) + Coins(g, vs[k], vs[k + 1..], b, right) + g(a, vs[k], b)
  }

  lemma {:induction false} CoinsStep(g: Payoff, a: int, vs: seq<int>, b: int, order: seq<nat>, i: nat, rest: seq<nat>)
    requires i < |vs| && IsOrder(rest, |vs| - 1) && |order| == |vs| && order[0] == i && order[1..] == rest
    ensures IsOrder(order, |vs|)
    ensures Coins(g, a, vs, b, order) == Burst(g, a, vs, b, i) + Coins(g, a, Without(vs, i), b, rest)
  {
  }

  lemma {:induction false} FirstBurstLeft(g: Payoff, a: int, vs: seq<int>, b: int, k: nat, i: nat, left: seq<nat>,
                                          right: seq<nat>)
    requires i < k < |vs| && IsOrder(left, k - 1) && IsOrder(right, |vs| - k - 1)
    ensures IsOrder(Cons(i, left), k)
    ensures SplitTotal(g, a, vs, b, k, Cons(i, left), right)
         == Burst(g, a, vs, b, i) + SplitTotal(g, a, Without(vs, i), b, k - 1, left, right)
  {
    BurstLeft(g, a, vs, b, k, i);
    CoinsStep(g, a, vs[..k], vs[k], Cons(i, left), i, left);
  }

  lemma {:induction false} FirstBurstRight(g: Payoff, a: int, vs: seq<int>, b: int, k: nat, i: nat, left: seq<nat>,
                                           right: seq<nat>)
    requires k < i < |vs| && IsOrder(left, k) && IsOrder(right, |vs| - k - 2)
    ensures IsOrder(Cons(i - k - 1, right), |vs| - k - 1)
    ensures SplitTotal(g, a, vs, b, k, left, Cons(i - k - 1, right))
         == Burst(g, a, vs, b, i) + SplitTotal(g, a, Without(vs, i), b, k, left, right)
  {
    BurstRight(g, a, vs, b, k, i);
    CoinsStep(g, vs[k], vs[k + 1..], b, Cons(i - k - 1, right), i - k - 1, right);
  }

  /** The split total after a first burst i, on whichever side of the last balloon. */
  lemma {:induction false} FirstBurst(g: Payoff, a: int, vs: seq<int>, b: int, i: nat, q: Parts)
    requires |vs| > 1 && i < |vs| && PartsOk(q, |vs| - 1)
    ensures var p := Earlier(i, q);
            PartsOk(p, |vs|)
            && SplitTotal(g, a, vs, b, p.last, p.left, p.right)
               == Burst(g, a, vs, b, i) + SplitTotal(g, a, Without(vs, i), b, q.last, q.left, q.right)
  {
    if i <= q.last {
      FirstBurstLeft(g, a, vs, b, q.last + 1, i, q.left, q.right);
    } else {
      FirstBurstRight(g, a, vs, b, q.last, i, q.left, q.right);
    }
  }

  lemma {:induction false} SplitSingle(g: Payoff, a: int, vs: seq<int>, b: int, left: seq<nat>, right: seq<nat>)
    requires |vs| == 1 && left == right == []
    ensures Burst(g, a, vs, b, 0) + Coins(g, a, Without(vs, 0), b, []) == SplitTotal(g, a, vs, b, 0, left, right)
  {
  }

  /** The coins of an order are those on both sides of its last balloon, plus that
      balloon between the two ends. */
  lemma {:induction false} SplitCoins(g: Payoff, a: int, vs: seq<int>, b: int, order: seq<nat>, p: Parts)
    requires IsOrder(order, |vs|) && vs != [] && p == Split(order, |vs|)
    ensures Coins(g, a, vs, b, order) == SplitTotal(g, a, vs, b, p.last, p.left, p.right)
    decreases |vs|
  {
    var i, rest := order[0], order[1..];
    CoinsStep(g, a, vs, b, order, i, rest);
    if |vs| > 1 {
      var q := Split(rest, |vs| - 1);
      SplitCoins(g, a, Without(vs, i), b, rest, q);
      FirstBurst(g, a, vs, b, i, q);
    } else {
      SplitSingle(g, a, vs, b, p.left, p.right);
    }
  }

  /** Balloon m between l and r, all of them standing in one row. */
  lemma {:induction false} SplitInRow(g: Payoff, val: seq<int>, l: nat, m: nat, r: nat, left: seq<nat>, right: seq<nat>)
    requires l < m < r < |val| && IsOrder(left, m - l - 1) && IsOrder(right, r - m - 1)
    ensures SplitTotal(g, val[l], val[l + 1..r], val[r], m - l - 1, left, right)
         == Coins(g, val[l], val[l + 1..m], val[m], left) + Coins(g, val[m], val[m + 1..r], val[r], right)
            + g(val[l], val[m], val[r])
  {
    Row(val, l, m, r);
  }

  lemma {:induction false} Row(val: seq<int>, l: nat, m: nat, r: nat)
    requires l < m < r < |val|
    ensures var vs, k := val[l + 1..r], m - l - 1;
            vs[..k] == val[l + 1..m] && vs[k] == val[m] && vs[k + 1..] == val[m + 1..r]
  {
  }

  /** No order earns more than the recurrence says. */
  lemma {:induction false} CoinsBound(g: Payoff, val: seq<int>, l: nat, r: nat, order: seq<nat>, floor: int)
    requires l < r < |val| && IsOrder(order, r - l - 1)
    ensures Coins(g, val[l], val[l + 1..r], val[r], order) <= Best(g, val, l, r, floor)
    decreases r - l
  {
    if l + 1 < r {
      var p := Split(order, r - l - 1);
      var m := l + 1 + p.last;
      SplitCoins(g, val[l], val[l + 1..r], val[r], order, p);
      SplitInRow(g, val, l, m, r, p.left, p.right);
      CoinsBound(g, val, l, m, p.left, floor);
      CoinsBound(g, val, m, r, p.right, floor);
      BestBelowBound(g, val, l, r, r, m, floor);
    }
  }

  // ---------------------------------------------------------------- joining two orders

  /** Bursting left of balloon k, then right of it, then balloon k. */
  lemma {:induction false} JoinOrders(g: Payoff, a: int, vs: seq<int>, b: int, k: nat, left: seq<nat>, right: seq<nat>)
    returns (order: seq<nat>)
    requires k < |vs| && IsOrder(left, k) && IsOrder(right, |vs| - k - 1)
    ensures IsOrder(order, |vs|)
    ensures Coins(g, a, vs, b, order) == SplitTotal(g, a, vs, b, k, left, right)
    decreases |vs|, 1
  {
    if k > 0 {
      var q := Parts(k - 1, left[1..], right);
      assert left == Cons(left[0], q.left);
      order := JoinEarlier(g, a, vs, b, left[0], q);
    } else if |vs| > 1 {
      var q := Parts(0, left, right[1..]);
      assert right == Cons(right[0], q.right);
      order := JoinEarlier(g, a, vs, b, right[0] + 1, q);
    } else {
      order := [0];
      CoinsStep(g, a, vs, b, order, 0, []);
      SplitSingle(g, a, vs, b, left, right);
    }
  }

  /** First balloon i, then what joins the parts q of the others. */
  lemma {:induction false} JoinEarlier(g: Payoff, a: int, vs: seq<int>, b: int, i: nat, q: Parts)
    returns (order: seq<nat>)
    requires |vs| > 1 && i < |vs| && PartsOk(q, |vs| - 1)
    ensures var p := Earlier(i, q);
            IsOrder(order, |vs|) && PartsOk(p, |vs|)
            && Coins(g, a, vs, b, order) == SplitTotal(g, a, vs, b, p.last, p.left, p.right)
    decreases |vs|, 0
  {
    var rest := JoinOrders(g, a, Without(vs, i), b, q.last, q.left, q.right);
    order := Cons(i, rest);
    CoinsStep(g, a, vs, b, order, i, rest);
    FirstBurst(g, a, vs, b, i, q);
  }

  lemma {:induction false} JoinInRow(g: Payoff, val: seq<int>, l: nat, m: nat, r: nat, left: seq<nat>, right: seq<nat>)
    returns (order: seq<nat>)
    requires l < m < r < |val| && IsOrder(left, m - l - 1) && IsOrder(right, r - m - 1)
    ensures IsOrder(order, r - l - 1)
    ensures Coins(g, val[l], val[l + 1..r], val[r], order)
         == Coins(g, val[l], val[l + 1..m], val[m], left) + Coins(g, val[m], val[m + 1..r], val[r], right)
            + g(val[l], val[m], val[r])
  {
    SplitInRow(g, val, l, m, r, left, right);
    order := JoinOrders(g, val[l], val[l + 1..r], val[r], m - l - 1, left, right);
  }

  /** Where no balloon costs coins, some order earns what the recurrence says. */
  lemma {:induction false} CoinsReached(g: Payoff, val: seq<int>, l: nat, r: nat, floor: int) returns (order: seq<nat>)
    requires l < r < |val| && Pays(g, val) && floor <= 0
    ensures IsOrder(order, r - l - 1)
    ensures Coins(g, val[l], val[l + 1..r], val[r], order) == Best(g, val, l, r, floor)
    decreases r - l
  {
    order := [];
    if l + 1 < r {
      var m := BestBelowReached(g, val, l, r, r, floor);
      var left := CoinsReached(g, val, l, m, floor);
      var right := CoinsReached(g, val, m, r, floor);
      order := JoinInRow(g, val, l, m, r, left, right);
    }
  }

  function Framed(nums: seq<int>): seq<int> {
    [1] + nums + [1]
  }

  /** What a listing whose maximum starts from floor answers for nums. */
  function Answer(nums: seq<int>, floor: int): int {
    Best(Gain, Framed(nums), 0, |nums| + 1, floor)
  }

  ghost predicate NonNegative(nums: seq<int>) {
    forall i :: 0 <= i < |nums| ==> nums[i] >= 0
  }

  lemma {:induction false} GainPays(a: int, b: int, c: int)
    requires a >= 0 && b >= 0 && c >= 0
    ensures Gain(a, b, c) >= 0
  {
    assert a * b >= 0;
  }

  lemma {:induction false} FramedPays(nums: seq<int>)
    requires NonNegative(nums)
    ensures Pays(Gain, Framed(nums))
  {
    var val := Framed(nums);
    assert forall i :: 0 <= i < |val| ==> val[i] >= 0;
    forall l, m, r | 0 <= l < m < r < |val| ensures PaysAt(Gain, val, l, m, r) {
      GainPays(val[l], val[m], val[r]);
    }
  }

  /** For every input no order beats the answer. */
  lemma {:induction false} AnswerBounds(nums: seq<int>, floor: int)
    ensures NoOrderBeats(Answer(nums, floor), nums)
  {
    var val, r := Framed(nums), |nums| + 1;
    assert val[1..r] == nums;
    forall o | IsOrder(o, |nums|) ensures Coins(Gain, 1, nums, 1, o) <= Answer(nums, floor) {
      CoinsBound(Gain, val, 0, r, o, floor);
    }
  }

  /** Without negative values it is the most coins over all bursting orders. */
  lemma {:induction false} AnswerIsMax(nums: seq<int>, floor: int)
    requires NonNegative(nums) && floor <= 0
    ensures IsMaxCoins(Answer(nums, floor), nums)
  {
    var val, r := Framed(nums), |nums| + 1;
    assert val[1..r] == nums;
    FramedPays(nums);
    AnswerBounds(nums, floor);
    var order := CoinsReached(Gain, val, 0, r, floor);
    assert IsOrder(order, |nums|) && Coins(Gain, 1, nums, 1, order) == Answer(nums, floor);
  }

  // ---------------------------------------------------------------- negative values

  /** One balloon: the only order earns its value, and the answer is at least floor. */
  lemma {:induction false} SingleAnswer(v: int, floor: int)
    ensures IsMaxCoins(Answer([v], floor), [v]) <==> v >= floor
  {
    var val := Framed([v]);
    assert LastBurst(Gain, val, 0, 1, 2, floor) == v;
    assert BestBelow(Gain, val, 0, 2, 1, floor) == floor;
    assert Answer([v], floor) == Max(floor, v);
    forall order | IsOrder(order, 1) ensures Coins(Gain, 1, [v], 1, order) == v {
      assert order[1..] == [] && Without([v], 0) == [];
    }
    var only: seq<nat> := [0];
    assert only[1..] == [] && IsOrder(only, 1);
  }

  /** The table is right on nums and on every stretch of it if and only if no value is
      negative. */
  lemma {:induction false} TableRightIff(nums: seq<int>)
    ensures (forall i, j :: 0 <= i <= j <= |nums| ==> IsMaxCoins(Answer(nums[i..j], 0), nums[i..j])) <==>
            NonNegative(nums)
  {
    if NonNegative(nums) {
      forall i, j | 0 <= i <= j <= |nums| ensures IsMaxCoins(Answer(nums[i..j], 0), nums[i..j]) {
        AnswerIsMax(nums[i..j], 0);
      }
    } else {
      var i :| 0 <= i < |nums| && nums[i] < 0;
      SingleAnswer(nums[i], 0);
      assert nums[i..i + 1] == [nums[i]];
    }
  }

  /** The table answers 0 for a single -1, which no order pays, and the memo -1 for a
      single -2. */
  lemma {:induction false} NegativeFails()
    ensures !IsMaxCoins(Answer([-1], 0), [-1]) && !IsMaxCoins(Answer([-2], -1), [-2])
  {
    SingleAnswer(-1, 0);
    SingleAnswer(-2, -1);
  }

  // ---------------------------------------------------------------- the interval table

  ghost predicate Sized(dp: array2<int>, val: seq<int>) {
    dp.Length0 == dp.Length1 == |val|
  }

  /** Cell (x, y) of the table is right. */
  ghost predicate CellOk(dp: array2<int>, val: seq<int>, x: nat, y: nat)
    requires Sized(dp, val) && x < y < |val|
    reads dp
  {
    dp[x, y] == Best(Gain, val, x, y, 0)
  }

  lemma {:induction false} GainOrder(a: int, b: int, c: int)
    ensures a * b * c == Gain(a, c, b)
  {
  }

  /** The innermost loop: the best last burst k between i and j. */
  method FillCell(dp: array2<int>, nums2: seq<int>, i: nat, j: nat)
    requires Sized(dp, nums2) && i < j < |nums2| && dp[i, j] == 0
    requires forall y :: i < y < j ==> CellOk(dp, nums2, i, y)
    requires forall x :: i < x < j ==> CellOk(dp, nums2, x, j)
    modifies dp
    ensures CellOk(dp, nums2, i, j)
    ensures forall x, y :: 0 <= x < |nums2| && 0 <= y < |nums2| && (x, y) != (i, j) ==> dp[x, y] == old(dp[x, y])
  {
    for k := i + 1 to j
      invariant dp[i, j] == BestBelow(Gain, nums2, i, j, k, 0)
      invariant forall x, y :: 0 <= x < |nums2| && 0 <= y < |nums2| && (x, y) != (i, j) ==> dp[x, y] == old(dp[x, y])
    {
      assert old(CellOk(dp, nums2, i, k)) && old(CellOk(dp, nums2, k, j));
      var coins := Product(nums2[i], nums2[j], nums2[k]) + dp[i, k] + dp[k, j];
      dp[i, j] := Max(dp[i, j], coins);
    }
  }

  /** nums2[i] * nums2[j] * nums2[k], the last balloon between the two ends. */
  function Product(a: int, b: int, c: int): (p: int)
    ensures p == Gain(a, c, b)
  {
    GainOrder(a, b, c);
    a * b * c
  }

  /** maxCoins, bottom up. */
  method MaxCoins(nums: seq<int>) returns (r: int)
    ensures r == Answer(nums, 0) && NoOrderBeats(r, nums)
    ensures NonNegative(nums) ==> IsMaxCoins(r, nums)
  {
    var len := |nums|;
    var nums2 := Framed(nums);
    var dp := new int[len + 2, len + 2]((_, _) => 0);
    var i := len;
    while i >= 0
      invariant -1 <= i <= len
      invariant forall x, y :: i < x < y < len + 2 ==> CellOk(dp, nums2, x, y)
      invariant forall x, y :: 0 <= x <= i && 0 <= y < len + 2 ==> dp[x, y] == 0
    {
      FillRow(dp, nums2, i);
      i := i - 1;
    }
    assert CellOk(dp, nums2, 0, len + 1);
    AnswerBounds(nums, 0);
    if NonNegative(nums) {
      AnswerIsMax(nums, 0);
    }
    r := dp[0, len + 1];
  }

  /** The middle loop: row i from the diagonal to the right. */
  method FillRow(dp: array2<int>, nums2: seq<int>, i: nat)
    requires Sized(dp, nums2) && i + 1 < |nums2|
    requires forall x, y :: i < x < y < |nums2| ==> CellOk(dp, nums2, x, y)
    requires forall y :: 0 <= y < |nums2| ==> dp[i, y] == 0
    modifies dp
    ensures forall x, y :: i <= x < y < |nums2| ==> CellOk(dp, nums2, x, y)
    ensures forall x, y :: 0 <= x < i && 0 <= y < |nums2| ==> dp[x, y] == old(dp[x, y])
  {
    for j := i + 1 to |nums2|
      invariant forall x, y :: i < x < y < |nums2| ==> CellOk(dp, nums2, x, y)
      invariant forall y :: i < y < j ==> CellOk(dp, nums2, i, y)
      invariant forall y :: j <= y < |nums2| ==> dp[i, y] == 0
      invariant forall x, y :: 0 <= x < i && 0 <= y < |nums2| ==> dp[x, y] == old(dp[x, y])
    {
      label L:
      FillCell(dp, nums2, i, j);
      forall x, y | i <= x < y < |nums2| && (x > i || y < j) ensures CellOk(dp, nums2, x, y) {
        assert old@L(CellOk(dp, nums2, x, y));
      }
    }
  }

  // ---------------------------------------------------------------- the memoised recursion

  /** rec.resize(n, vector<int>(n, -1)): rows that are there stay as they are. */
  function Resized(rec: seq<seq<int>>, n: nat): (r: seq<seq<int>>)
    ensures |r| == n
  {
    if n <= |rec| then rec[..n] else rec + seq(n - |rec|, _ => seq(n, _ => -1))
  }

  /** solve(l, r) reads only cells that exist: the one of its own interval, and if that is
      empty those of every smaller one. */
  predicate InBounds(memo: seq<seq<int>>, l: nat, r: nat)
    requires l < r < |memo|
    decreases r - l
  {
    || l + 1 == r
    || (r < |memo[l]|
        && (memo[l][r] != -1 || forall m :: l < m < r ==> InBounds(memo, l, m) && InBounds(memo, m, r)))
  }

  /** What solve(l, r) returns when memo is what the object holds: a cell other than -1 is
      believed, whatever it stems from. */
  function Recalled(memo: seq<seq<int>>, val: seq<int>, l: nat, r: nat): int
    requires l < r < |val| == |memo| && InBounds(memo, l, r)
    decreases r - l, 2
  {
    if l + 1 == r then 0
    else if memo[l][r] != -1 then memo[l][r]
    else RecalledBelow(memo, val, l, r, r)
  }

  function RecalledBelow(memo: seq<seq<int>>, val: seq<int>, l: nat, r: nat, k: nat): int
    requires l < r < |val| == |memo| && k <= r && forall m :: l < m < r ==> InBounds(memo, l, m) && InBounds(memo, m, r)
    decreases r - l, 1, k
  {
    if k <= l + 1 then -1
    else
      var sum := Gain(val[l], val[k - 1], val[r]) + Recalled(memo, val, l, k - 1) + Recalled(memo, val, k - 1, r);
      Max(RecalledBelow(memo, val, l, r, k - 1), sum)
  }

  /** Every cell that may be read is empty or right. */
  ghost predicate MemoRight(memo: seq<seq<int>>, val: seq<int>) {
    && |memo| == |val|
    && forall x, y :: 0 <= x && x + 2 <= y < |val| ==> CellRight(memo, val, x, y)
  }

  ghost predicate CellRight(memo: seq<seq<int>>, val: seq<int>, x: nat, y: nat)
    requires x + 2 <= y < |val| == |memo|
  {
    y < |memo[x]| && (memo[x][y] == -1 || memo[x][y] == Best(Gain, val, x, y, -1))
  }

  lemma {:induction false} RightInBounds(memo: seq<seq<int>>, val: seq<int>, l: nat, r: nat)
    requires MemoRight(memo, val) && l < r < |val|
    ensures InBounds(memo, l, r)
    decreases r - l
  {
    if l + 1 < r {
      assert CellRight(memo, val, l, r);
      forall m | l < m < r ensures InBounds(memo, l, m) && InBounds(memo, m, r) {
        RightInBounds(memo, val, l, m);
        RightInBounds(memo, val, m, r);
      }
    }
  }

  /** Such a memo changes no answer. */
  lemma {:induction false} RecalledRight(memo: seq<seq<int>>, val: seq<int>, l: nat, r: nat)
    requires MemoRight(memo, val) && l < r < |val|
    ensures InBounds(memo, l, r) && Recalled(memo, val, l, r) == Best(Gain, val, l, r, -1)
    decreases r - l, 2
  {
    RightInBounds(memo, val, l, r);
    if l + 1 < r {
      assert CellRight(memo, val, l, r);
      if memo[l][r] == -1 {
        RecalledBelowRight(memo, val, l, r, r);
      }
    }
  }

  lemma {:induction false} RecalledBelowRight(memo: seq<seq<int>>, val: seq<int>, l: nat, r: nat, k: nat)
    requires MemoRight(memo, val) && l < r < |val| && k <= r
    ensures forall m :: l < m < r ==> InBounds(memo, l, m) && InBounds(memo, m, r)
    ensures RecalledBelow(memo, val, l, r, k) == BestBelow(Gain, val, l, r, k, -1)
    decreases r - l, 1, k
  {
    forall m | l < m < r ensures InBounds(memo, l, m) && InBounds(memo, m, r) {
      RightInBounds(memo, val, l, m);
      RightInBounds(memo, val, m, r);
    }
    if k > l + 1 {
      RecalledBelowRight(memo, val, l, r, k - 1);
      RecalledRight(memo, val, l, k - 1);
      RecalledRight(memo, val, k - 1, r);
    }
  }

  /** A memo without rows is empty after resizing, and so changes no answer. */
  lemma {:induction false} FreshRight(val: seq<int>)
    ensures MemoRight(Resized([], |val|), val)
  {
    var memo := Resized([], |val|);
    forall x, y | 0 <= x && x + 2 <= y < |val| ensures CellRight(memo, val, x, y) {
      assert memo[x] == seq(|val|, _ => -1);
    }
  }

  ghost predicate SameShape(a: seq<seq<int>>, b: seq<seq<int>>) {
    |a| == |b| && forall x :: 0 <= x < |a| ==> |a[x]| == |b[x]|
  }

  /** Cell (x, y) of rec holds what memo makes of it. */
  ghost predicate Filled(memo: seq<seq<int>>, rec: seq<seq<int>>, val: seq<int>, x: nat, y: nat)
    requires |val| == |memo| && SameShape(memo, rec) && x < |rec| && y < |rec[x]|
  {
    x + 2 <= y < |val| && InBounds(memo, x, y) && rec[x][y] == Recalled(memo, val, x, y)
  }

  /** From rec to rec', cells of intervals inside [l, r] may be filled, and no others change. */
  ghost predicate Improved(memo: seq<seq<int>>, rec: seq<seq<int>>, rec': seq<seq<int>>, val: seq<int>, l: nat, r: nat)
    requires |val| == |memo|
  {
    && SameShape(memo, rec) && SameShape(memo, rec')
    && forall x, y :: 0 <= x < |rec| && 0 <= y < |rec[x]| ==> CellImproved(memo, rec, rec', val, l, r, x, y)
  }

  ghost predicate CellImproved(memo: seq<seq<int>>, rec: seq<seq<int>>, rec': seq<seq<int>>, val: seq<int>, l: nat,
                               r: nat, x: nat, y: nat)
    requires |val| == |memo| && SameShape(memo, rec) && SameShape(memo, rec') && x < |rec| && y < |rec[x]|
  {
    rec'[x][y] == rec[x][y] || (l <= x && y <= r && Filled(memo, rec', val, x, y))
  }

  /** The cells inside [l, r] are as in memo or filled; the top one may be left out. */
  ghost predicate Over(memo: seq<seq<int>>, rec: seq<seq<int>>, val: seq<int>, l: nat, r: nat, top: bool)
    requires |val| == |memo|
  {
    && SameShape(memo, rec)
    && forall x, y :: l <= x < |rec| && x + 2 <= y <= r && y < |rec[x]| && (top || (x, y) != (l, r)) ==>
         CellOver(memo, rec, val, x, y)
  }

  ghost predicate CellOver(memo: seq<seq<int>>, rec: seq<seq<int>>, val: seq<int>, x: nat, y: nat)
    requires |val| == |memo| && SameShape(memo, rec) && x < |rec| && y < |rec[x]|
  {
    rec[x][y] == memo[x][y] || Filled(memo, rec, val, x, y)
  }

  /** A call on a smaller interval keeps all that. */
  lemma {:induction false} OverKept(memo: seq<seq<int>>, rec: seq<seq<int>>, rec': seq<seq<int>>, val: seq<int>,
                                    left: nat, right: nat, l: nat, r: nat)
    requires |val| == |memo| && left <= l && r <= right && (l, r) != (left, right)
    requires Over(memo, rec, val, left, right, false) && Improved(memo, rec, rec', val, l, r)
    ensures Over(memo, rec', val, left, right, false)
  {
    forall x, y | left <= x < |rec'| && x + 2 <= y <= right && y < |rec'[x]| && (x, y) != (left, right)
      ensures CellOver(memo, rec', val, x, y)
    {
      assert CellOver(memo, rec, val, x, y) && CellImproved(memo, rec, rec', val, l, r, x, y);
    }
  }

  lemma {:induction false} OverInside(memo: seq<seq<int>>, rec: seq<seq<int>>, val: seq<int>,
                                      left: nat, right: nat, l: nat, r: nat)
    requires |val| == |memo| && left <= l && r <= right && (l, r) != (left, right)
    requires Over(memo, rec, val, left, right, false)
    ensures Over(memo, rec, val, l, r, true)
  {
    forall x, y | l <= x < |rec| && x + 2 <= y <= r && y < |rec[x]| ensures CellOver(memo, rec, val, x, y) {
    }
  }

  /** All of rec0 but the top cell is kept or filled while the loop of (left, right) runs. */
  ghost predicate Between(memo: seq<seq<int>>, rec0: seq<seq<int>>, rec: seq<seq<int>>, val: seq<int>, left: nat,
                          right: nat)
    requires |val| == |memo|
  {
    && SameShape(memo, rec0) && SameShape(memo, rec)
    && forall x, y :: 0 <= x < |rec0| && 0 <= y < |rec0[x]| && (x, y) != (left, right) ==>
         CellImproved(memo, rec0, rec, val, left, right, x, y)
  }

  lemma {:induction false} BetweenKept(memo: seq<seq<int>>, rec0: seq<seq<int>>, rec: seq<seq<int>>,
                                       rec': seq<seq<int>>, val: seq<int>, left: nat, right: nat, l: nat, r: nat)
    requires |val| == |memo| && left <= l && r <= right && (l, r) != (left, right)
    requires Between(memo, rec0, rec, val, left, right) && Improved(memo, rec, rec', val, l, r)
    ensures Between(memo, rec0, rec', val, left, right)
  {
    forall x, y | 0 <= x < |rec0| && 0 <= y < |rec0[x]| && (x, y) != (left, right)
      ensures CellImproved(memo, rec0, rec', val, left, right, x, y)
    {
      assert CellImproved(memo, rec0, rec, val, left, right, x, y) && CellImproved(memo, rec, rec', val, l, r, x, y);
    }
  }

  /** The first row of the interval is filled below i. */
  ghost predicate RowFilled(memo: seq<seq<int>>, rec: seq<seq<int>>, val: seq<int>, left: nat, i: nat)
    requires |val| == |memo|
  {
    && SameShape(memo, rec) && left < |rec| && i <= |rec[left]|
    && forall y :: left + 2 <= y < i ==> Filled(memo, rec, val, left, y)
  }

  lemma {:induction false} RowKept(memo: seq<seq<int>>, rec: seq<seq<int>>, rec': seq<seq<int>>, val: seq<int>,
                                   left: nat, i: nat, l: nat, r: nat)
    requires |val| == |memo| && RowFilled(memo, rec, val, left, i) && Improved(memo, rec, rec', val, l, r)
    ensures RowFilled(memo, rec', val, left, i)
  {
    forall y | left + 2 <= y < i ensures Filled(memo, rec', val, left, y) {
      assert Filled(memo, rec, val, left, y) && CellImproved(memo, rec, rec', val, l, r, left, y);
    }
  }

  /** What the loop of solve(left, right) keeps while smaller intervals are solved. */
  ghost predicate Looping(memo: seq<seq<int>>, rec0: seq<seq<int>>, rec: seq<seq<int>>, val: seq<int>,
                          left: nat, right: nat, i: nat)
    requires |val| == |memo|
  {
    && Over(memo, rec, val, left, right, false) && Between(memo, rec0, rec, val, left, right)
    && RowFilled(memo, rec, val, left, i)
  }

  lemma {:induction false} LoopingKept(memo: seq<seq<int>>, rec0: seq<seq<int>>, rec: seq<seq<int>>,
                                       rec': seq<seq<int>>, val: seq<int>, left: nat, right: nat,
                                       l: nat, r: nat, i: nat)
    requires |val| == |memo| && left <= l && r <= right && (l, r) != (left, right)
    requires Looping(memo, rec0, rec, val, left, right, i) && Improved(memo, rec, rec', val, l, r)
    requires left < |rec| && right < |rec[left]|
    ensures Looping(memo, rec0, rec', val, left, right, i) && rec'[left][right] == rec[left][right]
  {
    OverKept(memo, rec, rec', val, left, right, l, r);
    BetweenKept(memo, rec0, rec, rec', val, left, right, l, r);
    RowKept(memo, rec, rec', val, left, i, l, r);
    assert CellImproved(memo, rec, rec', val, l, r, left, right);
  }

  lemma {:induction false} TopSet(memo: seq<seq<int>>, rec0: seq<seq<int>>, rec: seq<seq<int>>, rec': seq<seq<int>>,
                                  val: seq<int>, left: nat, right: nat, i: nat, v: int)
    requires |val| == |memo| && Looping(memo, rec0, rec, val, left, right, i) && i <= right
    requires left < |rec| && right < |rec[left]| && rec' == rec[left := rec[left][right := v]]
    ensures Looping(memo, rec0, rec', val, left, right, i)
  {
    forall x, y | left <= x < |rec'| && x + 2 <= y <= right && y < |rec'[x]| && (x, y) != (left, right)
      ensures CellOver(memo, rec', val, x, y)
    {
      assert CellOver(memo, rec, val, x, y);
    }
    forall x, y | 0 <= x < |rec0| && 0 <= y < |rec0[x]| && (x, y) != (left, right)
      ensures CellImproved(memo, rec0, rec', val, left, right, x, y)
    {
      assert CellImproved(memo, rec0, rec, val, left, right, x, y);
    }
    forall y | left + 2 <= y < i ensures Filled(memo, rec', val, left, y) {
      assert Filled(memo, rec, val, left, y);
    }
  }

  /** When the loop is done the top cell is filled too. */
  lemma {:induction false} TopFilled(memo: seq<seq<int>>, rec0: seq<seq<int>>, rec: seq<seq<int>>, val: seq<int>,
                                     left: nat, right: nat)
    requires left + 2 <= right < |val| == |memo| && InBounds(memo, left, right) && memo[left][right] == -1
    requires Looping(memo, rec0, rec, val, left, right, right)
    requires right < |rec[left]| && rec[left][right] == RecalledBelow(memo, val, left, right, right)
    ensures Improved(memo, rec0, rec, val, left, right) && RowFilled(memo, rec, val, left, right + 1)
  {
    assert Filled(memo, rec, val, left, right);
    forall x, y | 0 <= x < |rec0| && 0 <= y < |rec0[x]| ensures CellImproved(memo, rec0, rec, val, left, right, x, y) {
    }
  }

  class Solution {
    var rec: seq<seq<int>>
    var val: seq<int>

    constructor ()
      ensures rec == []
    {
      rec, val := [], [];
    }

    /** solve, on any memo whose cells it can read; memo is what the object held when the
        outermost call began. */
    method Solve(left: nat, right: nat, ghost memo: seq<seq<int>>) returns (r: int)
      requires left < right < |val| == |memo| && InBounds(memo, left, right)
      requires Over(memo, rec, val, left, right, true)
      modifies this`rec
      ensures r == Recalled(memo, val, left, right) && Improved(memo, old(rec), rec, val, left, right)
      ensures left + 2 <= right ==> Filled(memo, rec, val, left, right)
      ensures left + 2 <= right && old(rec)[left][right] == -1 ==> RowFilled(memo, rec, val, left, right + 1)
      ensures left + 1 == right || old(rec)[left][right] != -1 ==> rec == old(rec)
      decreases right - left, 1
    {
      if left >= right - 1 {
        return 0;
      }
      assert CellOver(memo, rec, val, left, right);
      if rec[left][right] != -1 {
        return rec[left][right];
      }
      ghost var rec0 := rec;
      var i := left + 1;
      while i < right
        invariant left + 1 <= i <= right && Looping(memo, rec0, rec, val, left, right, i)
        invariant rec[left][right] == RecalledBelow(memo, val, left, right, i)
      {
        SolveLast(left, i, right, memo, rec0);
        i := i + 1;
      }
      TopFilled(memo, rec0, rec, val, left, right);
      r := rec[left][right];
    }

    /** One turn of solve's loop: balloon i is burst last. */
    method SolveLast(left: nat, i: nat, right: nat, ghost memo: seq<seq<int>>, ghost rec0: seq<seq<int>>)
      requires left < i < right < |val| == |memo| && InBounds(memo, left, right) && memo[left][right] == -1
      requires Looping(memo, rec0, rec, val, left, right, i)
      requires rec[left][right] == RecalledBelow(memo, val, left, right, i)
      modifies this`rec
      ensures Looping(memo, rec0, rec, val, left, right, i + 1)
      ensures rec[left][right] == RecalledBelow(memo, val, left, right, i + 1)
      decreases right - left, 0
    {
      var sum := Gain(val[left], val[i], val[right]);
      ghost var before := rec;
      OverInside(memo, rec, val, left, right, left, i);
      var a := Solve(left, i, memo);
      LoopingKept(memo, rec0, before, rec, val, left, right, left, i, i);
      assert RowFilled(memo, rec, val, left, i + 1);
      before := rec;
      OverInside(memo, rec, val, left, right, i, right);
      var b := Solve(i, right, memo);
      LoopingKept(memo, rec0, before, rec, val, left, right, i, right, i + 1);
      sum := sum + a + b;
      before := rec;
      rec := rec[left := rec[left][right := Max(rec[left][right], sum)]];
      TopSet(memo, rec0, before, rec, val, left, right, i + 1, Max(before[left][right], sum));
    }

    /** maxCoins, by memoised recursion, on an object that may have been used before. */
    method MaxCoins(nums: seq<int>) returns (r: int)
      requires InBounds(Resized(rec, |nums| + 2), 0, |nums| + 1)
      modifies this
      ensures var memo, n := Resized(old(rec), |nums| + 2), |nums|;
              && r == Recalled(memo, Framed(nums), 0, n + 1)
              && (n == 0 || memo[0][n + 1] != -1 ==> rec == memo)
              && (n > 0 && memo[0][n + 1] == -1 ==> RowFilled(memo, rec, Framed(nums), 0, n + 2))
              && SameShape(memo, rec)
      ensures MemoRight(Resized(old(rec), |nums| + 2), Framed(nums)) ==>
                r == Answer(nums, -1) && NoOrderBeats(r, nums) && (NonNegative(nums) ==> IsMaxCoins(r, nums))
    {
      var n := |nums|;
      val := Framed(nums);
      rec := Resized(rec, n + 2);
      ghost var memo := rec;
      r := Solve(0, n + 1, memo);
      if MemoRight(memo, val) {
        RecalledRight(memo, val, 0, n + 1);
        AnswerBounds(nums, -1);
        if NonNegative(nums) {
          AnswerIsMax(nums, -1);
        }
      }
    }
  }

  // ---------------------------------------------------------------- one object, several calls

  /** What an object first used on first answers for nums: its own old cell. */
  function Stale(first: seq<int>, nums: seq<int>): int
    requires |nums| <= |first|
  {
    Best(Gain, Framed(first), 0, |nums| + 1, -1)
  }

  lemma {:induction false} MaxUnique(c: int, d: int, nums: seq<int>)
    requires IsMaxCoins(c, nums) && IsMaxCoins(d, nums)
    ensures c == d
  {
    var o :| IsOrder(o, |nums|) && Coins(Gain, 1, nums, 1, o) == c;
    var p :| IsOrder(p, |nums|) && Coins(Gain, 1, nums, 1, p) == d;
  }

  /** So among vectors without negative values a second call of that length is right if
      and only if both vectors have the same maximum. */
  lemma {:induction false} ReuseRightIff(first: seq<int>, nums: seq<int>)
    requires |nums| == |first| && NonNegative(nums)
    ensures Stale(first, nums) == Answer(first, -1)
    ensures IsMaxCoins(Stale(first, nums), nums) <==> Answer(first, -1) == Answer(nums, -1)
  {
    AnswerIsMax(nums, -1);
    if IsMaxCoins(Stale(first, nums), nums) {
      MaxUnique(Stale(first, nums), Answer(nums, -1), nums);
    }
  }

  /** A call longer than the rows that are there reads past them. */
  lemma {:induction false} LongerOutOfBounds(rec: seq<seq<int>>, n: nat)
    requires n > 0 && rec != [] && |rec[0]| < n + 2
    ensures !InBounds(Resized(rec, n + 2), 0, n + 1)
  {
  }

  /** Row 0 of the memo is that of the first call. */
  ghost predicate FirstRow(rec: seq<seq<int>>, first: seq<int>) {
    && |rec| >= 2 && |rec[0]| == |first| + 2
    && forall y :: 2 <= y < |first| + 2 ==> rec[0][y] == Best(Gain, Framed(first), 0, y, -1)
  }

  lemma {:induction false} FirstRowFilled(rec: seq<seq<int>>, first: seq<int>)
    requires var memo := Resized([], |first| + 2);
             SameShape(memo, rec) && (|first| > 0 ==> RowFilled(memo, rec, Framed(first), 0, |first| + 2))
    ensures FirstRow(rec, first)
  {
    var memo, val := Resized([], |first| + 2), Framed(first);
    FreshRight(val);
    assert memo[0] == seq(|first| + 2, _ => -1);
    forall y | 2 <= y < |first| + 2 ensures rec[0][y] == Best(Gain, val, 0, y, -1) {
      assert Filled(memo, rec, val, 0, y);
      RecalledRight(memo, val, 0, y);
    }
  }

  /** A first call on a new object. */
  method FirstCall(first: seq<int>) returns (s: Solution, r: int)
    ensures fresh(s) && FirstRow(s.rec, first)
    ensures r == Answer(first, -1) && NoOrderBeats(r, first) && (NonNegative(first) ==> IsMaxCoins(r, first))
  {
    s := new Solution();
    FreshRight(Framed(first));
    RightInBounds(Resized([], |first| + 2), Framed(first), 0, |first| + 1);
    r := s.MaxCoins(first);
    assert Resized([], |first| + 2)[0] == seq(|first| + 2, _ => -1);
    FirstRowFilled(s.rec, first);
  }

  lemma {:induction false} StaleRecalled(rec: seq<seq<int>>, first: seq<int>, nums: seq<int>)
    requires FirstRow(rec, first) && |nums| <= |first| && (nums == [] || Stale(first, nums) != -1)
    ensures var memo, n := Resized(rec, |nums| + 2), |nums|;
            && memo[0] == rec[0] && InBounds(memo, 0, n + 1)
            && Recalled(memo, Framed(nums), 0, n + 1) == Stale(first, nums)
            && (n > 0 ==> memo[0][n + 1] != -1)
  {
  }

  /** Every later call that is not longer and whose old cell is not -1 answers that cell. */
  method CallAgain(first: seq<int>, later: seq<seq<int>>) returns (answers: seq<int>)
    requires forall k :: 0 <= k < |later| ==>
               |later[k]| <= |first| && (later[k] == [] || Stale(first, later[k]) != -1)
    ensures |answers| == |later| && forall k :: 0 <= k < |later| ==> answers[k] == Stale(first, later[k])
  {
    var s, r := FirstCall(first);
    answers := [];
    for i := 0 to |later|
      invariant fresh(s) && FirstRow(s.rec, first)
      invariant |answers| == i && forall k :: 0 <= k < i ==> answers[k] == Stale(first, later[k])
    {
      StaleRecalled(s.rec, first, later[i]);
      r := s.MaxCoins(later[i]);
      answers := answers + [r];
    }
  }

  /** [3] and then [5] on one object: the second answer is 3, and 5 would be right. */
  lemma {:induction false} ReuseFails()
    ensures Stale([3], [5]) == 3 && Answer([5], -1) == 5 && !IsMaxCoins(Stale([3], [5]), [5])
  {
    OneBalloon(3);
    OneBalloon(5);
    ReuseRightIff([3], [5]);
  }

  lemma {:induction false} OneBalloon(v: int)
    requires v >= -1
    ensures Answer([v], -1) == v
  {
    var val := Framed([v]);
    assert LastBurst(Gain, val, 0, 1, 2, -1) == v;
    assert BestBelow(Gain, val, 0, 2, 1, -1) == -1;
  }
}
