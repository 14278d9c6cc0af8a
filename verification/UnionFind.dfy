/** Disjoint sets with path compression and union by size, and the number of
    connected components of an adjacency matrix. */
module UnionFind {
  import opened Common

  // ---------------------------------------------------------------- connectivity

  ghost predicate Adjacent(edges: set<(int, int)>, a: int, b: int) {
    (a, b) in edges || (b, a) in edges
  }

  /** path leads from a to b along edges, in either direction. */
  ghost predicate Path(edges: set<(int, int)>, path: seq<int>, a: int, b: int)
    decreases |path|
  {
    if |path| == 0 then a == b
    else Adjacent(edges, a, path[0]) && Path(edges, path[1..], path[0], b)
  }

  ghost predicate Connected(edges: set<(int, int)>, a: int, b: int) {
    exists path :: Path(edges, path, a, b)
  }

  lemma {:induction false} PathWider(edges: set<(int, int)>, more: set<(int, int)>, path: seq<int>, a: int, b: int)
    requires edges <= more && Path(edges, path, a, b)
    ensures Path(more, path, a, b)
    decreases |path|
  {
    if |path| > 0 {
      PathWider(edges, more, path[1..], path[0], b);
    }
  }

  lemma {:induction false} PathJoin(edges: set<(int, int)>, p: seq<int>, q: seq<int>, a: int, b: int, c: int)
    requires Path(edges, p, a, b) && Path(edges, q, b, c)
    ensures Path(edges, p + q, a, c)
    decreases |p|
  {
    if |p| > 0 {
      PathJoin(edges, p[1..], q, p[0], b, c);
      assert (p + q)[1..] == p[1..] + q;
    } else {
      assert p + q == q;
    }
  }

  lemma {:induction false} PathBack(edges: set<(int, int)>, path: seq<int>, a: int, b: int)
    requires Path(edges, path, a, b)
    ensures Connected(edges, b, a)
    decreases |path|
  {
    if |path| > 0 {
      PathBack(edges, path[1..], path[0], b);
      var q :| Path(edges, q, b, path[0]);
      assert Path(edges, [a][1..], a, a);
      PathJoin(edges, q, [a], b, path[0], a);
    } else {
      assert Path(edges, [], b, a);
    }
  }

  lemma {:induction false} ConnectedSelf(edges: set<(int, int)>, a: int)
    ensures Connected(edges, a, a)
  {
    assert Path(edges, [], a, a);
  }

  lemma {:induction false} ConnectedSym(edges: set<(int, int)>, a: int, b: int)
    requires Connected(edges, a, b)
    ensures Connected(edges, b, a)
  {
    var p :| Path(edges, p, a, b);
    PathBack(edges, p, a, b);
  }

  lemma {:induction false} ConnectedTrans(edges: set<(int, int)>, a: int, b: int, c: int)
    requires Connected(edges, a, b) && Connected(edges, b, c)
    ensures Connected(edges, a, c)
  {
    var p :| Path(edges, p, a, b);
    var q :| Path(edges, q, b, c);
    PathJoin(edges, p, q, a, b, c);
  }

  lemma {:induction false} ConnectedWider(edges: set<(int, int)>, more: set<(int, int)>, a: int, b: int)
    requires edges <= more && Connected(edges, a, b)
    ensures Connected(more, a, b)
  {
    var p :| Path(edges, p, a, b);
    PathWider(edges, more, p, a, b);
  }

  lemma {:induction false} ConnectedEdge(edges: set<(int, int)>, a: int, b: int)
    requires Adjacent(edges, a, b)
    ensures Connected(edges, a, b)
  {
    assert Path(edges, [b][1..], b, b);
    assert Path(edges, [b], a, b);
  }

  /** The component of a among 0..n. */
  ghost function Component(edges: set<(int, int)>, n: nat, a: int): set<int> {
    set b | 0 <= b < n && Connected(edges, a, b)
  }

  ghost function Components(edges: set<(int, int)>, n: nat): set<set<int>> {
    set a | 0 <= a < n :: Component(edges, n, a)
  }

  // ---------------------------------------------------------------- partitions by representative

  ghost predicate InRange(rep: seq<int>) {
    forall i :: 0 <= i < |rep| ==> RepOk(rep, i)
  }

  ghost predicate RepOk(rep: seq<int>, i: int)
    requires 0 <= i < |rep|
  {
    0 <= rep[i] < |rep| && rep[rep[i]] == rep[i]
  }

  ghost function Class(rep: seq<int>, r: int): set<int> {
    set b | 0 <= b < |rep| && rep[b] == r
  }

  ghost function Roots(rep: seq<int>): set<int> {
    set r | 0 <= r < |rep| && rep[r] == r
  }

  /** rep names the components of the graph. */
  ghost predicate Names(rep: seq<int>, edges: set<(int, int)>) {
    && InRange(rep)
    && (forall e :: e in edges ==> 0 <= e.0 < |rep| && 0 <= e.1 < |rep| && rep[e.0] == rep[e.1])
    && (forall a :: 0 <= a < |rep| ==> Anchored(rep, edges, a))
  }

  ghost predicate Anchored(rep: seq<int>, edges: set<(int, int)>, a: int)
    requires 0 <= a < |rep|
  {
    Connected(edges, a, rep[a])
  }

  lemma {:induction false} PathStays(rep: seq<int>, edges: set<(int, int)>, path: seq<int>, a: int, b: int)
    requires Names(rep, edges) && 0 <= a < |rep| && Path(edges, path, a, b)
    ensures 0 <= b < |rep| && rep[a] == rep[b]
    decreases |path|
  {
    if |path| > 0 {
      PathStays(rep, edges, path[1..], path[0], b);
    }
  }

  /** Same representative, if and only if connected. */
  lemma {:induction false} SameIffConnected(rep: seq<int>, edges: set<(int, int)>, a: int, b: int)
    requires Names(rep, edges) && 0 <= a < |rep| && 0 <= b < |rep|
    ensures rep[a] == rep[b] <==> Connected(edges, a, b)
  {
    if rep[a] == rep[b] {
      assert Anchored(rep, edges, a) && Anchored(rep, edges, b);
      ConnectedSym(edges, b, rep[b]);
      ConnectedTrans(edges, a, rep[a], b);
    }
    if Connected(edges, a, b) {
      var p :| Path(edges, p, a, b);
      PathStays(rep, edges, p, a, b);
    }
  }

  lemma {:induction false} ClassIsComponent(rep: seq<int>, edges: set<(int, int)>, a: int)
    requires Names(rep, edges) && 0 <= a < |rep|
    ensures Class(rep, rep[a]) == Component(edges, |rep|, a)
  {
    forall b | 0 <= b < |rep| ensures rep[a] == rep[b] <==> Connected(edges, a, b) {
      SameIffConnected(rep, edges, a, b);
    }
  }

  ghost function ClassesOf(rep: seq<int>, rs: set<int>): set<set<int>> {
    set r | r in rs :: Class(rep, r)
  }

  lemma {:induction false} CountClasses(rep: seq<int>, rs: set<int>)
    requires rs <= Roots(rep)
    ensures |ClassesOf(rep, rs)| == |rs|
  {
    if rs != {} {
      var r :| r in rs;
      var rest := rs - {r};
      CountClasses(rep, rest);
      assert rs == rest + {r};
      assert ClassesOf(rep, rs) == ClassesOf(rep, rest) + {Class(rep, r)};
      forall q | q in rest ensures Class(rep, q) != Class(rep, r) {
        assert r in Class(rep, r) && r !in Class(rep, q);
      }
    }
  }

  /** The number of roots is the number of connected components. */
  lemma {:induction false} RootsCountComponents(rep: seq<int>, edges: set<(int, int)>)
    requires Names(rep, edges)
    ensures |Roots(rep)| == |Components(edges, |rep|)|
  {
    CountClasses(rep, Roots(rep));
    forall a | 0 <= a < |rep| ensures Component(edges, |rep|, a) == Class(rep, rep[a]) && rep[a] in Roots(rep) {
      RepIsRoot(rep, a);
      ClassIsComponent(rep, edges, a);
    }
    assert Components(edges, |rep|) == ClassesOf(rep, Roots(rep)) by {
      forall r | r in Roots(rep) ensures Class(rep, r) in Components(edges, |rep|) {
        assert Class(rep, r) == Component(edges, |rep|, r);
      }
    }
  }

  /** Everyone represented by r is now represented by q. */
  ghost function Relabel(rep: seq<int>, r: int, q: int): (rep': seq<int>)
    ensures |rep'| == |rep| && forall i :: 0 <= i < |rep| ==> rep'[i] == if rep[i] == r then q else rep[i]
  {
    seq(|rep|, i requires 0 <= i < |rep| => if rep[i] == r then q else rep[i])
  }

  lemma {:induction false} RelabelSets(rep: seq<int>, r: int, q: int)
    requires InRange(rep) && r in Roots(rep) && q in Roots(rep) && r != q
    ensures InRange(Relabel(rep, r, q)) && Roots(Relabel(rep, r, q)) == Roots(rep) - {r}
    ensures |Roots(Relabel(rep, r, q))| == |Roots(rep)| - 1
    ensures |Class(Relabel(rep, r, q), q)| == |Class(rep, q)| + |Class(rep, r)|
    ensures forall x :: x != r && x != q ==> Class(Relabel(rep, r, q), x) == Class(rep, x)
  {
    var rep' := Relabel(rep, r, q);
    forall i | 0 <= i < |rep| ensures RepOk(rep', i) {
      assert RepOk(rep, i);
    }
    assert Roots(rep') == Roots(rep) - {r};
    assert Class(rep', q) == Class(rep, q) + Class(rep, r) && Class(rep, q) !! Class(rep, r);
    forall x | x != r && x != q ensures Class(rep', x) == Class(rep, x) {
    }
  }

  /** An edge between two classes joins them. */
  lemma {:induction false} RelabelNames(rep: seq<int>, edges: set<(int, int)>, i: int, j: int, r: int, q: int)
    requires Names(rep, edges) && 0 <= i < |rep| && 0 <= j < |rep|
    requires r != q && {r, q} == {rep[i], rep[j]}
    ensures Names(Relabel(rep, r, q), edges + {(i, j)})
  {
    var rep', more := Relabel(rep, r, q), edges + {(i, j)};
    RepIsRoot(rep, i);
    RepIsRoot(rep, j);
    RelabelSets(rep, r, q);
    var x, y := if rep[i] == r then i else j, if rep[i] == r then j else i;
    assert rep[x] == r && rep[y] == q;
    forall a | 0 <= a < |rep| ensures Anchored(rep', more, a) {
      assert Anchored(rep, edges, a) && Anchored(rep, edges, y);
      if rep[a] == r {
        SameIffConnected(rep, edges, a, x);
        ConnectedWider(edges, more, a, x);
        ConnectedEdge(more, x, y);
        ConnectedWider(edges, more, y, rep[y]);
        ConnectedTrans(more, a, x, y);
        ConnectedTrans(more, a, y, q);
      } else {
        ConnectedWider(edges, more, a, rep[a]);
      }
    }
  }

  /** An edge inside a class changes nothing. */
  lemma {:induction false} KeepNames(rep: seq<int>, edges: set<(int, int)>, i: int, j: int)
    requires Names(rep, edges) && 0 <= i < |rep| && 0 <= j < |rep| && rep[i] == rep[j]
    ensures Names(rep, edges + {(i, j)})
  {
    var more := edges + {(i, j)};
    forall a | 0 <= a < |rep| ensures Anchored(rep, more, a) {
      assert Anchored(rep, edges, a);
      ConnectedWider(edges, more, a, rep[a]);
    }
  }

  // ---------------------------------------------------------------- the parent forest

  /** Element i's parent is in its class and of higher rank; only roots are their own parent. */
  ghost predicate ParentOk(fa: seq<int>, rep: seq<int>, rank: seq<nat>, i: int)
    requires 0 <= i < |fa| == |rep| == |rank|
  {
    && 0 <= fa[i] < |fa| && 0 <= rep[i] < |fa|
    && rep[fa[i]] == rep[i] && (fa[i] == i <==> rep[i] == i)
    && (fa[i] != i ==> rank[i] < rank[fa[i]]) && (rep[i] != i ==> rank[i] < rank[rep[i]])
  }

  ghost predicate Forest(fa: seq<int>, rep: seq<int>, rank: seq<nat>) {
    && |fa| == |rep| == |rank| && InRange(rep)
    && forall i :: 0 <= i < |fa| ==> ParentOk(fa, rep, rank, i)
  }

  /** At a root, size is the number of members, and at least two to the rank. */
  ghost predicate SizeOk(size: seq<int>, rep: seq<int>, rank: seq<nat>, r: int)
    requires 0 <= r < |size| == |rep| == |rank|
  {
    rep[r] == r ==> size[r] == |Class(rep, r)| && Pow2(rank[r]) <= size[r]
  }

  ghost predicate Sizes(size: seq<int>, rep: seq<int>, rank: seq<nat>) {
    |size| == |rep| == |rank| && forall r :: 0 <= r < |size| ==> SizeOk(size, rep, rank, r)
  }

  lemma {:induction false} Compress(fa: seq<int>, rep: seq<int>, rank: seq<nat>, i: int)
    requires Forest(fa, rep, rank) && 0 <= i < |fa|
    ensures Forest(fa[i := rep[i]], rep, rank)
  {
    var fa' := fa[i := rep[i]];
    assert RepOk(rep, i);
    forall k | 0 <= k < |fa'| ensures ParentOk(fa', rep, rank, k) {
      assert ParentOk(fa, rep, rank, k);
    }
  }

  /** The rank of q after r was hung below it. */
  ghost function Raised(rank: seq<nat>, r: int, q: int): (rank': seq<nat>)
    requires 0 <= r < |rank| && 0 <= q < |rank|
    ensures |rank'| == |rank|
  {
    rank[q := if rank[r] < rank[q] then rank[q] else rank[r] + 1]
  }

  lemma {:induction false} Link(fa: seq<int>, rep: seq<int>, rank: seq<nat>, r: int, q: int)
    requires Forest(fa, rep, rank) && r in Roots(rep) && q in Roots(rep) && r != q
    ensures Forest(fa[r := q], Relabel(rep, r, q), Raised(rank, r, q))
  {
    var fa', rep', rank' := fa[r := q], Relabel(rep, r, q), Raised(rank, r, q);
    RelabelSets(rep, r, q);
    forall k | 0 <= k < |fa'| ensures ParentOk(fa', rep', rank', k) {
      assert ParentOk(fa, rep, rank, k);
      assert ParentOk(fa, rep, rank, q);
    }
  }

  lemma {:induction false} LinkSizes(size: seq<int>, rep: seq<int>, rank: seq<nat>, r: int, q: int)
    requires Sizes(size, rep, rank) && InRange(rep) && r in Roots(rep) && q in Roots(rep) && r != q
    requires size[r] <= size[q]
    ensures Sizes(size[q := size[q] + size[r]], Relabel(rep, r, q), Raised(rank, r, q))
  {
    var size', rep', rank' := size[q := size[q] + size[r]], Relabel(rep, r, q), Raised(rank, r, q);
    RelabelSets(rep, r, q);
    assert SizeOk(size, rep, rank, q) && SizeOk(size, rep, rank, r);
    forall k | 0 <= k < |size'| ensures SizeOk(size', rep', rank', k) {
      assert SizeOk(size, rep, rank, k);
    }
  }

  /** Steps from i to its root. */
  ghost function Depth(fa: seq<int>, rep: seq<int>, rank: seq<nat>, i: int): nat
    requires Forest(fa, rep, rank) && 0 <= i < |fa|
    decreases RankLeft(fa, rep, rank, i)
  {
    assert ParentOk(fa, rep, rank, i);
    if fa[i] == i then 0 else
      assert ParentOk(fa, rep, rank, fa[i]);
      1 + Depth(fa, rep, rank, fa[i])
  }

  ghost function RankLeft(fa: seq<int>, rep: seq<int>, rank: seq<nat>, i: int): (m: nat)
    requires Forest(fa, rep, rank) && 0 <= i < |fa|
    ensures RepOk(rep, i) && m + rank[i] == rank[rep[i]]
  {
    assert ParentOk(fa, rep, rank, i);
    rank[rep[i]] - rank[i]
  }

  lemma {:induction false} DepthByRank(fa: seq<int>, rep: seq<int>, rank: seq<nat>, i: int)
    requires Forest(fa, rep, rank) && 0 <= i < |fa|
    ensures RepOk(rep, i) && Depth(fa, rep, rank, i) + rank[i] <= rank[rep[i]]
    decreases RankLeft(fa, rep, rank, i)
  {
    assert ParentOk(fa, rep, rank, i);
    if fa[i] != i {
      assert ParentOk(fa, rep, rank, fa[i]);
      DepthByRank(fa, rep, rank, fa[i]);
    }
  }

  /** No element is deeper than the binary logarithm of its component's size. */
  lemma {:induction false} DepthLogarithmic(fa: seq<int>, size: seq<int>, rep: seq<int>, rank: seq<nat>,
                                            edges: set<(int, int)>, i: int)
    requires Forest(fa, rep, rank) && Sizes(size, rep, rank) && Names(rep, edges) && 0 <= i < |fa|
    ensures RepOk(rep, i) && Pow2(Depth(fa, rep, rank, i)) <= size[rep[i]] == |Component(edges, |fa|, i)|
  {
    DepthByRank(fa, rep, rank, i);
    Pow2Monotone(Depth(fa, rep, rank, i), rank[rep[i]]);
    assert SizeOk(size, rep, rank, rep[i]);
    ClassIsComponent(rep, edges, i);
  }

  // ---------------------------------------------------------------- Djset

  /** The parents form a forest of rising rank whose trees are the components of the merged
      pairs; sizes and count are true. */
  ghost predicate DjsetOk(fa: seq<int>, size: seq<int>, count: int, edges: set<(int, int)>, rep: seq<int>,
                          rank: seq<nat>) {
    && Forest(fa, rep, rank) && Sizes(size, rep, rank) && Names(rep, edges)
    && count == |Roots(rep)|
  }

  /** What that means: count is the number of components, findi tells them apart, the size
      at a root is its component's, and depths are logarithmic. */
  lemma {:induction false} DjsetMeaning(fa: seq<int>, size: seq<int>, count: int, edges: set<(int, int)>, rep: seq<int>,
                                        rank: seq<nat>, a: int, b: int)
    requires DjsetOk(fa, size, count, edges, rep, rank) && 0 <= a < |fa| && 0 <= b < |fa|
    ensures count == |Components(edges, |fa|)|
    ensures rep[a] == rep[b] <==> Connected(edges, a, b)
    ensures RepOk(rep, a) && size[rep[a]] == |Component(edges, |fa|, a)|
    ensures Pow2(Depth(fa, rep, rank, a)) <= |Component(edges, |fa|, a)|
  {
    RootsCountComponents(rep, edges);
    SameIffConnected(rep, edges, a, b);
    DepthLogarithmic(fa, size, rep, rank, edges, a);
  }

  lemma {:induction false} Joined(fa: seq<int>, size: seq<int>, count: int, edges: set<(int, int)>, rep: seq<int>,
                                  rank: seq<nat>, i: int, j: int, r: int, q: int)
    requires DjsetOk(fa, size, count, edges, rep, rank) && 0 <= i < |fa| && 0 <= j < |fa|
    requires r != q && {r, q} == {rep[i], rep[j]} && r in Roots(rep) && q in Roots(rep) && size[r] <= size[q]
    ensures DjsetOk(fa[r := q], size[q := size[q] + size[r]], count - 1, edges + {(i, j)},
                    Relabel(rep, r, q), Raised(rank, r, q))
  {
    RelabelSets(rep, r, q);
    RelabelNames(rep, edges, i, j, r, q);
    Link(fa, rep, rank, r, q);
    LinkSizes(size, rep, rank, r, q);
  }

  class Djset {
    var fa: seq<int>
    var size: seq<int>
    var count: int
    /** What was merged so far, the representatives, and a bound on the height below each element. */
    ghost var edges: set<(int, int)>
    ghost var rep: seq<int>
    ghost var rank: seq<nat>

    ghost predicate Valid()
      reads this
    {
      DjsetOk(fa, size, count, edges, rep, rank)
    }

    constructor (n: nat)
      ensures Valid() && |fa| == n && edges == {} && count == n
    {
      count := n;
      fa := seq(n, i => i);
      size := seq(n, _ => 1);
      edges := {};
      rep := seq(n, i => i);
      rank := seq(n, _ => 0);
      new;
      Singletons(fa, size, rank);
    }

    /** findi: the root of i; afterwards i hangs directly below it, and every other parent
        is as before or compressed too. */
    method Find(i: int) returns (r: int)
      requires Valid() && 0 <= i < |fa|
      modifies this`fa
      ensures Valid() && |fa| == old(|fa|) && r == rep[i] == fa[i]
      ensures forall k :: 0 <= k < |fa| ==> fa[k] == old(fa[k]) || fa[k] == rep[k]
      decreases RankLeft(fa, rep, rank, i)
    {
      assert ParentOk(fa, rep, rank, i);
      if fa[i] != i {
        assert ParentOk(fa, rep, rank, fa[i]);
        var root := Find(fa[i]);
        Compress(fa, rep, rank, i);
        fa := fa[i := root];
      }
      r := fa[i];
    }

    /** merge joins the classes of i and j and no others. */
    method Merge(i: int, j: int)
      requires Valid() && 0 <= i < |fa| && 0 <= j < |fa|
      modifies this
      ensures Valid() && |fa| == old(|fa|) && edges == old(edges) + {(i, j)}
      ensures count == old(count) - (if old(Connected(edges, i, j)) then 0 else 1)
    {
      var rooti := Find(i);
      var rootj := Find(j);
      SameIffConnected(rep, edges, i, j);
      if rooti == rootj {
        KeepNames(rep, edges, i, j);
        edges := edges + {(i, j)};
        return;
      }
      RepIsRoot(rep, i);
      RepIsRoot(rep, j);
      if size[rooti] < size[rootj] {
        rooti, rootj := rootj, rooti;
      }
      Hang(rooti, rootj, i, j);
    }

    /** The last three lines of merge: the smaller root goes below the larger. */
    method Hang(rooti: int, rootj: int, ghost i: int, ghost j: int)
      requires Valid() && 0 <= i < |fa| && 0 <= j < |fa|
      requires rootj != rooti && {rootj, rooti} == {rep[i], rep[j]}
      requires rootj in Roots(rep) && rooti in Roots(rep) && size[rootj] <= size[rooti]
      modifies this
      ensures Valid() && |fa| == old(|fa|) && edges == old(edges) + {(i, j)} && count == old(count) - 1
    {
      Joined(fa, size, count, edges, rep, rank, i, j, rootj, rooti);
      fa := fa[rootj := rooti];
      size := size[rooti := size[rooti] + size[rootj]];
      count := count - 1;
      edges, rep, rank := edges + {(i, j)}, Relabel(rep, rootj, rooti), Raised(rank, rootj, rooti);
    }
  }

  lemma {:induction false} RepIsRoot(rep: seq<int>, i: int)
    requires InRange(rep) && 0 <= i < |rep|
    ensures rep[i] in Roots(rep)
  {
    assert RepOk(rep, i);
  }

  lemma {:induction false} Singletons(fa: seq<int>, size: seq<int>, rank: seq<nat>)
    requires |fa| == |size| == |rank|
    requires forall i :: 0 <= i < |fa| ==> fa[i] == i && size[i] == 1 && rank[i] == 0
    ensures Forest(fa, fa, rank) && Sizes(size, fa, rank) && Names(fa, {}) && |fa| == |Roots(fa)|
  {
    forall i | 0 <= i < |fa| ensures SizeOk(size, fa, rank, i) && Anchored(fa, {}, i) {
      assert Class(fa, i) == {i};
      ConnectedSelf({}, i);
    }
    CountFixed(fa, |fa|);
    assert Roots(fa) == Fixed(fa, |fa|);
  }

  ghost function Fixed(fa: seq<int>, n: nat): set<int>
    requires n <= |fa|
  {
    set i | 0 <= i < n && fa[i] == i
  }

  lemma {:induction false} CountFixed(fa: seq<int>, n: nat)
    requires n <= |fa| && forall i :: 0 <= i < n ==> fa[i] == i
    ensures |Fixed(fa, n)| == n
  {
    if n > 0 {
      CountFixed(fa, n - 1);
      assert Fixed(fa, n) == Fixed(fa, n - 1) + {n - 1};
    }
  }

  // ---------------------------------------------------------------- provinces

  ghost predicate Matrix(m: seq<seq<int>>) {
    forall i :: 0 <= i < |m| ==> |m[i]| >= |m|
  }

  /** The pairs marked 1 in rows below i, and in row i in columns below j. */
  ghost function Marked(m: seq<seq<int>>, i: nat, j: nat): set<(int, int)>
    requires Matrix(m) && i <= |m| && j <= |m|
  {
    set a, b | 0 <= a < |m| && 0 <= b < |m| && (a < i || (a == i && b < j)) && m[a][b] == 1 :: (a, b)
  }

  method MergeRow(m: seq<seq<int>>, i: nat, dj: Djset)
    requires Matrix(m) && i < |m| && dj.Valid() && |dj.fa| == |m| && dj.edges == Marked(m, i, 0)
    modifies dj
    ensures dj.Valid() && |dj.fa| == |m| && dj.edges == Marked(m, i + 1, 0)
  {
    for j := 0 to |m|
      invariant dj.Valid() && |dj.fa| == |m| && dj.edges == Marked(m, i, j)
    {
      if m[i][j] == 1 {
        dj.Merge(i, j);
      }
    }
  }

  /** findCircleNum: the number of connected components of the matrix read as an
      undirected graph. */
  method FindCircleNum(isConnected: seq<seq<int>>) returns (r: int)
    requires Matrix(isConnected)
    ensures r == |Components(Marked(isConnected, |isConnected|, 0), |isConnected|)|
  {
    var n := |isConnected|;
    var dj := new Djset(n);
    assert Marked(isConnected, 0, 0) == {};
    for i := 0 to n
      invariant dj.Valid() && |dj.fa| == n && dj.edges == Marked(isConnected, i, 0)
    {
      MergeRow(isConnected, i, dj);
    }
    RootsCountComponents(dj.rep, dj.edges);
    r := dj.count;
  }
}
