/** Morris traversals: each walks a tree with O(1) space by temporarily pointing
    the right field of an in-order predecessor back at its successor. */
module Morris {
  import opened Common
  import opened BinaryTree
  import opened HeapTree

  ghost function RootRef(t: Tree<TreeNode>): TreeNode? {
    if t.Leaf? then null else t.value
  }

  lemma {:induction false} SubtreeLinks(root: TreeNode?, t: Tree<TreeNode>, i: nat)
    requires IsTree(root, t) && i < Size(t)
    ensures Inorder(t)[i].left == RootRef(At(t, i).left)
    ensures Inorder(t)[i].right == RootRef(At(t, i).right)
  {
    var n := Size(t.left);
    if i < n {
      SubtreeLinks(root.left, t.left, i);
    } else if i > n {
      SubtreeLinks(root.right, t.right, i - n - 1);
    }
  }

  /** In a heap tree every child pointer is the one its position calls for. */
  lemma {:induction false} TreeLinks(root: TreeNode?, t: Tree<TreeNode>, i: nat)
    requires IsTree(root, t) && i < Size(t)
    ensures root == Ref(Inorder(t), RootPos(t))
    ensures Inorder(t)[i].left == Ref(Inorder(t), LeftOf(t, i))
    ensures Inorder(t)[i].right == Ref(Inorder(t), RightOf(t, i))
  {
    SubtreeLinks(root, t, i);
    LeftSubtreeAt(t, i);
    RightSubtreeAt(t, i);
  }

  // ---------------------------------------------------------------- threads

  /** While the walk stands at position c, the successor thread into position j
      is in place: j waits for its left subtree, or the walk just came back to it. */
  predicate Threaded(t: Tree<TreeNode>, c: int, back: bool, j: int) {
    InLeftSubtree(t, c, j) || (back && j == c)
  }

  /** The right field of position i is the original one, or the thread. */
  ghost predicate RightLink(ns: seq<TreeNode>, t: Tree<TreeNode>, c: int, back: bool, i: nat)
    requires |ns| == Size(t) && i < |ns|
    reads ns
  {
    ns[i].right == if Threaded(t, c, back, i + 1) then Ref(ns, i + 1) else Ref(ns, RightOf(t, i))
  }

  /** The right field of position i is the one the tree started with. */
  ghost predicate OwnRight(ns: seq<TreeNode>, t: Tree<TreeNode>, i: nat)
    requires |ns| == Size(t) && i < |ns|
    reads ns
  {
    ns[i].right == Ref(ns, RightOf(t, i))
  }

  ghost predicate LeftLink(ns: seq<TreeNode>, t: Tree<TreeNode>, i: nat)
    requires |ns| == Size(t) && i < |ns|
    reads ns
  {
    ns[i].left == Ref(ns, LeftOf(t, i))
  }

  /** The heap while the walk stands at position c: left fields untouched, right
      fields changed along the threads only. */
  ghost predicate Walking(ns: seq<TreeNode>, t: Tree<TreeNode>, c: int, back: bool)
    reads ns
  {
    && |ns| == Size(t) && Distinct(ns)
    && 0 <= c <= |ns|
    && (back ==> c < |ns| && Lo(t, c) < c)
    && (forall i :: 0 <= i < |ns| ==> LeftLink(ns, t, i))
    && (forall i :: 0 <= i < |ns| ==> RightLink(ns, t, c, back, i))
  }

  /** Following the right field from a finished position reaches its successor. */
  lemma {:induction false} FollowRight(ns: seq<TreeNode>, t: Tree<TreeNode>, c: nat)
    requires Walking(ns, t, c, false) && c < |ns|
    ensures var (d, back) := Succ(t, c);
            ns[c].right == Ref(ns, d) && Walking(ns, t, d, back)
            && (!back && d < |ns| ==> Lo(t, d) == c + 1)
  {
    var (d, back) := Succ(t, c);
    RightChild(t, c);
    if back {
      NoRightChild(t, c);
    }
    assert RightLink(ns, t, c, false, c);
    SuccAncestors(t, c, c + 1);
    forall i | 0 <= i < |ns| ensures RightLink(ns, t, d, back, i) {
      assert RightLink(ns, t, c, false, i);
      SuccAncestors(t, c, i + 1);
    }
  }

  /** One step down the right spine of the left subtree of position c. */
  lemma {:induction false} SpineStep(ns: seq<TreeNode>, t: Tree<TreeNode>, c: nat, back: bool, p: nat)
    requires Walking(ns, t, c, back) && p < c < |ns| && Hi(t, p) == c
    ensures var r := RightOf(t, p);
            if r != -1 then ns[p].right == ns[r] && ns[r] != ns[c] && p < r < c && Hi(t, r) == c
            else p + 1 == c && ns[p].right == if back then ns[c] else null
  {
    RightChild(t, p);
    assert RightLink(ns, t, c, back, p);
  }

  /** The inner loop of every variant: one step left, then right until the field
      is null or already the thread back to root.  It ends at the in-order
      predecessor, whose thread is in place exactly when the walk came back. */
  method FindPredecessor(root: TreeNode, ghost ns: seq<TreeNode>, ghost t: Tree<TreeNode>,
                         ghost c: nat, ghost back: bool)
    returns (pre: TreeNode)
    requires Walking(ns, t, c, back) && c < |ns| && root == ns[c] && root.left != null
    ensures Walking(ns, t, c, back) && LeftOf(t, c) != -1 && c > 0 && pre == ns[c - 1]
    ensures RightOf(t, c - 1) == -1 && pre.right == if back then root else null
  {
    assert LeftLink(ns, t, c);
    LeftChild(t, c);
    pre := root.left;
    ghost var p: nat := LeftOf(t, c);
    SpineStep(ns, t, c, back, p);
    while pre.right != null && pre.right != root
      invariant p < c && pre == ns[p] && Hi(t, p) == c
      decreases c - p
    {
      SpineStep(ns, t, c, back, p);
      pre := pre.right;
      p := RightOf(t, p);
    }
    SpineStep(ns, t, c, back, p);
  }

  // ---------------------------------------------------------------- output positions

  function Spine<T>(t: Tree<T>): (s: seq<T>)
    ensures |s| <= Size(t)
  {
    if t.Leaf? then [] else [t.value] + Spine(t.right)
  }

  /** The post-order of a tree ends with its right spine, bottom up. */
  lemma {:induction false} PostorderEndsWithSpine<T>(t: Tree<T>, j: nat)
    requires j < |Spine(t)|
    ensures Postorder(t)[Size(t) - |Spine(t)| + j] == Reversed(Spine(t))[j]
  {
    assert Spine(t)[1..] == Spine(t.right);
    if j < |Spine(t.right)| {
      PostorderEndsWithSpine(t.right, j);
    }
  }

  /** How many nodes have been listed in post-order before position i is entered. */
  function PostIndex<T>(t: Tree<T>, i: nat): (r: nat)
    requires i < Size(t)
    ensures r + (i - Lo(t, i)) < Size(t)
  {
    var n := Size(t.left);
    if i < n then PostIndex(t.left, i) else if i == n then 0 else n + PostIndex(t.right, i - n - 1)
  }

  lemma {:induction false} PostIndexLeft<T>(t: Tree<T>, i: nat)
    requires i < Size(t) && LeftOf(t, i) != -1
    ensures PostIndex(t, LeftOf(t, i)) == PostIndex(t, i)
  {
    var n := Size(t.left);
    if i < n {
      PostIndexLeft(t.left, i);
    } else if i > n {
      PostIndexLeft(t.right, i - n - 1);
    }
  }

  /** How much of the post-order has been listed once the left subtree of c is. */
  function PostDone<T>(t: Tree<T>, c: nat): (r: nat)
    requires c < Size(t)
    ensures r < Size(t)
  {
    PostIndex(t, c) + (c - Lo(t, c))
  }

  lemma {:induction false} LeftSize<T>(t: Tree<T>, c: nat)
    requires c < Size(t)
    ensures Size(At(t, c).left) == c - Lo(t, c)
  {
    var n := Size(t.left);
    if c < n {
      LeftSize(t.left, c);
    } else if c > n {
      LeftSize(t.right, c - n - 1);
    }
  }

  /** How much of the post-order has been listed when the walk stands at c: on
      coming back, the right spine of the left subtree is still held back. */
  function PostCount<T>(t: Tree<T>, c: nat, back: bool): int
    requires c <= Size(t)
  {
    if c == Size(t) then c - |Spine(t)|
    else if back then PostDone(t, c) - |Spine(At(t, c).left)|
    else PostIndex(t, c)
  }

  lemma {:induction false} PostCountInLeft<T>(t: Tree<T>, d: nat, back: bool)
    requires t.Node? && d <= Size(t.left)
    ensures PostCount(t, d, back || d == Size(t.left)) == PostCount(t.left, d, back)
  {
  }

  lemma {:induction false} PostCountInRight<T>(t: Tree<T>, d: nat, back: bool)
    requires t.Node? && d <= Size(t.right)
    ensures PostCount(t, Size(t.left) + 1 + d, back) == Size(t.left) + PostCount(t.right, d, back)
  {
  }

  lemma {:induction false} PostCountSucc<T>(t: Tree<T>, c: nat)
    requires c < Size(t)
    ensures PostCount(t, Succ(t, c).0, Succ(t, c).1) == PostDone(t, c)
  {
    var n := Size(t.left);
    if c < n {
      PostCountSucc(t.left, c);
      PostCountSuccLeft(t, c);
    } else if c == n {
      PostCountSuccRoot(t);
    } else {
      PostCountSucc(t.right, c - n - 1);
      PostCountSuccRight(t, c - n - 1);
    }
  }

  lemma {:induction false} PostDoneIn<T>(t: Tree<T>, c: nat)
    requires t.Node?
    ensures c < Size(t.left) ==> PostDone(t, c) == PostDone(t.left, c)
    ensures c < Size(t.right) ==> PostDone(t, Size(t.left) + 1 + c) == Size(t.left) + PostDone(t.right, c)
  {
  }

  lemma {:induction false} PostCountSuccLeft<T>(t: Tree<T>, c: nat)
    requires t.Node? && c < Size(t.left)
    requires PostCount(t.left, Succ(t.left, c).0, Succ(t.left, c).1) == PostDone(t.left, c)
    ensures PostCount(t, Succ(t, c).0, Succ(t, c).1) == PostDone(t, c)
  {
    PostDoneIn(t, c);
    SuccInLeft(t, c);
    PostCountInLeft(t, Succ(t.left, c).0, Succ(t.left, c).1);
  }

  lemma {:induction false} PostCountSuccRight<T>(t: Tree<T>, c: nat)
    requires t.Node? && c < Size(t.right)
    requires PostCount(t.right, Succ(t.right, c).0, Succ(t.right, c).1) == PostDone(t.right, c)
    ensures var i := Size(t.left) + 1 + c; PostCount(t, Succ(t, i).0, Succ(t, i).1) == PostDone(t, i)
  {
    PostDoneIn(t, c);
    SuccInRight(t, c);
    PostCountInRight(t, Succ(t.right, c).0, Succ(t.right, c).1);
  }

  lemma {:induction false} PostCountSuccRoot<T>(t: Tree<T>)
    requires t.Node?
    ensures var n := Size(t.left); PostCount(t, Succ(t, n).0, Succ(t, n).1) == PostDone(t, n)
  {
    if t.right.Node? {
      PostCountInRight(t, RootPos(t.right), false);
      assert PostIndex(t.right, RootPos(t.right)) == 0;
    }
  }

  lemma PostCountBounds<T>(t: Tree<T>, c: nat)
    requires c < Size(t)
    ensures 0 <= PostCount(t, c, true) <= PostDone(t, c)
  {
    LeftSize(t, c);
  }

  lemma {:induction false} PostorderAt<T>(t: Tree<T>, x: nat)
    requires x + 1 < Size(t)
    ensures var n := Size(t.left);
            Postorder(t)[x] == if x < n then Postorder(t.left)[x] else Postorder(t.right)[x - n]
  {
  }

  /** What is listed on coming back to c, from index p on: the held-back spine s of
      its left subtree, bottom up. */
  lemma {:induction false} PostSlice<T>(t: Tree<T>, c: nat, p: int, s: seq<T>, j: nat)
    requires c < Size(t) && 0 <= p == PostCount(t, c, true) && s == Spine(At(t, c).left) && j < |s|
    ensures p + j < Size(t) - 1 && Postorder(t)[p + j] == Reversed(s)[j]
    decreases t
  {
    var n := Size(t.left);
    if c < n {
      PostCountInLeft(t, c, true);
      PostSlice(t.left, c, p, s, j);
      PostorderAt(t, p + j);
    } else if c == n {
      PostCountAtRoot(t);
      PostorderEndsWithSpine(t.left, j);
      PostorderAt(t, p + j);
    } else {
      PostSliceRight(t, c - n - 1, p - n, s, j);
    }
  }

  lemma {:induction false} PostSliceRight<T>(t: Tree<T>, c: nat, p: int, s: seq<T>, j: nat)
    requires t.Node? && c < Size(t.right) && s == Spine(At(t.right, c).left) && j < |s|
    requires Size(t.left) + p == PostCount(t, Size(t.left) + 1 + c, true)
    ensures 0 <= p && p + j < Size(t.right) - 1 && Postorder(t)[Size(t.left) + p + j] == Reversed(s)[j]
    decreases t, 0
  {
    PostCountInRight(t, c, true);
    PostCountBounds(t.right, c);
    PostSlice(t.right, c, p, s, j);
    PostorderAt(t, Size(t.left) + p + j);
  }

  lemma {:induction false} PostCountAtRoot<T>(t: Tree<T>)
    requires t.Node?
    ensures PostCount(t, Size(t.left), true) == Size(t.left) - |Spine(t.left)| && At(t, Size(t.left)) == t
  {
  }

  // ---------------------------------------------------------------- steps on the heap

  /** The walk starts at the root. */
  ghost function Start(t: Tree<TreeNode>): nat {
    if t.Leaf? then 0 else RootPos(t)
  }

  lemma {:induction false} StartWalking(root: TreeNode?, t: Tree<TreeNode>)
    requires IsTree(root, t) && Distinct(Inorder(t))
    ensures var c := Start(t);
            root == Ref(Inorder(t), c) == Ref(Inorder(t), RootPos(t)) && Walking(Inorder(t), t, c, false)
    ensures forall i :: 0 <= i < Size(t) ==> OwnRight(Inorder(t), t, i)
  {
    var ns := Inorder(t);
    var c := if t.Leaf? then 0 else RootPos(t);
    forall i | 0 <= i < |ns|
      ensures LeftLink(ns, t, i) && RightLink(ns, t, c, false, i) && OwnRight(ns, t, i)
    {
      TreeLinks(root, t, i);
      RootIsTop(t, i + 1);
    }
  }

  method SetThread(pre: TreeNode, root: TreeNode, ghost ns: seq<TreeNode>, ghost t: Tree<TreeNode>, ghost c: nat)
    requires Walking(ns, t, c, false) && c < |ns| && root == ns[c] && LeftOf(t, c) != -1 && pre == ns[c - 1]
    modifies pre`right
    ensures pre.right == root && Walking(ns, t, LeftOf(t, c), false)
  {
    pre.right := root;
    forall i | 0 <= i < |ns|
      ensures LeftLink(ns, t, i) && RightLink(ns, t, LeftOf(t, c), false, i)
    {
      assert old(LeftLink(ns, t, i)) && old(RightLink(ns, t, c, false, i));
      LeftChildAncestors(t, c, i + 1);
    }
  }

  method CutThread(pre: TreeNode, ghost ns: seq<TreeNode>, ghost t: Tree<TreeNode>, ghost c: nat)
    requires Walking(ns, t, c, true) && pre == ns[c - 1] && RightOf(t, c - 1) == -1
    modifies pre`right
    ensures pre.right == null && Walking(ns, t, c, false)
  {
    pre.right := null;
    forall i | 0 <= i < |ns| ensures LeftLink(ns, t, i) && RightLink(ns, t, c, false, i) {
      assert old(LeftLink(ns, t, i)) && old(RightLink(ns, t, c, true, i));
    }
  }

  /** The left field tells whether the position has a left subtree. */
  lemma {:induction false} LeftField(ns: seq<TreeNode>, t: Tree<TreeNode>, c: nat, back: bool)
    requires Walking(ns, t, c, back) && c < |ns|
    ensures ns[c].left == Ref(ns, LeftOf(t, c))
    ensures LeftOf(t, c) == -1 <==> Lo(t, c) == c
    ensures LeftOf(t, c) == -1 ==> !back
    ensures LeftOf(t, c) != -1 ==> Lo(t, LeftOf(t, c)) == Lo(t, c)
  {
    assert LeftLink(ns, t, c);
    LeftChild(t, c);
  }

  /** At the end of the walk no thread is left: every subtree is in place again. */
  lemma {:induction false} Restored(ns: seq<TreeNode>, t: Tree<TreeNode>, i: nat)
    requires Walking(ns, t, Size(t), false) && ns == Inorder(t) && i < Size(t)
    ensures IsTree(ns[i], At(t, i))
    decreases At(t, i)
  {
    LeftSubtreeAt(t, i);
    RightSubtreeAt(t, i);
    assert LeftLink(ns, t, i) && RightLink(ns, t, Size(t), false, i);
    if LeftOf(t, i) != -1 {
      Restored(ns, t, LeftOf(t, i));
    }
    if RightOf(t, i) != -1 {
      Restored(ns, t, RightOf(t, i));
    }
  }

  lemma {:induction false} RestoredTree(root: TreeNode?, ns: seq<TreeNode>, t: Tree<TreeNode>)
    requires Walking(ns, t, Size(t), false) && ns == Inorder(t) && root == Ref(ns, RootPos(t))
    ensures IsTree(root, t)
    ensures forall i :: 0 <= i < |ns| ==> OwnRight(ns, t, i)
  {
    if t.Node? {
      Restored(ns, t, RootPos(t));
    }
    forall i | 0 <= i < |ns| ensures OwnRight(ns, t, i) {
      assert RightLink(ns, t, |ns|, false, i);
    }
  }

  /** res holds the values of the first k nodes in out. */
  ghost predicate ListsFirst(res: seq<int>, out: seq<TreeNode>, k: int) {
    |res| == k <= |out| && forall j :: 0 <= j < k ==> res[j] == out[j].val
  }

  ghost predicate Lists(res: seq<int>, out: seq<TreeNode>) {
    ListsFirst(res, out, |out|)
  }

  lemma ListsNext(res: seq<int>, out: seq<TreeNode>, k: int, n: TreeNode)
    requires ListsFirst(res, out, k) && k < |out| && out[k] == n
    ensures ListsFirst(res + [n.val], out, k + 1)
  {
  }

  /** How much of the in-order has been listed when the walk stands at c. */
  ghost function InCount(t: Tree<TreeNode>, c: nat, back: bool): nat
    requires c <= Size(t)
  {
    if c == Size(t) || back then c else Lo(t, c)
  }

  lemma {:induction false} InCountSucc(t: Tree<TreeNode>, c: nat)
    requires c < Size(t)
    ensures InCount(t, Succ(t, c).0, Succ(t, c).1) == c + 1
  {
    RightChild(t, c);
  }

  method InorderTraversal(root0: TreeNode?, ghost t: Tree<TreeNode>, ghost ns: seq<TreeNode>)
    returns (res: seq<int>)
    requires IsTree(root0, t) && ns == Inorder(t) && Distinct(ns)
    modifies (set n | n in ns)`right
    ensures Lists(res, Inorder(t))
    ensures IsTree(root0, t) && forall n :: n in ns ==> n.right == old(n.right)
  {
    StartWalking(root0, t);
    res := InorderWalk(root0, t, ns);
    RestoredTree(root0, ns, t);
    forall i | 0 <= i < |ns| ensures ns[i].right == old(ns[i].right) {
      assert old(OwnRight(ns, t, i)) && OwnRight(ns, t, i);
    }
  }

  /** The loop: it ends with everything listed and no thread left. */
  method InorderWalk(root0: TreeNode?, ghost t: Tree<TreeNode>, ghost ns: seq<TreeNode>)
    returns (res: seq<int>)
    requires ns == Inorder(t) && root0 == Ref(ns, Start(t)) && Walking(ns, t, Start(t), false)
    modifies (set n | n in ns)`right
    ensures Walking(ns, t, Size(t), false) && Lists(res, Inorder(t))
  {
    ghost var c: nat, back, k := Start(t), false, 0;
    var root := root0;
    res := [];
    while root != null
      invariant Walking(ns, t, c, back) && root == Ref(ns, c)
      invariant k == InCount(t, c, back) <= |ns| && ListsFirst(res, ns, k)
      decreases |ns| - k, c
    {
      LeftField(ns, t, c, back);
      if root.left != null {
        var predecessor := FindPredecessor(root, ns, t, c, back);
        if predecessor.right == null {
          SetThread(predecessor, root, ns, t, c);
          root := root.left;
          c := LeftOf(t, c);
        } else {
          ListsNext(res, ns, k, root);
          res := res + [root.val];
          CutThread(predecessor, ns, t, c);
          FollowRight(ns, t, c);
          InCountSucc(t, c);
          root := root.right;
          ghost var s := Succ(t, c);
          c, back, k := s.0, s.1, k + 1;
        }
      } else {
        ListsNext(res, ns, k, root);
        res := res + [root.val];
        FollowRight(ns, t, c);
        InCountSucc(t, c);
        root := root.right;
        ghost var s := Succ(t, c);
        c, back, k := s.0, s.1, k + 1;
      }
    }
  }

  /** Listing position c as it is entered: right for the left child, if there is
      one, and for the successor otherwise. */
  lemma {:induction false} PreList(ns: seq<TreeNode>, t: Tree<TreeNode>, c: nat, res: seq<int>)
    requires ns == Inorder(t) && c < |ns| && ListsFirst(res, Preorder(t), PreCount(t, c, false))
    ensures LeftOf(t, c) != -1 ==> ListsFirst(res + [ns[c].val], Preorder(t), PreCount(t, LeftOf(t, c), false))
    ensures LeftOf(t, c) == -1 ==> ListsFirst(res + [ns[c].val], Preorder(t), PreCount(t, c, true))
  {
    PreIndexAt(t, c);
    ListsNext(res, Preorder(t), PreIndex(t, c), ns[c]);
    if LeftOf(t, c) != -1 {
      PreIndexLeft(t, c);
    } else {
      LeftChild(t, c);
    }
  }

  lemma {:induction false} PreStep(ns: seq<TreeNode>, t: Tree<TreeNode>, c: nat)
    requires Walking(ns, t, c, false) && c < |ns|
    ensures var (d, back) := Succ(t, c);
            Walking(ns, t, d, back) && ns[c].right == Ref(ns, d)
            && PreCount(t, d, back) == PreCount(t, c, true) && InCount(t, d, back) == c + 1
  {
    FollowRight(ns, t, c);
    InCountSucc(t, c);
    PreCountSucc(t, c);
  }

  method PreorderTraversal(root0: TreeNode?, ghost t: Tree<TreeNode>, ghost ns: seq<TreeNode>)
    returns (res: seq<int>)
    requires IsTree(root0, t) && ns == Inorder(t) && Distinct(ns)
    modifies (set n | n in ns)`right
    ensures Lists(res, Preorder(t))
    ensures IsTree(root0, t) && forall n :: n in ns ==> n.right == old(n.right)
  {
    StartWalking(root0, t);
    res := PreorderWalk(root0, t, ns);
    RestoredTree(root0, ns, t);
    forall i | 0 <= i < |ns| ensures ns[i].right == old(ns[i].right) {
      assert old(OwnRight(ns, t, i)) && OwnRight(ns, t, i);
    }
  }

  /** The loop: it ends with everything listed and no thread left. */
  method PreorderWalk(root0: TreeNode?, ghost t: Tree<TreeNode>, ghost ns: seq<TreeNode>)
    returns (res: seq<int>)
    requires ns == Inorder(t) && root0 == Ref(ns, Start(t)) && Walking(ns, t, Start(t), false)
    modifies (set n | n in ns)`right
    ensures Walking(ns, t, Size(t), false) && Lists(res, Preorder(t))
  {
    ghost var c: nat, back, k := Start(t), false, 0;
    var root := root0;
    res := [];
    while root != null
      invariant Walking(ns, t, c, back) && root == Ref(ns, c)
      invariant k == InCount(t, c, back) <= |ns|
      invariant ListsFirst(res, Preorder(t), PreCount(t, c, back))
      decreases |ns| - k, c
    {
      LeftField(ns, t, c, back);
      ghost var s := Succ(t, c);
      if root.left != null {
        var pre := FindPredecessor(root, ns, t, c, back);
        if pre.right == null {
          PreList(ns, t, c, res);
          res := res + [root.val];
          SetThread(pre, root, ns, t, c);
          root := root.left;
          c := LeftOf(t, c);
        } else {
          CutThread(pre, ns, t, c);
          PreStep(ns, t, c);
          root := root.right;
          c, back, k := s.0, s.1, k + 1;
        }
      } else {
        PreList(ns, t, c, res);
        res := res + [root.val];
        PreStep(ns, t, c);
        root := root.right;
        c, back, k := s.0, s.1, k + 1;
      }
    }
  }

  // ---------------------------------------------------------------- post-order

  /** Following right fields from node visits exactly the nodes of spine. */
  ghost predicate IsSpine(node: TreeNode?, spine: seq<TreeNode>)
    reads spine
  {
    if spine == [] then node == null else node == spine[0] && IsSpine(node.right, spine[1..])
  }

  lemma {:induction false} SpineOfTree(root: TreeNode?, t: Tree<TreeNode>)
    requires IsTree(root, t)
    ensures IsSpine(root, Spine(t))
  {
    if t.Node? {
      SpineOfTree(root.right, t.right);
      assert Spine(t)[1..] == Spine(t.right);
    }
  }

  /** With its thread cut, the left subtree of position c shows its right spine. */
  lemma {:induction false} SpineInWalk(ns: seq<TreeNode>, t: Tree<TreeNode>, c: nat, p: nat)
    requires Walking(ns, t, c, false) && ns == Inorder(t) && p < c < |ns| && Hi(t, p) == c
    ensures IsSpine(ns[p], Spine(At(t, p)))
    decreases c - p
  {
    SpineStep(ns, t, c, false, p);
    RightSubtreeAt(t, p);
    assert Spine(At(t, p))[1..] == Spine(At(t, p).right);
    if RightOf(t, p) != -1 {
      SpineInWalk(ns, t, c, RightOf(t, p));
    }
  }

  lemma {:induction false} LeftSpine(ns: seq<TreeNode>, t: Tree<TreeNode>, c: nat)
    requires Walking(ns, t, c, false) && ns == Inorder(t) && c < |ns| && LeftOf(t, c) != -1
    ensures IsSpine(ns[c].left, Spine(At(t, c).left))
  {
    assert LeftLink(ns, t, c);
    LeftChild(t, c);
    LeftSubtreeAt(t, c);
    SpineInWalk(ns, t, c, LeftOf(t, c));
  }

  lemma {:induction false} ReverseLists(vs: seq<int>, out: seq<TreeNode>)
    requires Lists(vs, out)
    ensures Lists(Reversed(vs), Reversed(out))
  {
  }

  /** addPath: lists the right spine starting at node in reverse order. */
  method AddPath(vec: seq<int>, start: TreeNode?, ghost out: seq<TreeNode>, ghost k: nat, ghost spine: seq<TreeNode>,
                 ghost ns: seq<TreeNode>, ghost t: Tree<TreeNode>, ghost c: nat, ghost back: bool)
    returns (r: seq<int>)
    requires ListsFirst(vec, out, k) && IsSpine(start, spine)
    requires k + |spine| <= |out| && forall j :: 0 <= j < |spine| ==> out[k + j] == Reversed(spine)[j]
    requires Walking(ns, t, c, back)
    ensures ListsFirst(r, out, k + |spine|)
    ensures Walking(ns, t, c, back)
  {
    var count := 0;
    var node := start;
    r := vec;
    while node != null
      invariant 0 <= count <= |spine| && |r| == |vec| + count && r[..|vec|] == vec
      invariant IsSpine(node, spine[count..])
      invariant forall j :: 0 <= j < count ==> r[|vec| + j] == spine[j].val
      decreases |spine| - count
    {
      assert spine[count..][1..] == spine[count + 1..];
      count := count + 1;
      r := r + [node.val];
      node := node.right;
    }
    ReverseLists(r[|vec|..], spine);
    r := r[..|r| - count] + Reversed(r[|r| - count..]);
    forall j | k <= j < k + |spine| ensures r[j] == out[j].val {
      assert out[k + (j - k)] == Reversed(spine)[j - k];
    }
  }

  lemma {:induction false} PostSlices(t: Tree<TreeNode>, c: nat)
    requires c < Size(t)
    ensures 0 <= PostCount(t, c, true) && PostCount(t, c, true) + |Spine(At(t, c).left)| == PostDone(t, c)
    ensures forall j :: 0 <= j < |Spine(At(t, c).left)| ==>
              Postorder(t)[PostCount(t, c, true) + j] == Reversed(Spine(At(t, c).left))[j]
    ensures PostCount(t, Succ(t, c).0, Succ(t, c).1) == PostDone(t, c)
  {
    PostCountBounds(t, c);
    PostCountSucc(t, c);
    forall j | 0 <= j < |Spine(At(t, c).left)|
      ensures Postorder(t)[PostCount(t, c, true) + j] == Reversed(Spine(At(t, c).left))[j]
    {
      PostSlice(t, c, PostCount(t, c, true), Spine(At(t, c).left), j);
    }
  }

  /** The branch taken on coming back: cut the thread, then list the right spine
      of the left subtree. */
  method ListLeftSpine(p1: TreeNode, p2: TreeNode, res: seq<int>, ghost ns: seq<TreeNode>, ghost t: Tree<TreeNode>,
                       ghost c: nat)
    returns (r: seq<int>)
    requires Walking(ns, t, c, true) && ns == Inorder(t) && p1 == ns[c]
    requires LeftOf(t, c) != -1 && p2 == ns[c - 1] && RightOf(t, c - 1) == -1
    requires ListsFirst(res, Postorder(t), PostCount(t, c, true))
    modifies p2`right
    ensures var (d, back) := Succ(t, c);
            Walking(ns, t, d, back) && p1.right == Ref(ns, d)
            && ListsFirst(r, Postorder(t), PostCount(t, d, back)) && InCount(t, d, back) == c + 1
  {
    CutThread(p2, ns, t, c);
    LeftSpine(ns, t, c);
    PostSlices(t, c);
    r := AddPath(res, p1.left, Postorder(t), PostCount(t, c, true), Spine(At(t, c).left), ns, t, c, false);
    FollowRight(ns, t, c);
    InCountSucc(t, c);
  }

  /** Leaving a node without left subtree: nothing is listed. */
  lemma {:induction false} PostStep(ns: seq<TreeNode>, t: Tree<TreeNode>, c: nat)
    requires Walking(ns, t, c, false) && c < |ns| && LeftOf(t, c) == -1
    ensures var (d, back) := Succ(t, c);
            Walking(ns, t, d, back) && ns[c].right == Ref(ns, d)
            && PostCount(t, d, back) == PostCount(t, c, false) && InCount(t, d, back) == c + 1
  {
    FollowRight(ns, t, c);
    InCountSucc(t, c);
    PostCountSucc(t, c);
    LeftChild(t, c);
  }

  method PostorderTraversal(root: TreeNode?, ghost t: Tree<TreeNode>, ghost ns: seq<TreeNode>)
    returns (res: seq<int>)
    requires IsTree(root, t) && ns == Inorder(t) && Distinct(ns)
    modifies (set n | n in ns)`right
    ensures Lists(res, Postorder(t))
    ensures IsTree(root, t) && forall n :: n in ns ==> n.right == old(n.right)
  {
    res := [];
    if root == null {
      return;
    }
    StartWalking(root, t);
    res := PostorderWalk(root, t, ns);
    RestoredTree(root, ns, t);
    res := ListRootSpine(root, res, ns, t);
    RestoredTree(root, ns, t);
    forall i | 0 <= i < |ns| ensures ns[i].right == old(ns[i].right) {
      assert old(OwnRight(ns, t, i)) && OwnRight(ns, t, i);
    }
  }

  method PostorderWalk(root: TreeNode, ghost t: Tree<TreeNode>, ghost ns: seq<TreeNode>)
    returns (res: seq<int>)
    requires t.Node? && ns == Inorder(t) && root == Ref(ns, RootPos(t)) && Walking(ns, t, RootPos(t), false)
    modifies (set n | n in ns)`right
    ensures Walking(ns, t, Size(t), false) && ListsFirst(res, Postorder(t), PostCount(t, Size(t), false))
  {
    res := [];
    ghost var c: nat, back, k: nat := RootPos(t), false, 0;
    var p1: TreeNode? := root;
    while p1 != null
      invariant Walking(ns, t, c, back) && p1 == Ref(ns, c)
      invariant k == InCount(t, c, back) <= |ns|
      invariant ListsFirst(res, Postorder(t), PostCount(t, c, back))
      decreases |ns| - k, c
    {
      LeftField(ns, t, c, back);
      ghost var s := Succ(t, c);
      if p1.left != null {
        var p2 := FindPredecessor(p1, ns, t, c, back);
        if p2.right == null {
          PostIndexLeft(t, c);
          SetThread(p2, p1, ns, t, c);
          p1 := p1.left;
          c := LeftOf(t, c);
        } else {
          res := ListLeftSpine(p1, p2, res, ns, t, c);
          p1 := p1.right;
          c, back, k := s.0, s.1, k + 1;
        }
      } else {
        PostStep(ns, t, c);
        p1 := p1.right;
        c, back, k := s.0, s.1, k + 1;
      }
    }
  }

  method ListRootSpine(root: TreeNode?, res: seq<int>, ghost ns: seq<TreeNode>, ghost t: Tree<TreeNode>)
    returns (r: seq<int>)
    requires IsTree(root, t) && ListsFirst(res, Postorder(t), PostCount(t, Size(t), false))
    requires Walking(ns, t, Size(t), false)
    ensures Lists(r, Postorder(t)) && Walking(ns, t, Size(t), false)
  {
    SpineOfTree(root, t);
    RootSpine(t);
    r := AddPath(res, root, Postorder(t), PostCount(t, Size(t), false), Spine(t), ns, t, Size(t), false);
  }

  lemma {:induction false} RootSpine(t: Tree<TreeNode>)
    ensures var p := PostCount(t, Size(t), false);
            && 0 <= p && p + |Spine(t)| == Size(t)
            && forall j :: 0 <= j < |Spine(t)| ==> Postorder(t)[p + j] == Reversed(Spine(t))[j]
  {
    var p := PostCount(t, Size(t), false);
    forall j | 0 <= j < |Spine(t)| ensures Postorder(t)[p + j] == Reversed(Spine(t))[j] {
      PostorderEndsWithSpine(t, j);
    }
  }
}
