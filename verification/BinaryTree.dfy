/** Finite binary trees as values, their three traversals, and the arithmetic of
    in-order positions that both the Morris traversals and the stack-based
    builders rest on.  A node is named by its position in the in-order sequence. */
module BinaryTree {
  import opened Common

  datatype Tree<+T> = Leaf | Node(left: Tree<T>, value: T, right: Tree<T>)

  function Size<T>(t: Tree<T>): nat {
    match t
    case Leaf => 0
    case Node(l, _, r) => Size(l) + 1 + Size(r)
  }

  function Inorder<T>(t: Tree<T>): (s: seq<T>)
    ensures |s| == Size(t)
  {
    match t
    case Leaf => []
    case Node(l, v, r) => Inorder(l) + [v] + Inorder(r)
  }

  function Preorder<T>(t: Tree<T>): (s: seq<T>)
    ensures |s| == Size(t)
  {
    match t
    case Leaf => []
    case Node(l, v, r) => [v] + Preorder(l) + Preorder(r)
  }

  function Postorder<T>(t: Tree<T>): (s: seq<T>)
    ensures |s| == Size(t)
  {
    match t
    case Leaf => []
    case Node(l, v, r) => Postorder(l) + Postorder(r) + [v]
  }

  /** Position of the root of t, or -1 for the empty tree. */
  function RootPos<T>(t: Tree<T>): int {
    if t.Leaf? then -1 else Size(t.left)
  }

  function Shift(p: int, offset: nat): int {
    if p == -1 then -1 else p + offset
  }

  /** First position of the subtree rooted at position i. */
  function Lo<T>(t: Tree<T>, i: nat): (r: nat)
    requires i < Size(t)
    ensures r <= i
  {
    var n := Size(t.left);
    if i < n then Lo(t.left, i) else if i == n then 0 else n + 1 + Lo(t.right, i - n - 1)
  }

  /** One past the last position of the subtree rooted at position i. */
  function Hi<T>(t: Tree<T>, i: nat): (r: nat)
    requires i < Size(t)
    ensures i < r <= Size(t)
  {
    var n := Size(t.left);
    if i < n then Hi(t.left, i) else if i == n then Size(t) else n + 1 + Hi(t.right, i - n - 1)
  }

  /** Position of the left child of position i, or -1. */
  function LeftOf<T>(t: Tree<T>, i: nat): (r: int)
    requires i < Size(t)
    ensures -1 <= r < i
  {
    var n := Size(t.left);
    if i < n then LeftOf(t.left, i)
    else if i == n then RootPos(t.left)
    else Shift(LeftOf(t.right, i - n - 1), n + 1)
  }

  /** Position of the right child of position i, or -1. */
  function RightOf<T>(t: Tree<T>, i: nat): (r: int)
    requires i < Size(t)
    ensures r == -1 || i < r < Size(t)
  {
    var n := Size(t.left);
    if i < n then RightOf(t.left, i)
    else if i == n then Shift(RootPos(t.right), n + 1)
    else Shift(RightOf(t.right, i - n - 1), n + 1)
  }

  /** Position i lies in the left subtree of position j. */
  predicate InLeftSubtree<T>(t: Tree<T>, i: int, j: int) {
    0 <= i < j < Size(t) && Lo(t, j) <= i
  }

  /** The root lies in nobody's left subtree. */
  lemma {:induction false} RootIsTop<T>(t: Tree<T>, j: int)
    requires t.Node?
    ensures !InLeftSubtree(t, RootPos(t), j)
  {
  }

  /** Left-subtree membership seen from inside the two subtrees. */
  lemma {:induction false} SplitLeftSubtree<T>(t: Tree<T>, i: int, j: int)
    requires t.Node? && 0 <= i < Size(t)
    ensures var n := Size(t.left);
            InLeftSubtree(t, i, j) <==>
              if i < n then j == n || InLeftSubtree(t.left, i, j)
              else i > n && InLeftSubtree(t.right, i - n - 1, j - n - 1)
  {
  }

  /** A node without left child starts its own subtree; a left child shares its
      parent's first position and ends just before the parent. */
  lemma {:induction false} LeftChild<T>(t: Tree<T>, i: nat)
    requires i < Size(t)
    ensures LeftOf(t, i) == -1 <==> Lo(t, i) == i
    ensures LeftOf(t, i) != -1 ==>
              var l := LeftOf(t, i);
              Lo(t, l) == Lo(t, i) && Hi(t, l) == i
  {
    var n := Size(t.left);
    if i < n {
      LeftChild(t.left, i);
    } else if i > n {
      LeftChild(t.right, i - n - 1);
    }
  }

  /** Going to a left child adds exactly the parent to the nodes whose left
      subtree one is in. */
  lemma {:induction false} LeftChildAncestors<T>(t: Tree<T>, i: nat, j: int)
    requires i < Size(t) && LeftOf(t, i) != -1
    ensures InLeftSubtree(t, LeftOf(t, i), j) <==> j == i || InLeftSubtree(t, i, j)
  {
    var n := Size(t.left);
    SplitLeftSubtree(t, i, j);
    SplitLeftSubtree(t, LeftOf(t, i), j);
    if i < n {
      LeftChildAncestors(t.left, i, j);
    } else if i == n {
      RootIsTop(t.left, j);
    } else {
      LeftChildAncestors(t.right, i - n - 1, j - n - 1);
    }
  }

  /** Where an in-order walk goes after finishing position i and its left subtree:
      to the right child (entering it), or else up to position i+1 (coming back
      from its left subtree), or off the end. */
  function Succ<T>(t: Tree<T>, i: nat): (r: (nat, bool))
    requires i < Size(t)
    ensures i < r.0 <= Size(t)
  {
    if RightOf(t, i) != -1 then (RightOf(t, i), false) else (i + 1, i + 1 < Size(t))
  }

  /** A right child starts just after its parent and ends with it. */
  lemma {:induction false} RightChild<T>(t: Tree<T>, i: nat)
    requires i < Size(t)
    ensures RightOf(t, i) == -1 ==> Hi(t, i) == i + 1
    ensures RightOf(t, i) != -1 ==>
              var r := RightOf(t, i);
              Lo(t, r) == i + 1 && Hi(t, r) == Hi(t, i)
  {
    var n := Size(t.left);
    if i < n {
      RightChild(t.left, i);
    } else if i > n {
      RightChild(t.right, i - n - 1);
    }
  }

  /** After a position without right child comes the node whose left subtree it closes. */
  lemma {:induction false} NoRightChild<T>(t: Tree<T>, i: nat)
    requires i + 1 < Size(t) && RightOf(t, i) == -1
    ensures Lo(t, i + 1) <= i
  {
    var n := Size(t.left);
    if i + 1 < n {
      NoRightChild(t.left, i);
    } else if i > n {
      NoRightChild(t.right, i - n - 1);
    }
  }

  /** Moving to the successor does not change which nodes still wait for their
      left subtree to be finished, the node one comes back to included. */
  lemma {:induction false} SuccAncestors<T>(t: Tree<T>, i: nat, j: int)
    requires i < Size(t)
    ensures var (c, back) := Succ(t, i);
            InLeftSubtree(t, i, j) <==> (back && j == c) || InLeftSubtree(t, c, j)
  {
    var n := Size(t.left);
    var (c, back) := Succ(t, i);
    SplitLeftSubtree(t, i, j);
    if c < Size(t) {
      SplitLeftSubtree(t, c, j);
    }
    if i < n {
      SuccAncestors(t.left, i, j);
    } else if i == n {
      if t.right.Node? {
        RootIsTop(t.right, j - n - 1);
      }
    } else {
      SuccAncestors(t.right, i - n - 1, j - n - 1);
    }
  }

  /** The subtree rooted at position i. */
  function At<T>(t: Tree<T>, i: nat): (s: Tree<T>)
    requires i < Size(t)
    ensures s.Node? && s.value == Inorder(t)[i]
  {
    var n := Size(t.left);
    if i < n then At(t.left, i) else if i == n then t else At(t.right, i - n - 1)
  }

  /** The children of a position are the roots of its two subtrees. */
  lemma {:induction false} LeftSubtreeAt<T>(t: Tree<T>, i: nat)
    requires i < Size(t)
    ensures At(t, i).left == if LeftOf(t, i) == -1 then Leaf else At(t, LeftOf(t, i))
  {
    var n := Size(t.left);
    if i < n {
      LeftSubtreeAt(t.left, i);
    } else if i > n {
      LeftSubtreeAt(t.right, i - n - 1);
    }
  }

  lemma {:induction false} RightSubtreeAt<T>(t: Tree<T>, i: nat)
    requires i < Size(t)
    ensures At(t, i).right == if RightOf(t, i) == -1 then Leaf else At(t, RightOf(t, i))
  {
    var n := Size(t.left);
    if i < n {
      RightSubtreeAt(t.left, i);
    } else if i > n {
      RightSubtreeAt(t.right, i - n - 1);
    }
  }

  /** How many nodes precede position i in pre-order. */
  function PreIndex<T>(t: Tree<T>, i: nat): (r: nat)
    requires i < Size(t)
    ensures r < Size(t)
  {
    var n := Size(t.left);
    if i < n then 1 + PreIndex(t.left, i) else if i == n then 0 else n + 1 + PreIndex(t.right, i - n - 1)
  }

  lemma {:induction false} OrderInLeft<T>(t: Tree<T>, i: nat, k: nat)
    requires t.Node? && i < Size(t.left) && k < Size(t.left)
    ensures Inorder(t)[i] == Inorder(t.left)[i] && Preorder(t)[1 + k] == Preorder(t.left)[k]
  {
  }

  lemma {:induction false} OrderInRight<T>(t: Tree<T>, i: nat, k: nat)
    requires t.Node? && i < Size(t.right) && k < Size(t.right)
    ensures var n := Size(t.left) + 1;
            Inorder(t)[n + i] == Inorder(t.right)[i] && Preorder(t)[n + k] == Preorder(t.right)[k]
  {
  }

  lemma {:induction false} PreIndexAt<T>(t: Tree<T>, i: nat)
    requires i < Size(t)
    ensures Preorder(t)[PreIndex(t, i)] == Inorder(t)[i]
  {
    var n := Size(t.left);
    if i < n {
      PreIndexAt(t.left, i);
      OrderInLeft(t, i, PreIndex(t.left, i));
    } else if i > n {
      PreIndexAt(t.right, i - n - 1);
      OrderInRight(t, i - n - 1, PreIndex(t.right, i - n - 1));
    }
  }

  lemma {:induction false} PreIndexLeft<T>(t: Tree<T>, i: nat)
    requires i < Size(t) && LeftOf(t, i) != -1
    ensures PreIndex(t, LeftOf(t, i)) == PreIndex(t, i) + 1
  {
    var n := Size(t.left);
    if i < n {
      PreIndexLeft(t.left, i);
    } else if i > n {
      PreIndexLeft(t.right, i - n - 1);
    }
  }

  /** How much of the pre-order has been listed when the walk stands at c. */
  function PreCount<T>(t: Tree<T>, c: nat, back: bool): nat
    requires c <= Size(t)
  {
    if c == Size(t) then c else if back then PreIndex(t, c) + 1 + (c - Lo(t, c)) else PreIndex(t, c)
  }

  lemma {:induction false} SuccInLeft<T>(t: Tree<T>, c: nat)
    requires t.Node? && c < Size(t.left)
    ensures Succ(t, c) == (Succ(t.left, c).0, Succ(t.left, c).1 || Succ(t.left, c).0 == Size(t.left))
  {
  }

  lemma {:induction false} SuccInRight<T>(t: Tree<T>, c: nat)
    requires t.Node? && c < Size(t.right)
    ensures Succ(t, Size(t.left) + 1 + c) == (Size(t.left) + 1 + Succ(t.right, c).0, Succ(t.right, c).1)
  {
  }

  lemma {:induction false} PreCountInLeft<T>(t: Tree<T>, d: nat, back: bool)
    requires t.Node? && d <= Size(t.left)
    ensures PreCount(t, d, back || d == Size(t.left)) == 1 + PreCount(t.left, d, back)
  {
  }

  lemma {:induction false} PreCountInRight<T>(t: Tree<T>, d: nat, back: bool)
    requires t.Node? && d <= Size(t.right)
    ensures PreCount(t, Size(t.left) + 1 + d, back) == Size(t.left) + 1 + PreCount(t.right, d, back)
  {
  }

  lemma {:induction false} PreCountSucc<T>(t: Tree<T>, c: nat)
    requires c < Size(t)
    ensures PreCount(t, Succ(t, c).0, Succ(t, c).1) == PreCount(t, c, true)
  {
    var n := Size(t.left);
    if c < n {
      PreCountSucc(t.left, c);
      PreCountSuccLeft(t, c);
    } else if c == n {
      PreCountSuccRoot(t);
    } else {
      PreCountSucc(t.right, c - n - 1);
      PreCountSuccRight(t, c - n - 1);
    }
  }

  lemma {:induction false} PreCountSuccLeft<T>(t: Tree<T>, c: nat)
    requires t.Node? && c < Size(t.left)
    requires PreCount(t.left, Succ(t.left, c).0, Succ(t.left, c).1) == PreCount(t.left, c, true)
    ensures PreCount(t, Succ(t, c).0, Succ(t, c).1) == PreCount(t, c, true)
  {
    SuccInLeft(t, c);
    PreCountInLeft(t, Succ(t.left, c).0, Succ(t.left, c).1);
    PreCountInLeft(t, c, true);
  }

  lemma {:induction false} PreCountSuccRight<T>(t: Tree<T>, c: nat)
    requires t.Node? && c < Size(t.right)
    requires PreCount(t.right, Succ(t.right, c).0, Succ(t.right, c).1) == PreCount(t.right, c, true)
    ensures var i := Size(t.left) + 1 + c; PreCount(t, Succ(t, i).0, Succ(t, i).1) == PreCount(t, i, true)
  {
    SuccInRight(t, c);
    PreCountInRight(t, Succ(t.right, c).0, Succ(t.right, c).1);
    PreCountInRight(t, c, true);
  }

  lemma {:induction false} PreCountSuccRoot<T>(t: Tree<T>)
    requires t.Node?
    ensures var n := Size(t.left); PreCount(t, Succ(t, n).0, Succ(t, n).1) == PreCount(t, n, true)
  {
    if t.right.Node? {
      PreCountInRight(t, RootPos(t.right), false);
      assert PreIndex(t.right, RootPos(t.right)) == 0;
    }
  }
}
