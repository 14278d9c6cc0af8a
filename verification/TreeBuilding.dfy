/** Rebuilding a binary tree with distinct labels from two of its traversals, by
    recursion over index ranges and with an explicit stack. */
module TreeBuilding {
  import opened Common
  import opened BinaryTree
  import opened HeapTree

  // ---------------------------------------------------------------- recursion over index ranges

  /** inorderIndexMap: where each label stands in the in-order array. */
  ghost predicate IsIndex(index: map<int, int>, ino: seq<int>) {
    forall k :: 0 <= k < |ino| ==> ino[k] in index && index[ino[k]] == k
  }

  /** The labels of t fill positions [i, i + Size(t)) of s in the given order. */
  ghost predicate Lies(s: seq<int>, i: int, labels: seq<int>) {
    0 <= i && i + |labels| <= |s| && forall k :: 0 <= k < |labels| ==> s[i + k] == labels[k]
  }

  lemma LiesParts(s: seq<int>, i: int, a: seq<int>, b: seq<int>, c: seq<int>)
    requires Lies(s, i, a + b + c)
    ensures Lies(s, i, a) && Lies(s, i + |a|, b) && Lies(s, i + |a| + |b|, c)
  {
    var l := a + b + c;
    assert forall k :: 0 <= k < |a| ==> l[k] == a[k] && s[i + k] == l[k];
    assert forall k :: 0 <= k < |b| ==> l[|a| + k] == b[k] && s[i + (|a| + k)] == l[|a| + k];
    assert forall k :: 0 <= k < |c| ==> l[|a| + |b| + k] == c[k] && s[i + (|a| + |b| + k)] == l[|a| + |b| + k];
  }

  lemma LiesOne(s: seq<int>, i: int, x: int)
    requires Lies(s, i, [x])
    ensures s[i] == x
  {
    assert [x][0] == x && s[i + 0] == [x][0];
  }

  /** The root of t is found where the left subtree ends. */
  lemma {:induction false} RootFound(ino: seq<int>, index: map<int, int>, i: int, t: Tree<int>)
    requires t.Node? && IsIndex(index, ino) && Lies(ino, i, Inorder(t))
    ensures t.value in index && index[t.value] == i + Size(t.left)
    ensures Lies(ino, i, Inorder(t.left)) && Lies(ino, i + Size(t.left) + 1, Inorder(t.right))
  {
    LiesParts(ino, i, Inorder(t.left), [t.value], Inorder(t.right));
    LiesOne(ino, i + Size(t.left), t.value);
  }

  /** The labels of a tree of nodes. */
  function Labels(u: Tree<TreeNode>): Tree<int> {
    match u
    case Leaf => Leaf
    case Node(l, n, r) => Node(Labels(l), n.val, Labels(r))
  }

  /** The heap below root is t, in nodes of its own. */
  ghost predicate Holds(root: TreeNode?, u: Tree<TreeNode>, t: Tree<int>)
    reads set n | n in Inorder(u)
  {
    IsTree(root, u) && Distinct(Inorder(u)) && Labels(u) == t
  }

  ghost predicate Within(u: Tree<TreeNode>, made: set<TreeNode>) {
    forall n :: n in Inorder(u) ==> n in made
  }

  /** A node whose subtrees are in place holds its tree. */
  method SetChildren(node: TreeNode, left: TreeNode?, right: TreeNode?, ghost l: Tree<TreeNode>,
                     ghost r: Tree<TreeNode>, ghost lm: set<TreeNode>, ghost rm: set<TreeNode>, ghost t: Tree<int>)
    requires t.Node? && node.val == t.value && Holds(left, l, t.left) && Holds(right, r, t.right)
    requires Within(l, lm) && Within(r, rm) && lm !! rm && node !in lm && node !in rm
    modifies node
    ensures Holds(node, Node(l, node, r), t) && Within(Node(l, node, r), lm + rm + {node})
  {
    node.left := left;
    node.right := right;
    DistinctParts(Inorder(l), node, Inorder(r));
  }

  /** The ranges of the two subtrees, as the helper computes them. */
  lemma {:induction false} SplitPreIn(pre: seq<int>, preStart: int, ino: seq<int>, inStart: int, index: map<int, int>,
                                      t: Tree<int>)
    requires t.Node? && IsIndex(index, ino) && Lies(pre, preStart, Preorder(t)) && Lies(ino, inStart, Inorder(t))
    ensures pre[preStart] == t.value && t.value in index && index[t.value] == inStart + Size(t.left)
    ensures Lies(pre, preStart + 1, Preorder(t.left)) && Lies(pre, preStart + 1 + Size(t.left), Preorder(t.right))
    ensures Lies(ino, inStart, Inorder(t.left)) && Lies(ino, inStart + Size(t.left) + 1, Inorder(t.right))
  {
    LiesParts(pre, preStart, [t.value], Preorder(t.left), Preorder(t.right));
    LiesOne(pre, preStart, t.value);
    RootFound(ino, index, inStart, t);
  }

  lemma {:induction false} SplitInPost(ino: seq<int>, inStart: int, post: seq<int>, postStart: int,
                                       index: map<int, int>, t: Tree<int>)
    requires t.Node? && IsIndex(index, ino) && Lies(post, postStart, Postorder(t)) && Lies(ino, inStart, Inorder(t))
    ensures post[postStart + Size(t) - 1] == t.value && t.value in index && index[t.value] == inStart + Size(t.left)
    ensures Lies(post, postStart, Postorder(t.left)) && Lies(post, postStart + Size(t.left), Postorder(t.right))
    ensures Lies(ino, inStart, Inorder(t.left)) && Lies(ino, inStart + Size(t.left) + 1, Inorder(t.right))
  {
    LiesParts(post, postStart, Postorder(t.left), Postorder(t.right), [t.value]);
    LiesOne(post, postStart + Size(t) - 1, t.value);
    RootFound(ino, index, inStart, t);
  }

  lemma DistinctParts<T>(a: seq<T>, x: T, b: seq<T>)
    requires Distinct(a) && Distinct(b) && x !in a && x !in b && forall y :: y in b ==> y !in a
    ensures Distinct(a + [x] + b)
  {
    var s := a + [x] + b;
    forall i, j | 0 <= i < j < |s| ensures s[i] != s[j] {
      if j > |a| {
        assert s[j] == b[j - |a| - 1] && b[j - |a| - 1] in b;
      }
      assert i < |a| ==> s[i] == a[i] && a[i] in a;
    }
  }

  /** buildTreeHelper from pre-order and in-order ranges of some tree t. */
  method BuildPreIn(pre: seq<int>, preStart: int, preEnd: int, ino: seq<int>, inStart: int, inEnd: int,
                    index: map<int, int>, ghost t: Tree<int>)
    returns (root: TreeNode?, ghost u: Tree<TreeNode>, ghost made: set<TreeNode>)
    requires IsIndex(index, ino) && preEnd - preStart == inEnd - inStart == Size(t) - 1
    requires Lies(pre, preStart, Preorder(t)) && Lies(ino, inStart, Inorder(t))
    ensures Holds(root, u, t) && Within(u, made) && fresh(made)
    decreases t
  {
    if preStart > preEnd || inStart > inEnd {
      return null, Leaf, {};
    }
    SplitPreIn(pre, preStart, ino, inStart, index, t);
    var rootVal := pre[preStart];
    var node := new TreeNode(rootVal);
    var rootIndex := index[rootVal];
    var leftSubtreeSize := rootIndex - inStart;
    ghost var l, r, lm, rm;
    var left, right;
    left, l, lm :=
      BuildPreIn(pre, preStart + 1, preStart + leftSubtreeSize, ino, inStart, rootIndex - 1, index, t.left);
    right, r, rm := BuildPreIn(pre, preStart + leftSubtreeSize + 1, preEnd, ino, rootIndex + 1, inEnd, index, t.right);
    SetChildren(node, left, right, l, r, lm, rm, t);
    root, u, made := node, Node(l, node, r), lm + rm + {node};
  }

  /** buildTreeHelper from in-order and post-order ranges of some tree t. */
  method BuildInPost(ino: seq<int>, inStart: int, inEnd: int, post: seq<int>, postStart: int, postEnd: int,
                     index: map<int, int>, ghost t: Tree<int>)
    returns (root: TreeNode?, ghost u: Tree<TreeNode>, ghost made: set<TreeNode>)
    requires IsIndex(index, ino) && postEnd - postStart == inEnd - inStart == Size(t) - 1
    requires Lies(post, postStart, Postorder(t)) && Lies(ino, inStart, Inorder(t))
    ensures Holds(root, u, t) && Within(u, made) && fresh(made)
    decreases t
  {
    if inStart > inEnd || postStart > postEnd {
      return null, Leaf, {};
    }
    SplitInPost(ino, inStart, post, postStart, index, t);
    var rootVal := post[postEnd];
    var node := new TreeNode(rootVal);
    var rootIndex := index[rootVal];
    var leftSubtreeSize := rootIndex - inStart;
    ghost var l, r, lm, rm;
    var left, right;
    left, l, lm :=
      BuildInPost(ino, inStart, rootIndex - 1, post, postStart, postStart + leftSubtreeSize - 1, index, t.left);
    right, r, rm :=
      BuildInPost(ino, rootIndex + 1, inEnd, post, postStart + leftSubtreeSize, postEnd - 1, index, t.right);
    SetChildren(node, left, right, l, r, lm, rm, t);
    root, u, made := node, Node(l, node, r), lm + rm + {node};
  }

  /** The loop that fills inorderIndexMap. */
  method IndexOf(inorder: seq<int>) returns (index: map<int, int>)
    requires Distinct(inorder)
    ensures IsIndex(index, inorder)
  {
    index := map[];
    for i := 0 to |inorder|
      invariant forall k :: 0 <= k < i ==> inorder[k] in index && index[inorder[k]] == k
    {
      index := index[inorder[i] := i];
    }
  }

  /** buildTree from the pre-order and in-order of a tree returns that tree. */
  method BuildTreePreIn(preorder: seq<int>, inorder: seq<int>, ghost t: Tree<int>)
    returns (root: TreeNode?, ghost u: Tree<TreeNode>, ghost nodes: set<TreeNode>)
    requires preorder == Preorder(t) && inorder == Inorder(t) && Distinct(inorder)
    ensures Holds(root, u, t) && Within(u, nodes) && fresh(nodes)
  {
    var index := IndexOf(inorder);
    root, u, nodes := BuildPreIn(preorder, 0, |preorder| - 1, inorder, 0, |inorder| - 1, index, t);
  }

  /** buildTree from the in-order and post-order of a tree returns that tree. */
  method BuildTreeInPost(inorder: seq<int>, postorder: seq<int>, ghost t: Tree<int>)
    returns (root: TreeNode?, ghost u: Tree<TreeNode>, ghost nodes: set<TreeNode>)
    requires postorder == Postorder(t) && inorder == Inorder(t) && Distinct(inorder)
    ensures Holds(root, u, t) && Within(u, nodes) && fresh(nodes)
  {
    var index := IndexOf(inorder);
    root, u, nodes := BuildInPost(inorder, 0, |inorder| - 1, postorder, 0, |postorder| - 1, index, t);
  }

  // ---------------------------------------------------------------- uniqueness

  /** Two trees with the same distinct labels in both orders are the same tree. */
  lemma {:induction false} SameTraversals(t: Tree<int>, u: Tree<int>)
    requires Preorder(t) == Preorder(u) && Inorder(t) == Inorder(u) && Distinct(Inorder(t))
    ensures t == u
  {
    if t.Node? {
      var n, m := Size(t.left), Size(u.left);
      assert Preorder(t)[0] == t.value && Preorder(u)[0] == u.value;
      assert Inorder(t)[n] == t.value && Inorder(u)[m] == u.value;
      assert n == m;
      assert Inorder(t)[..n] == Inorder(t.left) && Inorder(u)[..n] == Inorder(u.left);
      assert Inorder(t)[n + 1..] == Inorder(t.right) && Inorder(u)[n + 1..] == Inorder(u.right);
      assert Preorder(t)[1..n + 1] == Preorder(t.left) && Preorder(u)[1..n + 1] == Preorder(u.left);
      assert Preorder(t)[n + 1..] == Preorder(t.right) && Preorder(u)[n + 1..] == Preorder(u.right);
      SameTraversals(t.left, u.left);
      SameTraversals(t.right, u.right);
    }
  }

  // ---------------------------------------------------------------- positions and parents

  lemma {:induction false} PreIndexUnique<T>(t: Tree<T>, p: nat, q: nat)
    requires p < Size(t) && q < Size(t) && PreIndex(t, p) == PreIndex(t, q)
    ensures p == q
  {
    var n := Size(t.left);
    if p < n && q < n {
      PreIndexUnique(t.left, p, q);
    } else if p > n && q > n {
      PreIndexUnique(t.right, p - n - 1, q - n - 1);
    }
  }

  lemma {:induction false} PreIndexDiffers<T>(t: Tree<T>, p: nat, q: nat)
    requires p < Size(t) && q < Size(t)
    ensures p == q || PreIndex(t, p) != PreIndex(t, q)
  {
    if PreIndex(t, p) == PreIndex(t, q) {
      PreIndexUnique(t, p, q);
    }
  }

  /** No position is a left child and a right child at once. */
  lemma {:induction false} ChildOnce<T>(t: Tree<T>, p: nat, q: nat)
    requires p < Size(t) && q < Size(t) && LeftOf(t, p) != -1
    ensures LeftOf(t, p) != RightOf(t, q)
  {
    var n := Size(t.left);
    if p < n && q < n {
      ChildOnce(t.left, p, q);
    } else if p > n && q > n {
      ChildOnce(t.right, p - n - 1, q - n - 1);
    }
  }

  lemma {:induction false} LeftOnce<T>(t: Tree<T>, p: nat, q: nat)
    requires p < Size(t) && q < Size(t) && LeftOf(t, p) == LeftOf(t, q) != -1
    ensures p == q
  {
    LeftChild(t, p);
    LeftChild(t, q);
  }

  lemma {:induction false} RightOnce<T>(t: Tree<T>, p: nat, q: nat)
    requires p < Size(t) && q < Size(t) && RightOf(t, p) == RightOf(t, q) != -1
    ensures p == q
  {
    RightChild(t, p);
    RightChild(t, q);
  }

  // ---------------------------------------------------------------- the nodes made so far

  ghost function First(n: TreeNode, flip: bool): TreeNode?
    reads n
  {
    if flip then n.right else n.left
  }

  ghost function Second(n: TreeNode, flip: bool): TreeNode?
    reads n
  {
    if flip then n.left else n.right
  }

  /** The node made for position q, if it has been made. */
  ghost function Made(t: Tree<int>, made: seq<TreeNode>, q: int): TreeNode?
    requires q < Size(t)
  {
    if q < 0 || PreIndex(t, q) >= |made| then null else made[PreIndex(t, q)]
  }

  /** The node made for position p points to its children as far as they exist. */
  ghost predicate LinkOk(t: Tree<int>, made: seq<TreeNode>, p: nat, flip: bool)
    requires p < Size(t) && PreIndex(t, p) < |made|
    reads made
  {
    var n := made[PreIndex(t, p)];
    First(n, flip) == Made(t, made, LeftOf(t, p)) && Second(n, flip) == Made(t, made, RightOf(t, p))
  }

  /** The two child fields of every node made, as values. */
  datatype Links = Links(first: seq<TreeNode?>, second: seq<TreeNode?>)

  ghost predicate Fields(made: seq<TreeNode>, ls: Links, flip: bool)
    reads made
  {
    && |ls.first| == |ls.second| == |made|
    && forall k :: 0 <= k < |made| ==> First(made[k], flip) == ls.first[k] && Second(made[k], flip) == ls.second[k]
  }

  ghost predicate LinkAt(t: Tree<int>, made: seq<TreeNode>, ls: Links, p: nat)
    requires p < Size(t) && PreIndex(t, p) < |made| == |ls.first| == |ls.second|
  {
    var i := PreIndex(t, p);
    ls.first[i] == Made(t, made, LeftOf(t, p)) && ls.second[i] == Made(t, made, RightOf(t, p))
  }

  ghost predicate Joined(t: Tree<int>, made: seq<TreeNode>, ls: Links) {
    && |made| == |ls.first| == |ls.second|
    && forall p: nat :: p < Size(t) && PreIndex(t, p) < |made| ==> LinkAt(t, made, ls, p)
  }

  /** made are the nodes of t in pre-order, as far as they have been created, with
      their labels and links. */
  ghost predicate Building(t: Tree<int>, made: seq<TreeNode>, labels: seq<int>, flip: bool, ls: Links)
    reads made
  {
    && Distinct(made) && |made| <= Size(t) == |labels|
    && Carry(made, labels) && Fields(made, ls, flip) && Joined(t, made, ls)
  }

  /** A child comes after its parent in pre-order. */
  lemma {:induction false} ChildLater<T>(t: Tree<T>, p: nat)
    requires p < Size(t)
    ensures LeftOf(t, p) != -1 ==> PreIndex(t, LeftOf(t, p)) == PreIndex(t, p) + 1
    ensures RightOf(t, p) != -1 ==> PreIndex(t, RightOf(t, p)) > PreIndex(t, p)
  {
    if LeftOf(t, p) != -1 {
      PreIndexLeft(t, p);
    }
    PreCountSucc(t, p);
  }

  /** Position q is the left, or second, the right child of p. */
  ghost predicate IsChild(t: Tree<int>, p: nat, second: bool, q: int)
    requires p < Size(t)
  {
    q != -1 && q == if second then RightOf(t, p) else LeftOf(t, p)
  }

  /** The links after node i got the child x. */
  ghost function Attached(ls: Links, i: nat, second: bool, x: TreeNode): Links
    requires i < |ls.first| == |ls.second|
  {
    if second then Links(ls.first + [null], ls.second[i := x] + [null])
    else Links(ls.first[i := x] + [null], ls.second + [null])
  }

  /** Creating the next node in pre-order as the first or second child of node number i. */
  method AddChild(node: TreeNode, val: int, flip: bool, second: bool, ghost made: seq<TreeNode>, ghost ls: Links,
                  ghost i: nat)
    returns (x: TreeNode)
    requires Distinct(made) && Fields(made, ls, flip) && i < |made| && node == made[i]
    modifies node
    ensures fresh(x) && x.val == val && Fields(made + [x], Attached(ls, i, second, x), flip)
  {
    x := new TreeNode(val);
    if second != flip {
      node.right := x;
    } else {
      node.left := x;
    }
  }

  /** With it the links still join the nodes as t does. */
  lemma {:induction false} AttachedJoins(t: Tree<int>, made: seq<TreeNode>, ls: Links, p: nat, q: nat, second: bool,
                                         x: TreeNode)
    requires Joined(t, made, ls) && p < Size(t) && PreIndex(t, p) < |made|
    requires q < Size(t) && IsChild(t, p, second, q) && PreIndex(t, q) == |made|
    ensures Joined(t, made + [x], Attached(ls, PreIndex(t, p), second, x))
  {
    var made', ls' := made + [x], Attached(ls, PreIndex(t, p), second, x);
    forall k: nat | k < Size(t) && PreIndex(t, k) < |made'| ensures LinkAt(t, made', ls', k) {
      PreIndexDiffers(t, k, q);
      if k == q {
        ChildLater(t, q);
      } else {
        PreIndexDiffers(t, k, p);
        assert LinkAt(t, made, ls, k);
        NewLinks(t, made, x, p, q, second, k);
      }
    }
  }

  lemma {:induction false} DistinctGrows<T>(s: seq<T>, x: T)
    requires Distinct(s) && x !in s
    ensures Distinct(s + [x])
  {
  }

  /** The two together. */
  method Attach(node: TreeNode, val: int, flip: bool, second: bool, ghost t: Tree<int>, ghost made: seq<TreeNode>,
                ghost labels: seq<int>, ghost ls: Links, ghost p: nat, ghost q: nat)
    returns (x: TreeNode, ghost ls': Links)
    requires Building(t, made, labels, flip, ls) && p < Size(t) && PreIndex(t, p) < |made|
    requires node == made[PreIndex(t, p)]
    requires q < Size(t) && IsChild(t, p, second, q) && PreIndex(t, q) == |made| && val == labels[|made|]
    modifies node
    ensures fresh(x) && Building(t, made + [x], labels, flip, ls')
  {
    x := AddChild(node, val, flip, second, made, ls, PreIndex(t, p));
    ls' := Attached(ls, PreIndex(t, p), second, x);
    AttachedJoins(t, made, ls, p, q, second, x);
    DistinctGrows(made, x);
  }

  /** Among the nodes already made only the parent gains a child. */
  lemma {:induction false} NewLinks(t: Tree<int>, made: seq<TreeNode>, x: TreeNode, p: nat, q: nat, second: bool,
                                    k: nat)
    requires p < Size(t) && q < Size(t) && k < Size(t) && PreIndex(t, q) == |made| && IsChild(t, p, second, q)
    ensures Made(t, made + [x], LeftOf(t, k)) == if k == p && !second then x else Made(t, made, LeftOf(t, k))
    ensures Made(t, made + [x], RightOf(t, k)) == if k == p && second then x else Made(t, made, RightOf(t, k))
  {
    if LeftOf(t, k) != -1 && PreIndex(t, LeftOf(t, k)) == |made| {
      PreIndexUnique(t, LeftOf(t, k), q);
      if second {
        ChildOnce(t, k, p);
      } else {
        LeftOnce(t, k, p);
      }
    }
    if RightOf(t, k) != -1 && PreIndex(t, RightOf(t, k)) == |made| {
      PreIndexUnique(t, RightOf(t, k), q);
      if second {
        RightOnce(t, k, p);
      } else {
        ChildOnce(t, p, k);
      }
    }
  }

  // ---------------------------------------------------------------- the stack

  /** The stack holds the nodes of positions ps, which fall from bottom to top. */
  ghost predicate Stacked(t: Tree<int>, made: seq<TreeNode>, stk: seq<TreeNode>, ps: seq<nat>) {
    && |stk| == |ps|
    && (forall k :: 0 <= k < |ps| ==>
          ps[k] < Size(t) && PreIndex(t, ps[k]) < |made| && stk[k] == made[PreIndex(t, ps[k])])
    && (forall k, l :: 0 <= k < l < |ps| ==> ps[k] > ps[l])
  }

  /** ps are the positions whose left subtree contains c, and c itself if asked. */
  ghost predicate Waiting(t: Tree<int>, ps: seq<nat>, c: int, self: bool) {
    forall j: nat :: j in ps <==> ((self && j == c) || InLeftSubtree(t, c, j))
  }

  /** Above the waiting positions only c itself can lie. */
  lemma {:induction false} TopOfStack(t: Tree<int>, made: seq<TreeNode>, stk: seq<TreeNode>, ps: seq<nat>, c: nat)
    requires Stacked(t, made, stk, ps) && c < Size(t) && Waiting(t, ps, c, true)
    ensures ps != [] && ps[|ps| - 1] == c
    ensures Waiting(t, ps[..|ps| - 1], c, false)
  {
    var n := |ps| - 1;
    assert c in ps;
    assert ps[n] in ps;
    forall j: nat ensures j in ps[..n] <==> InLeftSubtree(t, c, j) {
      if j in ps {
        var k :| 0 <= k < |ps| && ps[k] == j;
        assert k < n ==> ps[..n][k] == j;
      }
    }
  }

  lemma {:induction false} WaitingLeft(t: Tree<int>, ps: seq<nat>, c: nat)
    requires c < Size(t) && LeftOf(t, c) != -1 && Waiting(t, ps, c, true)
    ensures Waiting(t, ps, LeftOf(t, c), false)
  {
    forall j: nat ensures j in ps <==> InLeftSubtree(t, LeftOf(t, c), j) {
      LeftChildAncestors(t, c, j);
    }
  }

  lemma {:induction false} WaitingSucc(t: Tree<int>, ps: seq<nat>, c: nat)
    requires c < Size(t) && Waiting(t, ps, c, false)
    ensures Waiting(t, ps, Succ(t, c).0, Succ(t, c).1)
  {
    forall j: nat ensures j in ps <==> ((Succ(t, c).1 && j == Succ(t, c).0) || InLeftSubtree(t, Succ(t, c).0, j)) {
      SuccAncestors(t, c, j);
    }
  }

  /** With c complete, the top of the stack is c+1 exactly when c has no right child;
      then c+1 is complete too, and otherwise the next node is that right child. */
  lemma {:induction false} TopDecides(t: Tree<int>, made: seq<TreeNode>, stk: seq<TreeNode>, ps: seq<nat>, c: nat)
    requires Stacked(t, made, stk, ps) && c < Size(t) && Waiting(t, ps, c, false) && PreCount(t, c, true) < Size(t)
    ensures ps != [] ==> c < ps[|ps| - 1] < Size(t)
    ensures RightOf(t, c) == -1 <==> ps != [] && ps[|ps| - 1] == c + 1
    ensures RightOf(t, c) == -1 ==> PreCount(t, c + 1, true) == PreCount(t, c, true) && Waiting(t, ps, c + 1, true)
    ensures RightOf(t, c) != -1 ==> PreIndex(t, RightOf(t, c)) == PreCount(t, c, true)
  {
    PreCountSucc(t, c);
    WaitingSucc(t, ps, c);
    if ps != [] {
      assert ps[|ps| - 1] in ps;
      SuccAncestors(t, c, ps[|ps| - 1]);
    }
    if RightOf(t, c) == -1 {
      NoRightChild(t, c);
      assert InLeftSubtree(t, c, c + 1);
    }
  }

  // ---------------------------------------------------------------- the stack-based builders

  /** Element k of s, counted from the end when flip is set. */
  function Nth(s: seq<int>, k: nat, flip: bool): int
    requires k < |s|
  {
    if flip then s[|s| - 1 - k] else s[k]
  }

  ghost predicate Reads(s: seq<int>, flip: bool, labels: seq<int>) {
    |s| == |labels| && forall k :: 0 <= k < |s| ==> Nth(s, k, flip) == labels[k]
  }

  /** The made nodes carry the labels of their positions. */
  ghost predicate Labelled(t: Tree<int>, labels: seq<int>, ino: seq<int>) {
    && |labels| == |ino| == Size(t)
    && forall p :: 0 <= p < |ino| ==> LabelAt(t, labels, ino, p)
  }

  ghost predicate LabelAt(t: Tree<int>, labels: seq<int>, ino: seq<int>, p: nat)
    requires |labels| == |ino| == Size(t) && p < Size(t)
  {
    labels[PreIndex(t, p)] == ino[p]
  }

  /** Nodes carry the labels of their places in pre-order. */
  ghost predicate Carry(made: seq<TreeNode>, labels: seq<int>) {
    |made| <= |labels| && forall k :: 0 <= k < |made| ==> made[k].val == labels[k]
  }

  /** Position d is complete but for its right subtree; the stack holds who waits, d
      included unless it was popped. */
  ghost predicate Complete(t: Tree<int>, made: seq<TreeNode>, stk: seq<TreeNode>, ps: seq<nat>, d: nat, self: bool) {
    && d < Size(t) && PreIndex(t, d) < |made| == PreCount(t, d, true) < Size(t)
    && Stacked(t, made, stk, ps) && Waiting(t, ps, d, self)
  }

  /** The inner loop is done: d was popped and has a right child, which comes next. */
  ghost predicate Popped(t: Tree<int>, made: seq<TreeNode>, stk: seq<TreeNode>, ps: seq<nat>, d: nat) {
    Complete(t, made, stk, ps, d, false) && RightOf(t, d) != -1 && PreIndex(t, RightOf(t, d)) == |made|
  }

  /** A complete node on top of the stack is the one the in-order asks for. */
  lemma {:induction false} TopMatches(t: Tree<int>, made: seq<TreeNode>, labels: seq<int>, ino: seq<int>,
                                      stk: seq<TreeNode>, ps: seq<nat>, d: nat)
    requires Labelled(t, labels, ino) && Carry(made, labels) && Complete(t, made, stk, ps, d, true)
    ensures stk != [] && stk[|stk| - 1] == made[PreIndex(t, d)] && stk[|stk| - 1].val == ino[d]
    ensures Complete(t, made, stk[..|stk| - 1], ps[..|ps| - 1], d, false)
  {
    TopOfStack(t, made, stk, ps, d);
    assert LabelAt(t, labels, ino, d);
  }

  /** After popping d, either d + 1 is complete and on top, or d has a right child. */
  lemma {:induction false} AfterPop(t: Tree<int>, made: seq<TreeNode>, stk: seq<TreeNode>, ps: seq<nat>, d: nat)
    requires Complete(t, made, stk, ps, d, false)
    ensures if RightOf(t, d) == -1 then Complete(t, made, stk, ps, d + 1, true) else Popped(t, made, stk, ps, d)
  {
    TopDecides(t, made, stk, ps, d);
    if RightOf(t, d) == -1 {
      TopOfStack(t, made, stk, ps, d + 1);
    }
  }

  /** In the second case the loop's test fails, and inside the in-order array. */
  lemma {:induction false} TopDiffers(t: Tree<int>, made: seq<TreeNode>, labels: seq<int>, ino: seq<int>,
                                      stk: seq<TreeNode>, ps: seq<nat>, d: nat)
    requires Labelled(t, labels, ino) && Distinct(ino) && Carry(made, labels) && Popped(t, made, stk, ps, d)
    ensures stk != [] ==> d + 1 < Size(t) && stk[|stk| - 1].val != ino[d + 1]
  {
    TopDecides(t, made, stk, ps, d);
    if stk != [] {
      assert LabelAt(t, labels, ino, ps[|ps| - 1]);
    }
  }

  /** Where the inner loop stands: more nodes to pop, or done. */
  ghost predicate Popping(t: Tree<int>, made: seq<TreeNode>, stk: seq<TreeNode>, ps: seq<nat>, node: TreeNode,
                          index: nat, more: bool) {
    if more then Complete(t, made, stk, ps, index, true)
    else index >= 1 && Popped(t, made, stk, ps, index - 1) && node == made[PreIndex(t, index - 1)]
  }

  lemma {:induction false} PopTest(t: Tree<int>, made: seq<TreeNode>, labels: seq<int>, ino: seq<int>,
                                   stk: seq<TreeNode>, ps: seq<nat>, node: TreeNode, index: nat, more: bool)
    requires Labelled(t, labels, ino) && Distinct(ino) && Carry(made, labels)
    requires Popping(t, made, stk, ps, node, index, more)
    ensures stk != [] ==> index < Size(t)
    ensures stk != [] && stk[|stk| - 1].val == ino[index] <==> more
  {
    if more {
      TopMatches(t, made, labels, ino, stk, ps, index);
    } else {
      TopDiffers(t, made, labels, ino, stk, ps, index - 1);
    }
  }

  lemma {:induction false} PopRound(t: Tree<int>, made: seq<TreeNode>, labels: seq<int>, ino: seq<int>,
                                    stk: seq<TreeNode>, ps: seq<nat>, node: TreeNode, index: nat)
    requires Labelled(t, labels, ino) && Carry(made, labels) && Popping(t, made, stk, ps, node, index, true)
    ensures stk != [] && |ps| == |stk| && index < Size(t)
    ensures Popping(t, made, stk[..|stk| - 1], ps[..|ps| - 1], stk[|stk| - 1], index + 1, RightOf(t, index) == -1)
  {
    TopMatches(t, made, labels, ino, stk, ps, index);
    AfterPop(t, made, stk[..|stk| - 1], ps[..|ps| - 1], index);
  }

  /** The inner loop: pops every complete node, up to the one that gets a right child.
      It never looks past the end of the in-order. */
  method PopComplete(stk0: seq<TreeNode>, node0: TreeNode, inorder: seq<int>, inorderIndex: nat, flip: bool,
                     ghost t: Tree<int>, ghost made: seq<TreeNode>, ghost labels: seq<int>, ghost ino: seq<int>,
                     ghost ps0: seq<nat>)
    returns (stk: seq<TreeNode>, node: TreeNode, index: nat, ghost ps: seq<nat>)
    requires Reads(inorder, flip, ino) && Distinct(ino) && Labelled(t, labels, ino) && Carry(made, labels)
    requires Complete(t, made, stk0, ps0, inorderIndex, true)
    ensures index >= 1 && Popped(t, made, stk, ps, index - 1) && node == made[PreIndex(t, index - 1)]
  {
    stk, node, index, ps := stk0, node0, inorderIndex, ps0;
    ghost var more := true;
    PopTest(t, made, labels, ino, stk, ps, node, index, more);
    while stk != [] && stk[|stk| - 1].val == Nth(inorder, index, flip)
      invariant Popping(t, made, stk, ps, node, index, more)
      invariant stk != [] ==> index < Size(t)
      invariant stk != [] && stk[|stk| - 1].val == ino[index] <==> more
      decreases |stk|
    {
      PopRound(t, made, labels, ino, stk, ps, node, index);
      more := RightOf(t, index) == -1;
      node := stk[|stk| - 1];
      stk, ps := stk[..|stk| - 1], ps[..|ps| - 1];
      index := index + 1;
      PopTest(t, made, labels, ino, stk, ps, node, index, more);
    }
  }

  /** After each round: v is the position of the last node made, the stack holds v and
      everyone waiting for it, and the in-order index is where v's subtree starts. */
  ghost predicate Round(t: Tree<int>, made: seq<TreeNode>, stk: seq<TreeNode>, ps: seq<nat>, v: nat, index: nat) {
    && v < Size(t) && PreIndex(t, v) == |made| - 1 && index == Lo(t, v)
    && Stacked(t, made, stk, ps) && Waiting(t, ps, v, true)
  }

  lemma {:induction false} RoundAfter(t: Tree<int>, made: seq<TreeNode>, stk: seq<TreeNode>, ps: seq<nat>, v: nat,
                                      x: TreeNode)
    requires v < Size(t) && PreIndex(t, v) == |made|
    requires Stacked(t, made, stk, ps) && Waiting(t, ps, v, false)
    ensures Round(t, made + [x], stk + [x], ps + [v], v, Lo(t, v))
  {
    forall k | 0 <= k < |ps| ensures ps[k] > v {
      assert ps[k] in ps;
    }
  }

  /** The first test of the round: it holds exactly when the last node has a left child. */
  lemma {:induction false} RoundTest(t: Tree<int>, made: seq<TreeNode>, labels: seq<int>, ino: seq<int>,
                                     stk: seq<TreeNode>, ps: seq<nat>, v: nat, index: nat)
    requires Labelled(t, labels, ino) && Distinct(ino) && Carry(made, labels) && Round(t, made, stk, ps, v, index)
    ensures stk != [] && stk[|stk| - 1] == made[|made| - 1] && index < Size(t)
    ensures stk[|stk| - 1].val != ino[index] <==> LeftOf(t, v) != -1
    ensures LeftOf(t, v) != -1 ==> PreIndex(t, LeftOf(t, v)) == |made| && Lo(t, LeftOf(t, v)) == index
  {
    TopOfStack(t, made, stk, ps, v);
    LeftChild(t, v);
    assert LabelAt(t, labels, ino, v);
    if LeftOf(t, v) != -1 {
      PreIndexLeft(t, v);
    }
  }

  lemma {:induction false} RoundComplete(t: Tree<int>, made: seq<TreeNode>, stk: seq<TreeNode>, ps: seq<nat>, v: nat)
    requires v < Size(t) && Round(t, made, stk, ps, v, Lo(t, v)) && LeftOf(t, v) == -1 && |made| < Size(t)
    ensures Lo(t, v) == v && Complete(t, made, stk, ps, v, true)
  {
    LeftChild(t, v);
  }

  lemma {:induction false} RoundAfterPop(t: Tree<int>, made: seq<TreeNode>, stk: seq<TreeNode>, ps: seq<nat>, c: nat,
                                         x: TreeNode)
    requires Popped(t, made, stk, ps, c)
    ensures var v := RightOf(t, c); Round(t, made + [x], stk + [x], ps + [v], v, c + 1)
  {
    WaitingSucc(t, ps, c);
    RightChild(t, c);
    RoundAfter(t, made, stk, ps, RightOf(t, c), x);
  }

  /** The next label becomes the left child of the last node ... */
  method AddLeft(stk0: seq<TreeNode>, val: int, flip: bool, ghost t: Tree<int>, ghost made: seq<TreeNode>,
                 ghost labels: seq<int>, ghost ls: Links, ghost ps0: seq<nat>, ghost v0: nat, ghost index: nat)
    returns (stk: seq<TreeNode>, x: TreeNode, ghost ps: seq<nat>, ghost v: nat, ghost ls': Links)
    requires Building(t, made, labels, flip, ls) && |made| < Size(t) && val == labels[|made|]
    requires Round(t, made, stk0, ps0, v0, index) && stk0 != [] && stk0[|stk0| - 1] == made[|made| - 1]
    requires LeftOf(t, v0) != -1 && PreIndex(t, LeftOf(t, v0)) == |made| && Lo(t, LeftOf(t, v0)) == index
    modifies made
    ensures fresh(x) && Building(t, made + [x], labels, flip, ls') && Round(t, made + [x], stk, ps, v, index)
  {
    v := LeftOf(t, v0);
    x, ls' := Attach(stk0[|stk0| - 1], val, flip, false, t, made, labels, ls, v0, v);
    stk, ps := stk0 + [x], ps0 + [v];
    WaitingLeft(t, ps0, v0);
    RoundAfter(t, made, stk0, ps0, v, x);
  }

  /** ... or the right child of the last node popped. */
  method AddRight(stk0: seq<TreeNode>, node: TreeNode, val: int, flip: bool, ghost t: Tree<int>,
                  ghost made: seq<TreeNode>, ghost labels: seq<int>, ghost ls: Links, ghost ps0: seq<nat>, ghost c: nat)
    returns (stk: seq<TreeNode>, x: TreeNode, ghost ps: seq<nat>, ghost v: nat, ghost ls': Links)
    requires Building(t, made, labels, flip, ls) && |made| < Size(t) && val == labels[|made|]
    requires Popped(t, made, stk0, ps0, c) && node == made[PreIndex(t, c)]
    modifies made
    ensures fresh(x) && Building(t, made + [x], labels, flip, ls') && Round(t, made + [x], stk, ps, v, c + 1)
  {
    v := RightOf(t, c);
    x, ls' := Attach(node, val, flip, true, t, made, labels, ls, c, v);
    RoundAfterPop(t, made, stk0, ps0, c, x);
    stk, ps := stk0 + [x], ps0 + [v];
  }

  /** One round of the main loop: the next label becomes a child of the right node. */
  method AddNext(stk0: seq<TreeNode>, inorder: seq<int>, index0: nat, val: int, flip: bool, ghost t: Tree<int>,
                 ghost made: seq<TreeNode>, ghost labels: seq<int>, ghost ino: seq<int>, ghost ls: Links,
                 ghost ps0: seq<nat>, ghost v0: nat)
    returns (stk: seq<TreeNode>, index: nat, x: TreeNode, ghost ps: seq<nat>, ghost v: nat, ghost ls': Links)
    requires Reads(inorder, flip, ino) && Distinct(ino) && Labelled(t, labels, ino)
    requires Building(t, made, labels, flip, ls) && |made| < Size(t) && val == labels[|made|]
    requires Round(t, made, stk0, ps0, v0, index0)
    modifies made
    ensures fresh(x) && Building(t, made + [x], labels, flip, ls') && Round(t, made + [x], stk, ps, v, index)
  {
    RoundTest(t, made, labels, ino, stk0, ps0, v0, index0);
    var node := stk0[|stk0| - 1];
    index := index0;
    if node.val != Nth(inorder, index0, flip) {
      stk, x, ps, v, ls' := AddLeft(stk0, val, flip, t, made, labels, ls, ps0, v0, index0);
    } else {
      RoundComplete(t, made, stk0, ps0, v0);
      stk, node, index, ps := PopComplete(stk0, node, inorder, index0, flip, t, made, labels, ino, ps0);
      stk, x, ps, v, ls' := AddRight(stk, node, val, flip, t, made, labels, ls, ps, index - 1);
    }
  }

  lemma {:induction false} PreorderLabels(t: Tree<int>)
    ensures Labelled(t, Preorder(t), Inorder(t))
  {
    forall p | 0 <= p < Size(t) ensures LabelAt(t, Preorder(t), Inorder(t), p) {
      PreIndexAt(t, p);
    }
  }

  /** Both stack-based builders: order is read forwards as the pre-order of t, or
      backwards when flip is set. */
  method StackBuild(order: seq<int>, inorder: seq<int>, flip: bool, ghost t: Tree<int>)
    returns (root: TreeNode?, ghost made: seq<TreeNode>)
    requires Reads(order, flip, Preorder(t)) && Reads(inorder, flip, Inorder(t)) && Distinct(Inorder(t))
    ensures fresh(made) && Distinct(made) && Carry(made, Preorder(t)) && Linked(t, made, flip)
    ensures root == if made == [] then null else made[0]
  {
    made := [];
    if |order| == 0 {
      return null, made;
    }
    PreorderLabels(t);
    ghost var labels, ino := Preorder(t), Inorder(t);
    var top := new TreeNode(Nth(order, 0, flip));
    root, made := top, [top];
    var stk: seq<TreeNode>, inorderIndex: nat := [top], 0;
    ghost var v: nat := RootPos(t);
    ghost var ps: seq<nat> := [v];
    ghost var ls := Links([null], [null]);
    FirstRound(t, top, flip, ls);
    for i := 1 to |order|
      invariant |made| == i && made[0] == root && fresh(made)
      invariant Building(t, made, labels, flip, ls) && Round(t, made, stk, ps, v, inorderIndex)
    {
      var x;
      stk, inorderIndex, x, ps, v, ls :=
        AddNext(stk, inorder, inorderIndex, Nth(order, i, flip), flip, t, made, labels, ino, ls, ps, v);
      made := made + [x];
    }
    AllLinked(t, made, labels, flip, ls);
  }

  /** Once every node is made, every node is linked as t says. */
  lemma {:induction false} AllLinked(t: Tree<int>, made: seq<TreeNode>, labels: seq<int>, flip: bool, ls: Links)
    requires Building(t, made, labels, flip, ls) && |made| == Size(t)
    ensures Linked(t, made, flip)
  {
    forall p: nat | p < Size(t) ensures LinkOk(t, made, p, flip) {
      assert LinkAt(t, made, ls, p);
    }
  }

  lemma {:induction false} FirstRound(t: Tree<int>, root: TreeNode, flip: bool, ls: Links)
    requires t.Node? && root.val == Preorder(t)[0] && root.left == null && root.right == null
    requires ls == Links([null], [null])
    ensures Building(t, [root], Preorder(t), flip, ls)
    ensures Round(t, [root], [root], [RootPos(t)], RootPos(t), 0)
  {
    var r: nat := RootPos(t);
    ChildLater(t, r);
    forall p: nat | p < Size(t) && PreIndex(t, p) < 1 ensures LinkAt(t, [root], ls, p) {
      PreIndexUnique(t, p, r);
    }
    forall j: nat ensures j in [r] <==> (j == r || InLeftSubtree(t, r, j)) {
      RootIsTop(t, j);
    }
  }

  // ---------------------------------------------------------------- the tree that was built

  /** Every node made, linked to its children. */
  ghost predicate Linked(t: Tree<int>, made: seq<TreeNode>, flip: bool)
    reads made
  {
    |made| == Size(t) && forall p: nat :: p < Size(t) ==> LinkOk(t, made, p, flip)
  }

  /** The tree of nodes whose pre-order (seen from t) is made. */
  ghost function Grown(t: Tree<int>, made: seq<TreeNode>, flip: bool): Tree<TreeNode>
    requires |made| == Size(t)
  {
    if t.Leaf? then Leaf
    else
      var n := Size(t.left);
      var (first, second) := (Grown(t.left, made[1..n + 1], flip), Grown(t.right, made[n + 1..], flip));
      if flip then Node(second, made[0], first) else Node(first, made[0], second)
  }

  ghost function Root(made: seq<TreeNode>): TreeNode? {
    if made == [] then null else made[0]
  }

  /** Children and pre-order places seen from inside the two subtrees. */
  lemma {:induction false} InsideLeft(t: Tree<int>, p: nat)
    requires t.Node? && p < Size(t.left)
    ensures PreIndex(t, p) == 1 + PreIndex(t.left, p)
    ensures LeftOf(t, p) == LeftOf(t.left, p) && RightOf(t, p) == RightOf(t.left, p)
  {
  }

  lemma {:induction false} InsideRight(t: Tree<int>, p: nat)
    requires t.Node? && p < Size(t.right)
    ensures var q := Size(t.left) + 1 + p;
            PreIndex(t, q) == Size(t.left) + 1 + PreIndex(t.right, p)
            && LeftOf(t, q) == Shift(LeftOf(t.right, p), Size(t.left) + 1)
            && RightOf(t, q) == Shift(RightOf(t.right, p), Size(t.left) + 1)
  {
  }

  lemma {:induction false} MadeLeft(t: Tree<int>, made: seq<TreeNode>, part: seq<TreeNode>, q: int)
    requires t.Node? && |made| == Size(t) && part == made[1..Size(t.left) + 1] && -1 <= q < Size(t.left)
    ensures Made(t.left, part, q) == Made(t, made, q)
  {
    if q != -1 {
      InsideLeft(t, q);
    }
  }

  lemma {:induction false} MadeRight(t: Tree<int>, made: seq<TreeNode>, part: seq<TreeNode>, q: int)
    requires t.Node? && |made| == Size(t) && part == made[Size(t.left) + 1..] && -1 <= q < Size(t.right)
    ensures Made(t.right, part, q) == Made(t, made, Shift(q, Size(t.left) + 1))
  {
    if q != -1 {
      InsideRight(t, q);
    }
  }

  lemma {:induction false} LinkLeft(t: Tree<int>, made: seq<TreeNode>, part: seq<TreeNode>, p: nat, flip: bool)
    requires t.Node? && |made| == Size(t) && part == made[1..Size(t.left) + 1] && p < Size(t.left)
    requires LinkOk(t, made, p, flip)
    ensures LinkOk(t.left, part, p, flip)
  {
    InsideLeft(t, p);
    MadeLeft(t, made, part, LeftOf(t.left, p));
    MadeLeft(t, made, part, RightOf(t.left, p));
  }

  lemma {:induction false} LinkRight(t: Tree<int>, made: seq<TreeNode>, part: seq<TreeNode>, p: nat, flip: bool)
    requires t.Node? && |made| == Size(t) && part == made[Size(t.left) + 1..] && p < Size(t.right)
    requires LinkOk(t, made, Size(t.left) + 1 + p, flip)
    ensures LinkOk(t.right, part, p, flip)
  {
    InsideRight(t, p);
    MadeRight(t, made, part, LeftOf(t.right, p));
    MadeRight(t, made, part, RightOf(t.right, p));
  }

  lemma {:induction false} RootLinks(t: Tree<int>, made: seq<TreeNode>, flip: bool)
    requires t.Node? && |made| == Size(t) && LinkOk(t, made, Size(t.left), flip)
    ensures First(made[0], flip) == Root(made[1..Size(t.left) + 1])
    ensures Second(made[0], flip) == Root(made[Size(t.left) + 1..])
  {
    var l, r := RootPos(t.left), RootPos(t.right);
    assert l != -1 ==> PreIndex(t.left, l) == 0 && PreIndex(t, l) == 1;
    assert r != -1 ==> PreIndex(t.right, r) == 0 && PreIndex(t, Size(t.left) + 1 + r) == Size(t.left) + 1;
  }

  lemma {:induction false} LinkedParts(t: Tree<int>, made: seq<TreeNode>, flip: bool)
    requires t.Node? && Linked(t, made, flip)
    ensures Linked(t.left, made[1..Size(t.left) + 1], flip)
    ensures Linked(t.right, made[Size(t.left) + 1..], flip)
  {
    var n := Size(t.left);
    var first, second := made[1..n + 1], made[n + 1..];
    forall p: nat | p < n ensures LinkOk(t.left, first, p, flip) {
      LinkLeft(t, made, first, p, flip);
    }
    forall p: nat | p < Size(t.right) ensures LinkOk(t.right, second, p, flip) {
      LinkRight(t, made, second, p, flip);
    }
  }

  lemma {:induction false} LinkedIsTree(t: Tree<int>, made: seq<TreeNode>, flip: bool)
    requires Linked(t, made, flip)
    ensures IsTree(Root(made), Grown(t, made, flip))
  {
    if t.Node? {
      RootLinks(t, made, flip);
      LinkedParts(t, made, flip);
      LinkedIsTree(t.left, made[1..Size(t.left) + 1], flip);
      LinkedIsTree(t.right, made[Size(t.left) + 1..], flip);
    }
  }

  function Mirror<T>(t: Tree<T>): (m: Tree<T>)
    ensures Size(m) == Size(t)
  {
    match t
    case Leaf => Leaf
    case Node(l, v, r) => Node(Mirror(r), v, Mirror(l))
  }

  lemma {:induction false} MirrorTwice<T>(t: Tree<T>)
    ensures Mirror(Mirror(t)) == t
  {
    if t.Node? {
      MirrorTwice(t.left);
      MirrorTwice(t.right);
    }
  }

  lemma {:induction false} CarryParts(t: Tree<int>, made: seq<TreeNode>)
    requires t.Node? && |made| == Size(t) && Carry(made, Preorder(t))
    ensures made[0].val == t.value
    ensures Carry(made[1..Size(t.left) + 1], Preorder(t.left)) && Carry(made[Size(t.left) + 1..], Preorder(t.right))
  {
    var n := Size(t.left);
    forall k | 0 <= k < n ensures made[1..n + 1][k].val == Preorder(t.left)[k] {
      assert made[k + 1].val == Preorder(t)[k + 1];
    }
    forall k | 0 <= k < Size(t.right) ensures made[n + 1..][k].val == Preorder(t.right)[k] {
      assert made[k + n + 1].val == Preorder(t)[k + n + 1];
    }
  }

  lemma {:induction false} GrownLabels(t: Tree<int>, made: seq<TreeNode>, flip: bool)
    requires |made| == Size(t) && Carry(made, Preorder(t))
    ensures Labels(Grown(t, made, flip)) == if flip then Mirror(t) else t
  {
    if t.Node? {
      var n := Size(t.left);
      var first, second := made[1..n + 1], made[n + 1..];
      CarryParts(t, made);
      GrownLabels(t.left, first, flip);
      GrownLabels(t.right, second, flip);
      var a, b := Grown(t.left, first, flip), Grown(t.right, second, flip);
      assert Grown(t, made, flip) == if flip then Node(b, made[0], a) else Node(a, made[0], b);
    }
  }

  lemma {:induction false} SplitDistinct<T>(s: seq<T>, n: nat)
    requires n < |s| && Distinct(s)
    ensures Distinct(s[1..n + 1]) && Distinct(s[n + 1..])
    ensures forall x :: x in s[1..n + 1] ==> x in s && x != s[0] && x !in s[n + 1..]
    ensures forall x :: x in s[n + 1..] ==> x in s && x != s[0]
  {
  }

  /** The built tree has no node of its own twice and none but the made ones. */
  lemma {:induction false} GrownDistinct(t: Tree<int>, made: seq<TreeNode>, flip: bool)
    requires |made| == Size(t) && Distinct(made)
    ensures Distinct(Inorder(Grown(t, made, flip)))
    ensures forall n :: n in Inorder(Grown(t, made, flip)) ==> n in made
  {
    if t.Node? {
      var n := Size(t.left);
      var a, b := Inorder(Grown(t.left, made[1..n + 1], flip)), Inorder(Grown(t.right, made[n + 1..], flip));
      SplitDistinct(made, n);
      GrownDistinct(t.left, made[1..n + 1], flip);
      GrownDistinct(t.right, made[n + 1..], flip);
      DistinctParts(a, made[0], b);
      DistinctParts(b, made[0], a);
    }
  }

  /** The post-order read backwards is the pre-order of the mirror image ... */
  lemma {:induction false} MirrorPreorder(t: Tree<int>)
    ensures Preorder(Mirror(t)) == Reversed(Postorder(t))
  {
    if t.Node? {
      MirrorPreorder(t.left);
      MirrorPreorder(t.right);
      ReversedCat(Postorder(t.left), Postorder(t.right));
      ReversedCat(Postorder(t.left) + Postorder(t.right), [t.value]);
      assert Reversed([t.value]) == [t.value];
    }
  }

  /** ... and the in-order read backwards its in-order. */
  lemma {:induction false} MirrorInorder(t: Tree<int>)
    ensures Inorder(Mirror(t)) == Reversed(Inorder(t))
  {
    if t.Node? {
      MirrorInorder(t.left);
      MirrorInorder(t.right);
      ReversedCat(Inorder(t.left), [t.value]);
      ReversedCat(Inorder(t.left) + [t.value], Inorder(t.right));
      assert Reversed([t.value]) == [t.value];
    }
  }

  /** The stack-based buildTree from pre-order and in-order. */
  method StackBuildPreIn(preorder: seq<int>, inorder: seq<int>, ghost t: Tree<int>)
    returns (root: TreeNode?, ghost u: Tree<TreeNode>, ghost nodes: set<TreeNode>)
    requires preorder == Preorder(t) && inorder == Inorder(t) && Distinct(inorder)
    ensures Holds(root, u, t) && Within(u, nodes) && fresh(nodes)
  {
    ghost var made;
    root, made := StackBuild(preorder, inorder, false, t);
    u, nodes := Grown(t, made, false), set n | n in made;
    LinkedIsTree(t, made, false);
    GrownLabels(t, made, false);
    GrownDistinct(t, made, false);
  }

  /** The stack-based buildTree from in-order and post-order, both read from the end. */
  method StackBuildInPost(inorder: seq<int>, postorder: seq<int>, ghost t: Tree<int>)
    returns (root: TreeNode?, ghost u: Tree<TreeNode>, ghost nodes: set<TreeNode>)
    requires postorder == Postorder(t) && inorder == Inorder(t) && Distinct(inorder)
    ensures Holds(root, u, t) && Within(u, nodes) && fresh(nodes)
  {
    ghost var made, m := *, Mirror(t);
    MirrorPreorder(t);
    MirrorInorder(t);
    MirrorTwice(t);
    root, made := StackBuild(postorder, inorder, true, m);
    u, nodes := Grown(m, made, true), set n | n in made;
    LinkedIsTree(m, made, true);
    GrownLabels(m, made, true);
    GrownDistinct(m, made, true);
  }
}
