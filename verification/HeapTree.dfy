/** Binary trees on the heap. */
module HeapTree {
  import opened BinaryTree

  class TreeNode {
    const val: int
    var left: TreeNode?
    var right: TreeNode?
    constructor (x: int)
      ensures val == x && left == null && right == null
    {
      val, left, right := x, null, null;
    }
  }

  /** The heap structure hanging off root is exactly t. */
  ghost predicate IsTree(root: TreeNode?, t: Tree<TreeNode>)
    reads set n | n in Inorder(t)
  {
    match t
    case Leaf => root == null
    case Node(l, n, r) => root == n && IsTree(n.left, l) && IsTree(n.right, r)
  }

  ghost function Ref(ns: seq<TreeNode>, i: int): TreeNode? {
    if 0 <= i < |ns| then ns[i] else null
  }
}
