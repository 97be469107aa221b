/** Tree<T>: a tree is its root node, fixed once at construction. */
module Trees {
  import opened Common
  import opened TreeNodes

  /** `root` is an immutable field: it is never reassigned after construction. */
  datatype Tree<T> = Tree(root: TreeNode<T>)

  /** new Tree(root): a null root throws; otherwise the tree keeps exactly that node. */
  function NewTree<T>(root: TreeNode?<T>): (r: Result<Tree<T>>)
    ensures root == null <==> r == Failure(NullArgument("root"))
    ensures root != null ==> r.Success? && r.value.root == root
  {
    if root == null then Failure(NullArgument("root")) else Success(Tree(root))
  }

  /**
   * GetEnumerator (both the generic and the non-generic one) of a tree whose
   * root has snapshot `v`: the root's enumeration, so the root value comes
   * first and every node contributes exactly one value.
   */
  ghost function Enumeration<T>(t: Tree<T>, v: Node<T>, repr: set<TreeNode<T>>): (s: seq<T>)
    reads repr
    requires Mirrors(t.root, v, repr)
    ensures s == PreOrder(v)
    ensures |s| == Size(v) && s[0] == t.root.value
  {
    EnumerateIsPreOrder(v);
    Enumerate(v)
  }
}
