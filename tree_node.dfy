/**
 * TreeNode<T>: a node holding a value, a parent link and an ordered list of
 * children, all updated in place.  Enumeration is stated on `Node<T>`, the
 * value snapshot of a node and everything below it; `Mirrors` ties a heap
 * node to its snapshot.
 */
module TreeNodes {
  import opened Common
  import opened Sequences

  /** The value snapshot of a node and its subtree. */
  datatype Node<T> = Node(value: T, children: seq<Node<T>>)

  /** Number of nodes in a subtree. */
  function Size<T>(n: Node<T>): nat
    decreases n, 1
  {
    1 + SizeAll(n.children)
  }

  function SizeAll<T>(ns: seq<Node<T>>): nat
    decreases ns, 0
  {
    if ns == [] then 0 else Size(ns[0]) + SizeAll(ns[1..])
  }

  /** Reference definition: the node's value, then each child's subtree in order. */
  function PreOrder<T>(n: Node<T>): (r: seq<T>)
    ensures |r| == Size(n) && r[0] == n.value
    decreases n, 1
  {
    [n.value] + PreOrderAll(n.children)
  }

  function PreOrderAll<T>(ns: seq<Node<T>>): (r: seq<T>)
    ensures |r| == SizeAll(ns)
    decreases ns, 0
  {
    if ns == [] then [] else PreOrder(ns[0]) + PreOrderAll(ns[1..])
  }

  /**
   * GetEnumerator as written: the node's own value, then for each child
   * that child's value followed by the enumeration of each grandchild.
   */
  function Enumerate<T>(n: Node<T>): seq<T>
    decreases n, 2
  {
    [n.value] + EnumerateChildren(n.children)
  }

  /** The loop over this.Children: a child's value, then its children's enumerations. */
  function EnumerateChildren<T>(cs: seq<Node<T>>): seq<T>
    decreases cs, 1
  {
    if cs == [] then [] else [cs[0].value] + EnumerateEach(cs[0].children) + EnumerateChildren(cs[1..])
  }

  /** The inner loop over child.Children: each grandchild enumerates itself. */
  function EnumerateEach<T>(gs: seq<Node<T>>): seq<T>
    decreases gs, 0
  {
    if gs == [] then [] else Enumerate(gs[0]) + EnumerateEach(gs[1..])
  }

  /** The enumeration as written is the pre-order traversal: one value per node, own value first. */
  lemma {:induction false} EnumerateIsPreOrder<T>(n: Node<T>)
    ensures Enumerate(n) == PreOrder(n)
    ensures |Enumerate(n)| == Size(n) && Enumerate(n)[0] == n.value
    decreases n, 2
  {
    EnumerateChildrenIsPreOrder(n.children);
  }

  lemma {:induction false} EnumerateChildrenIsPreOrder<T>(cs: seq<Node<T>>)
    ensures EnumerateChildren(cs) == PreOrderAll(cs)
    decreases cs, 1
  {
    if cs != [] {
      EnumerateEachIsPreOrder(cs[0].children);
      EnumerateChildrenIsPreOrder(cs[1..]);
    }
  }

  lemma {:induction false} EnumerateEachIsPreOrder<T>(gs: seq<Node<T>>)
    ensures EnumerateEach(gs) == PreOrderAll(gs)
    decreases gs, 0
  {
    if gs != [] {
      EnumerateIsPreOrder(gs[0]);
      EnumerateEachIsPreOrder(gs[1..]);
    }
  }

  /** The tree built in TreeTests enumerates root, then each child's subtree, depth first. */
  lemma TreeTestsOrder()
    ensures Enumerate(Node("Root", [
              Node("ChildOne", [Node("SubChildOneOne", []), Node("SubChildOneTwo", [])]),
              Node("ChildTwo", [Node("SubChildTwoOne", [Node("SubSubChildTwoOneOne", [])])])]))
         == ["Root", "ChildOne", "SubChildOneOne", "SubChildOneTwo",
             "ChildTwo", "SubChildTwoOne", "SubSubChildTwoOneOne"]
  {
  }

  /** List.Remove: drop the first occurrence of `x`, if there is one. */
  function RemoveFirst<X(==)>(s: seq<X>, x: X): (r: seq<X>)
    ensures x !in s ==> r == s
    ensures x in s ==> r == s[..IndexOf(s, x)] + s[IndexOf(s, x) + 1..]
  {
    if s == [] then []
    else if s[0] == x then s[1..]
    else
      var rest := RemoveFirst(s[1..], x);
      if x in s then
        var j := IndexOf(s[1..], x);
        assert s[..j + 1] == [s[0]] + s[1..][..j];
        assert s[j + 2..] == s[1..][j + 1..];
        ConcatAssociative([s[0]], s[1..][..j], s[1..][j + 1..]);
        [s[0]] + rest
      else
        [s[0]] + rest
  }

  class TreeNode<T> {
    const value: T
    var parent: TreeNode?<T>
    var children: seq<TreeNode<T>>

    /**
     * new TreeNode(value, parent) with no children list: a non-null parent
     * receives the new node as its last child.
     */
    constructor (value: T, parent: TreeNode?<T>)
      modifies parent
      ensures this.value == value && this.parent == parent && children == []
      ensures parent != null ==> parent.children == old(parent.children) + [this] && parent.parent == old(parent.parent)
    {
      this.value := value;
      this.parent := parent;
      this.children := [];
      new;
      if parent != null {
        var _ := parent.Add(this);
      }
    }

    /**
     * new TreeNode(value, parent, children): the parent takes the new node
     * first; then a children list holding null throws, leaving the node
     * childless but already under its parent, and any other list is adopted
     * in order.  A null list means no children.
     */
    static method Create(value: T, parent: TreeNode?<T>, children: Option<seq<TreeNode?<T>>>)
      returns (n: TreeNode<T>, r: Outcome)
      modifies parent, if children.Some? then children.value else []
      ensures fresh(n) && n.value == value && n.parent == parent
      ensures parent != null ==> parent.children == old(parent.children) + [n]
      ensures parent != null && (children.None? || parent !in children.value) ==> parent.parent == old(parent.parent)
      ensures children.None? ==> r == Pass && n.children == []
      ensures children.Some? && null in children.value ==>
                r == Fail(InvalidArgument("children")) && n.children == []
                && forall c :: c in children.value && c != null && c != parent ==> c.parent == old(c.parent)
      ensures children.Some? && null !in children.value ==>
                r == Pass && n.children == children.value
                && forall c :: c in children.value ==> c != null && c.parent == n
      ensures children.Some? ==> forall c :: c in children.value && c != null && c != parent ==> c.children == old(c.children)
    {
      n := new TreeNode(value, parent);
      if children.None? {
        return n, Pass;
      }
      r := n.AddRange(children);
    }

    /** Add(child): a null child throws; otherwise the child points here and is appended. */
    method Add(child: TreeNode?<T>) returns (r: Outcome)
      modifies this`children, (if child == null then {} else {child})`parent
      ensures child == null ==> r == Fail(NullArgument("child")) && children == old(children)
      ensures child != null ==> r == Pass && child.parent == this && children == old(children) + [child]
    {
      if child == null {
        return Fail(NullArgument("child"));
      }
      child.parent := this;
      children := children + [child];
      return Pass;
    }

    /**
     * AddRange(range): a null range or a range holding a null throws before
     * anything changes; otherwise every member points here and all are
     * appended in order.
     */
    method AddRange(range: Option<seq<TreeNode?<T>>>) returns (r: Outcome)
      modifies this`children, (if range.Some? then range.value else [])`parent
      ensures range.None? ==> r == Fail(NullArgument("children")) && children == old(children)
      ensures range.Some? && null in range.value ==> r == Fail(InvalidArgument("children")) && children == old(children)
      ensures range.Some? && null in range.value ==> forall c :: c in range.value && c != null ==> c.parent == old(c.parent)
      ensures range.Some? && null !in range.value ==>
                r == Pass && children == old(children) + range.value
                && forall c :: c in range.value ==> c != null && c.parent == this
    {
      if range.None? {
        return Fail(NullArgument("children"));
      }
      var members := range.value;
      if null in members {
        return Fail(InvalidArgument("children"));
      }
      for i := 0 to |members|
        invariant children == old(children)
        invariant forall j :: 0 <= j < i ==> members[j] != null && members[j].parent == this
      {
        members[i].parent := this;
      }
      children := children + members;
      return Pass;
    }

    /** Remove(child): a null child throws; otherwise the child loses its parent and its first occurrence goes. */
    method Remove(child: TreeNode?<T>) returns (r: Outcome)
      modifies this`children, (if child == null then {} else {child})`parent
      ensures child == null ==> r == Fail(InvalidArgument("child")) && children == old(children)
      ensures child != null ==> r == Pass && child.parent == null && children == RemoveFirst(old(children), child)
    {
      if child == null {
        return Fail(InvalidArgument("child"));
      }
      child.parent := null;
      children := RemoveFirst(children, child);
      return Pass;
    }
  }

  /** The heap node `n` and every node below it, all drawn from `repr`, have the shape and values of `v`. */
  ghost predicate Mirrors<T>(n: TreeNode<T>, v: Node<T>, repr: set<TreeNode<T>>)
    reads repr
    decreases v
  {
    n in repr && n.value == v.value && |n.children| == |v.children|
    && forall i :: 0 <= i < |v.children| ==> Mirrors(n.children[i], v.children[i], repr)
  }

  /** A heap node has at most one snapshot, so its enumeration is well defined. */
  lemma {:induction false} MirrorsUnique<T>(n: TreeNode<T>, v: Node<T>, w: Node<T>, repr: set<TreeNode<T>>)
    requires Mirrors(n, v, repr) && Mirrors(n, w, repr)
    ensures v == w
    decreases v
  {
    forall i | 0 <= i < |v.children|
      ensures v.children[i] == w.children[i]
    {
      MirrorsUnique(n.children[i], v.children[i], w.children[i], repr);
    }
  }
}
