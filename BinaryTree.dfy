/**
  The linked binary tree: `Node` objects with a payload and mutable `left` and
  `right` links, and the `BinaryTree` handle that holds an optional root.

  A linked structure is described by a ghost "shape": a `Tree<Node<T>>` whose
  labels are the heap nodes themselves. `Linked(s)` says that following the
  `left`/`right` fields from `Root(s)` walks exactly the shape `s`, and
  `Distinct(s)` that no node occurs twice in it (no sharing, no cycle).
  `Values(s)` is the tree of payloads the shape holds, the abstract value that
  traversals, equality and the rolls are stated on.
*/
module BinaryTrees {
  import opened Trees

  class Node<T(==)> {
    /** The payload, fixed when the node is made. */
    const value: T
    var left: Node?<T>
    var right: Node?<T>

    /** A node with the given value and no children. */
    constructor (value: T)
      ensures this.value == value && left == null && right == null
    {
      this.value := value;
      left := null;
      right := null;
    }

    method SetLeft(left: Node?<T>)
      modifies this
      ensures this.left == left && right == old(right)
    {
      this.left := left;
    }

    method SetRight(right: Node?<T>)
      modifies this
      ensures this.right == right && left == old(left)
    {
      this.right := right;
    }

    /**
      A copy of the subtree below this node made of fresh nodes only: it holds
      the same values in the same shape and shares no node with the original,
      which is left as it was. An absent child is not copied.
    */
    method DeepCopy(ghost s: Tree<Node<T>>) returns (copy: Node<T>, ghost cs: Tree<Node<T>>)
      requires Root(s) == this && Linked(s)
      ensures Root(cs) == copy && Linked(cs) && Distinct(cs)
      ensures fresh(Elements(cs))
      ensures Values(cs) == Values(s)
      decreases s, 0
    {
      LinkedChildren(s);
      var leftCopy, lcs := CopyOf(left, s.left);
      var rightCopy, rcs := CopyOf(right, s.right);
      copy, cs := Join(value, leftCopy, lcs, rightCopy, rcs);
    }

    /** The deep copy of a possibly absent node: absent for absent. */
    static method CopyOf(n: Node?<T>, ghost s: Tree<Node<T>>) returns (copy: Node?<T>, ghost cs: Tree<Node<T>>)
      requires Root(s) == n && Linked(s)
      ensures Root(cs) == copy && Linked(cs) && Distinct(cs)
      ensures fresh(Elements(cs)) && forall m <- Elements(cs) :: allocated(m)
      ensures Values(cs) == Values(s)
      decreases s, 1
    {
      if n == null {
        return null, Nil;
      }
      copy, cs := n.DeepCopy(s);
      ElementsAllocated(cs);
    }

    /** A fresh node holding `value` whose children are the roots of two separate linked shapes. */
    static method Join(value: T, left: Node?<T>, ghost ls: Tree<Node<T>>, right: Node?<T>, ghost rs: Tree<Node<T>>)
      returns (n: Node<T>, ghost ns: Tree<Node<T>>)
      requires Root(ls) == left && Linked(ls) && Distinct(ls)
      requires Root(rs) == right && Linked(rs) && Distinct(rs)
      requires Elements(ls) !! Elements(rs)
      requires forall m <- Elements(ls) :: allocated(m)
      requires forall m <- Elements(rs) :: allocated(m)
      ensures fresh(n) && ns == Tree.Node(ls, n, rs)
      ensures Linked(ns) && Distinct(ns) && n.value == value
    {
      n := new Node(value);
      n.SetLeft(left);
      n.SetRight(right);
      ns := Tree.Node(ls, n, rs);
    }

    /**
      Structural equality: equal values and recursively equal left and right
      subtrees, an absent child being equal only to an absent child. A node is
      equal to itself without further comparison.
    */
    method Equals(other: Node?<T>, ghost s: Tree<Node<T>>, ghost so: Tree<Node<T>>) returns (eq: bool)
      requires Root(s) == this && Linked(s)
      requires Root(so) == other && Linked(so)
      ensures eq <==> Values(s) == Values(so)
      decreases s
    {
      if this == other {
        LinkedDeterminesShape(s, so);
        return true;
      }
      if other == null {
        return false;
      }
      if value != other.value {
        return false;
      }
      LinkedChildren(s);
      LinkedChildren(so);
      var leftEq := left == other.left;
      if leftEq {
        LinkedDeterminesShape(s.left, so.left);
      } else if left != null {
        leftEq := left.Equals(other.left, s.left, so.left);
      }
      if !leftEq {
        return false;
      }
      var rightEq := right == other.right;
      if rightEq {
        LinkedDeterminesShape(s.right, so.right);
      } else if right != null {
        rightEq := right.Equals(other.right, s.right, so.right);
      }
      return rightEq;
    }
  }

  // ---------------------------------------------------------------------------
  // Shapes: the abstraction from linked nodes to tree values.

  ghost function Root<T>(s: Tree<Node<T>>): Node?<T>
  {
    if s.Nil? then null else s.value
  }

  /**
    The `left`/`right` fields of the nodes of `s` follow `s`, except that the
    node at the bottom of the left spine has left link `leftTail` and the node
    at the bottom of the right spine has right link `rightTail`. With both
    tails absent this is exactly "the links are those of `s`"; the tails let a
    proof speak of a structure that is about to be hung onto another one.
  */
  ghost predicate Links<T>(s: Tree<Node<T>>, leftTail: Node?<T>, rightTail: Node?<T>)
    reads Elements(s)
  {
    match s
    case Nil => true
    case Node(l, m, r) =>
      && (if l.Nil? then m.left == leftTail else m.left == Root(l) && Links(l, leftTail, null))
      && (if r.Nil? then m.right == rightTail else m.right == Root(r) && Links(r, null, rightTail))
  }

  /** Following `left` and `right` from `Root(s)` walks exactly the shape `s`. */
  ghost predicate Linked<T>(s: Tree<Node<T>>)
    reads Elements(s)
  {
    Links(s, null, null)
  }

  /** The payloads held by the nodes of a shape, in the same positions. */
  function Values<T>(s: Tree<Node<T>>): (t: Tree<T>)
  {
    match s
    case Nil => Nil
    case Node(l, m, r) => Tree.Node(Values(l), m.value, Values(r))
  }

  /** Every node of a shape is an allocated object, so a call that allocates only keeps its links. */
  lemma {:induction false} ElementsAllocated<T>(s: Tree<Node<T>>)
    ensures forall n <- Elements(s) :: allocated(n)
  {
    match s
    case Nil =>
    case Node(l, _, r) =>
      ElementsAllocated(l);
      ElementsAllocated(r);
  }

  /** The subtrees of a linked shape are linked, and their nodes are allocated. */
  lemma LinkedChildren<T>(s: Tree<Node<T>>)
    requires Linked(s) && s.Node?
    ensures s.value.left == Root(s.left) && s.value.right == Root(s.right)
    ensures Linked(s.left) && Linked(s.right)
    ensures forall n <- Elements(s.left) :: allocated(n)
    ensures forall n <- Elements(s.right) :: allocated(n)
  {
    ElementsAllocated(s.left);
    ElementsAllocated(s.right);
  }

  /** The links seen from a node fix the shape below it. */
  lemma {:induction false} LinkedDeterminesShape<T>(s: Tree<Node<T>>, s': Tree<Node<T>>)
    requires Linked(s) && Linked(s') && Root(s) == Root(s')
    ensures s == s'
  {
    match s
    case Nil =>
    case Node(l, m, r) =>
      LinkedDeterminesShape(l, s'.left);
      LinkedDeterminesShape(r, s'.right);
  }

  lemma {:induction false} ValuesSize<T>(s: Tree<Node<T>>)
    ensures Size(Values(s)) == Size(s) && Height(Values(s)) == Height(s)
  {
    match s
    case Nil =>
    case Node(l, _, r) =>
      ValuesSize(l);
      ValuesSize(r);
  }

  // ---------------------------------------------------------------------------
  // The tree handle.

  class BinaryTree<T(==)> {
    var root: Node?<T>
    /** The nodes reachable from `root`, in their positions; `Repr()` is its label set. */
    ghost var shape: Tree<Node<T>>

    ghost function Repr(): set<Node<T>>
      reads this
    {
      Elements(shape)
    }

    ghost predicate Valid()
      reads this, Repr()
    {
      Root(shape) == root && Linked(shape) && Distinct(shape)
    }

    /** The tree of values this handle stands for. */
    ghost function Model(): Tree<T>
      reads this
    {
      Values(shape)
    }

    /** A rootless tree. */
    constructor Empty()
      ensures Valid() && root == null && Model() == Nil
    {
      root := null;
      shape := Nil;
    }

    /** A tree over an existing linked structure, which must be a tree. */
    constructor (root: Node?<T>, ghost s: Tree<Node<T>>)
      requires Root(s) == root && Linked(s) && Distinct(s)
      ensures Valid() && this.root == root && shape == s
    {
      this.root := root;
      shape := s;
    }

    /** The top node: absent exactly for the empty tree, and otherwise the node holding the model's root value. */
    function GetRoot(): (r: Node?<T>)
      reads this, Repr()
      ensures Valid() ==> (r == null <==> Model() == Nil)
      ensures Valid() && r != null ==> r in Repr() && r.value == Model().value
    {
      root
    }

    method SetRoot(root: Node?<T>, ghost s: Tree<Node<T>>)
      requires Root(s) == root && Linked(s) && Distinct(s)
      modifies this
      ensures Valid() && this.root == root && shape == s
    {
      this.root := root;
      shape := s;
    }

    /** The number of nodes. */
    method Size() returns (n: nat)
      requires Valid()
      ensures n == Trees.Size(Model())
    {
      n := SizeOf(root, shape);
    }

    static method SizeOf(n: Node?<T>, ghost s: Tree<Node<T>>) returns (size: nat)
      requires Root(s) == n && Linked(s)
      ensures size == Trees.Size(Values(s))
      decreases s
    {
      if n == null {
        return 0;
      }
      LinkedChildren(s);
      var l := SizeOf(n.left, s.left);
      var r := SizeOf(n.right, s.right);
      return 1 + l + r;
    }

    /** The number of levels. */
    method Height() returns (h: nat)
      requires Valid()
      ensures h == Trees.Height(Model())
    {
      h := HeightOf(root, shape);
    }

    static method HeightOf(n: Node?<T>, ghost s: Tree<Node<T>>) returns (height: nat)
      requires Root(s) == n && Linked(s)
      ensures height == Trees.Height(Values(s))
      decreases s
    {
      if n == null {
        return 0;
      }
      LinkedChildren(s);
      var l := HeightOf(n.left, s.left);
      var r := HeightOf(n.right, s.right);
      return 1 + Max(l, r);
    }

    /** A new handle over a deep copy of the nodes; this tree is left untouched. */
    method DeepCopy() returns (copy: BinaryTree<T>)
      requires Valid()
      ensures fresh(copy) && copy.Valid() && fresh(copy.Repr())
      ensures copy.Model() == Model()
    {
      if root == null {
        copy := new BinaryTree(null, Nil);
      } else {
        var c, cs := root.DeepCopy(shape);
        copy := new BinaryTree(c, cs);
      }
    }

    /** Structural equality of the two trees' values; a tree equals itself. */
    method Equals(other: BinaryTree<T>) returns (eq: bool)
      requires Valid() && other.Valid()
      ensures eq <==> Model() == other.Model()
    {
      if this == other {
        return true;
      }
      if root == other.root {
        LinkedDeterminesShape(shape, other.shape);
        return true;
      }
      if root == null {
        return false;
      }
      eq := root.Equals(other.root, shape, other.shape);
    }
  }
}
