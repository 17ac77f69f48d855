/**
  Binary trees as values, with the three depth-first traversal orders.

  A `Tree<X>` is the abstract view of a linked `BinaryTree.Node` graph: its
  shape and the value at every position. The label type is generic, so the
  same functions serve for trees of payloads and for trees whose labels are
  the heap nodes themselves (the "shape" of a linked structure).
*/
module Trees {

  datatype Tree<X> = Nil | Node(left: Tree<X>, value: X, right: Tree<X>)

  /** Number of nodes: 0 for an absent node, 1 + size(left) + size(right) otherwise. */
  function Size<X>(t: Tree<X>): nat
  {
    match t
    case Nil => 0
    case Node(l, _, r) => 1 + Size(l) + Size(r)
  }

  function Max(a: nat, b: nat): nat
  {
    if a < b then b else a
  }

  /** Number of levels: 0 for an absent node, 1 + the larger child height otherwise. */
  function Height<X>(t: Tree<X>): nat
  {
    match t
    case Nil => 0
    case Node(l, _, r) => 1 + Max(Height(l), Height(r))
  }

  /** Node, then left subtree, then right subtree. */
  function Preorder<X>(t: Tree<X>): seq<X>
  {
    match t
    case Nil => []
    case Node(l, v, r) => [v] + Preorder(l) + Preorder(r)
  }

  /** Left subtree, then node, then right subtree. */
  function Inorder<X>(t: Tree<X>): seq<X>
  {
    match t
    case Nil => []
    case Node(l, v, r) => Inorder(l) + [v] + Inorder(r)
  }

  /** Left subtree, then right subtree, then node. */
  function Postorder<X>(t: Tree<X>): seq<X>
  {
    match t
    case Nil => []
    case Node(l, v, r) => Postorder(l) + Postorder(r) + [v]
  }

  /** The set of labels that occur in a tree. */
  ghost function Elements<X>(t: Tree<X>): set<X>
  {
    match t
    case Nil => {}
    case Node(l, v, r) => Elements(l) + {v} + Elements(r)
  }

  /**
    No label occurs twice: the label at a node is not in either subtree and the
    two subtrees share no label. For a tree of heap nodes this is "every node
    has at most one parent and there is no cycle".
  */
  ghost predicate Distinct<X>(t: Tree<X>)
  {
    match t
    case Nil => true
    case Node(l, v, r) =>
      && v !in Elements(l) && v !in Elements(r)
      && Elements(l) !! Elements(r)
      && Distinct(l) && Distinct(r)
  }

  /** The left-right mirror image of a tree. */
  function Mirror<X>(t: Tree<X>): Tree<X>
  {
    match t
    case Nil => Nil
    case Node(l, v, r) => Node(Mirror(r), v, Mirror(l))
  }

  // ---------------------------------------------------------------------------
  // Every traversal visits every node exactly once.

  lemma {:induction false} TraversalLengths<X>(t: Tree<X>)
    ensures |Preorder(t)| == Size(t)
    ensures |Inorder(t)| == Size(t)
    ensures |Postorder(t)| == Size(t)
  {
    match t
    case Nil =>
    case Node(l, _, r) =>
      TraversalLengths(l);
      TraversalLengths(r);
  }

  lemma {:induction false} TraversalsAreRearrangements<X>(t: Tree<X>)
    ensures multiset(Inorder(t)) == multiset(Preorder(t))
    ensures multiset(Postorder(t)) == multiset(Preorder(t))
  {
    match t
    case Nil =>
    case Node(l, v, r) =>
      TraversalsAreRearrangements(l);
      TraversalsAreRearrangements(r);
      calc {
        multiset(Inorder(t));
        multiset(Inorder(l)) + multiset{v} + multiset(Inorder(r));
        multiset{v} + multiset(Preorder(l)) + multiset(Preorder(r));
        multiset(Preorder(t));
      }
  }

  lemma TraversalsHaveElements<X>(t: Tree<X>)
    ensures (set x | x in Preorder(t)) == Elements(t)
    ensures (set x | x in Inorder(t)) == Elements(t)
    ensures (set x | x in Postorder(t)) == Elements(t)
  {
    PreorderHasElements(t);
    TraversalsAreRearrangements(t);
    SameValues(Inorder(t), Preorder(t));
    SameValues(Postorder(t), Preorder(t));
  }

  lemma {:induction false} PreorderHasElements<X>(t: Tree<X>)
    ensures (set x | x in Preorder(t)) == Elements(t)
  {
    match t
    case Nil =>
    case Node(l, v, r) =>
      PreorderHasElements(l);
      PreorderHasElements(r);
      assert forall x :: x in Preorder(t) <==> x == v || x in Preorder(l) || x in Preorder(r);
  }

  /** Two rearrangements of each other hold the same values. */
  lemma SameValues<X>(a: seq<X>, b: seq<X>)
    requires multiset(a) == multiset(b)
    ensures (set x | x in a) == (set x | x in b)
  {
    assert forall x :: x in a <==> x in multiset(a);
    assert forall x :: x in b <==> x in multiset(b);
  }

  // ---------------------------------------------------------------------------
  // Size and height.

  function Pow2(n: nat): (r: nat)
    ensures r >= 1
  {
    if n == 0 then 1 else 2 * Pow2(n - 1)
  }

  /** A tree has at least one node per level and at most 2^height - 1 nodes. */
  lemma {:induction false} HeightBounds<X>(t: Tree<X>)
    ensures Height(t) <= Size(t) < Pow2(Height(t))
    ensures Height(t) == 0 <==> t == Nil
  {
    match t
    case Nil =>
    case Node(l, _, r) =>
      HeightBounds(l);
      HeightBounds(r);
      var h := Max(Height(l), Height(r));
      Pow2Monotone(Height(l), h);
      Pow2Monotone(Height(r), h);
  }

  lemma {:induction false} Pow2Monotone(a: nat, b: nat)
    requires a <= b
    ensures Pow2(a) <= Pow2(b)
    decreases b
  {
    if a < b {
      Pow2Monotone(a, b - 1);
    }
  }
}
