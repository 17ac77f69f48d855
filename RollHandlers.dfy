/**
  The in-place roll of a linked tree. A `RollHandler` walks the nodes and
  rewires their `left` and `right` links so that the linked structure becomes
  the rolled tree of `Rolls`, and keeps in its `rolledRoot` slot the node that
  ends up on top. No node is created or dropped and no payload is touched: the
  handler may write the links of the tree's nodes and of the given parent only.
*/
module RollHandlers {
  import opened Trees
  import opened Rolls
  import opened BinaryTrees

  datatype Direction = Clockwise | CounterClockwise

  /** The whole-tree roll in the given direction. */
  function Rolled<X>(direction: Direction, t: Tree<X>): Tree<X>
  {
    match direction
    case Clockwise => RollClockwise(t)
    case CounterClockwise => RollCounterClockwise(t)
  }

  /** The nodes an optional node stands for: none for an absent one. */
  ghost function Opt<T>(n: Node?<T>): set<Node<T>>
  {
    if n == null then {} else {n}
  }

  // ---------------------------------------------------------------------------
  // How grafting looks in the heap.

  /**
    A shape grafted onto the right spine of another is linked exactly when the
    lower part is linked and the upper part is linked with the lower part's
    root as the right link at the bottom of its right spine.
  */
  lemma {:induction false} LinksGraftRight<T>(a: Tree<Node<T>>, x: Tree<Node<T>>, lt: Node?<T>, rt: Node?<T>)
    requires x.Node?
    ensures Links(GraftRight(a, x), lt, rt) <==>
      if a.Nil? then Links(x, lt, rt) else Links(a, lt, Root(x)) && Links(x, null, rt)
  {
    match a
    case Nil =>
    case Node(_, _, r) =>
      LinksGraftRight(r, x, null, rt);
  }

  lemma {:induction false} LinksGraftLeft<T>(a: Tree<Node<T>>, x: Tree<Node<T>>, lt: Node?<T>, rt: Node?<T>)
    requires x.Node?
    ensures Links(GraftLeft(a, x), lt, rt) <==>
      if a.Nil? then Links(x, lt, rt) else Links(a, Root(x), rt) && Links(x, lt, null)
  {
    match a
    case Nil =>
    case Node(l, _, _) =>
      LinksGraftLeft(l, x, lt, null);
  }

  lemma {:induction false} ValuesGraftRight<T>(a: Tree<Node<T>>, x: Tree<Node<T>>)
    ensures Values(GraftRight(a, x)) == GraftRight(Values(a), Values(x))
  {
    match a
    case Nil =>
    case Node(_, _, r) =>
      ValuesGraftRight(r, x);
  }

  lemma {:induction false} ValuesGraftLeft<T>(a: Tree<Node<T>>, x: Tree<Node<T>>)
    ensures Values(GraftLeft(a, x)) == GraftLeft(Values(a), Values(x))
  {
    match a
    case Nil =>
    case Node(l, _, _) =>
      ValuesGraftLeft(l, x);
  }

  /** Rolling the shape and then reading the payloads is rolling the payload tree. */
  lemma {:induction false} ValuesRolled<T>(direction: Direction, s: Tree<Node<T>>)
    ensures Values(Rolled(direction, s)) == Rolled(direction, Values(s))
  {
    match s
    case Nil =>
    case Node(l, m, r) =>
      ValuesRolled(direction, l);
      ValuesRolled(direction, r);
      if direction == Clockwise {
        ValuesGraftRight(RollClockwise(l), Tree.Node(RollClockwise(r), m, Nil));
      } else {
        ValuesGraftLeft(RollCounterClockwise(r), Tree.Node(Nil, m, RollCounterClockwise(l)));
      }
  }

  /**
    A roll keeps the node set and the absence of sharing, turns an empty tree
    into an empty tree, and puts on top the bottom node of the left spine
    (clockwise) or of the right spine (counter-clockwise).
  */
  lemma RolledShape<X>(direction: Direction, t: Tree<X>)
    ensures Elements(Rolled(direction, t)) == Elements(t)
    ensures Distinct(t) ==> Distinct(Rolled(direction, t))
    ensures Rolled(direction, t).Nil? <==> t.Nil?
    ensures t.Node? ==>
      Rolled(direction, t).value == if direction == Clockwise then LeftSpineBottom(t) else RightSpineBottom(t)
  {
    if direction == Clockwise {
      ClockwiseElements(t);
      if t.Node? {
        ClockwiseRoot(t);
      }
    } else {
      CounterClockwiseElements(t);
      if t.Node? {
        CounterClockwiseRoot(t);
      }
    }
  }

  /**
    The traversal identities of a roll: clockwise, the preorder of the result
    is the inorder of the input and its inorder the input's postorder;
    counter-clockwise, its inorder is the input's preorder and its postorder
    the input's inorder. Rolling keeps the size.
  */
  lemma RolledTraversals<X>(direction: Direction, t: Tree<X>)
    ensures direction == Clockwise ==>
      Preorder(Rolled(direction, t)) == Inorder(t) && Inorder(Rolled(direction, t)) == Postorder(t)
    ensures direction == CounterClockwise ==>
      Inorder(Rolled(direction, t)) == Preorder(t) && Postorder(Rolled(direction, t)) == Inorder(t)
    ensures Size(Rolled(direction, t)) == Size(t)
  {
    RollsPreserveSize(t);
    if direction == Clockwise {
      ClockwiseTraversals(t);
    } else {
      CounterClockwiseTraversals(t);
    }
  }

  // ---------------------------------------------------------------------------

  class RollHandler<T(==)> {
    const direction: Direction
    /** The node that the most recent roll without a parent put on top. */
    var rolledRoot: Node?<T>

    constructor (direction: Direction)
      ensures this.direction == direction && rolledRoot == null
    {
      this.direction := direction;
      rolledRoot := null;
    }

    /** The node the most recent parentless roll put on top, read without changing it. */
    function GetRolledRoot(): (r: Node?<T>)
      reads this
      ensures r == rolledRoot
    {
      rolledRoot
    }

    method SetRolledRoot(rolledRoot: Node?<T>)
      modifies this`rolledRoot
      ensures this.rolledRoot == rolledRoot
    {
      this.rolledRoot := rolledRoot;
    }

    /**
      Rolls the subtree below `root` in this handler's direction. The rolled
      subtree is hung below `parent` when there is one (as its only child, on
      the left clockwise and on the right counter-clockwise), and otherwise its
      new top node is stored in the rolled-root slot.
    */
    method Roll(root: Node?<T>, parent: Node?<T>, ghost s: Tree<Node<T>>)
      requires Root(s) == root && Linked(s) && Distinct(s)
      requires parent == null || parent !in Elements(s)
      modifies Elements(s), Opt(parent), this`rolledRoot
      ensures Linked(Rolled(direction, s))
      ensures root != null && parent != null && direction == Clockwise ==>
        parent.left == Root(Rolled(direction, s)) && parent.right == null
      ensures root != null && parent != null && direction == CounterClockwise ==>
        parent.right == Root(Rolled(direction, s)) && parent.left == null
      ensures root != null && parent == null ==>
        rolledRoot == if direction == Clockwise then LeftSpineBottom(s) else RightSpineBottom(s)
      ensures root == null || parent != null ==> rolledRoot == old(rolledRoot)
      ensures root == null ==> unchanged(Opt(parent))
    {
      if direction == Clockwise {
        ClockwiseRoll(root, parent, s);
      } else {
        CounterClockwiseRoll(root, parent, s);
      }
    }

    /**
      Clockwise: first the node's left part is dealt with (`ClockwiseTop`),
      then the right subtree is rolled with the node as its parent, which makes
      the rolled right subtree the node's left child.
    */
    method ClockwiseRoll(root: Node?<T>, parent: Node?<T>, ghost s: Tree<Node<T>>)
      requires Root(s) == root && Linked(s) && Distinct(s)
      requires parent == null || parent !in Elements(s)
      modifies Elements(s), Opt(parent), this`rolledRoot
      ensures Linked(RollClockwise(s))
      ensures root != null && parent != null ==> parent.left == Root(RollClockwise(s)) && parent.right == null
      ensures root != null && parent == null ==> rolledRoot == LeftSpineBottom(s)
      ensures root == null || parent != null ==> rolledRoot == old(rolledRoot)
      ensures root == null ==> unchanged(Opt(parent))
      decreases s, 1
    {
      if root != null {
        LinkedChildren(s);
        ClockwiseElements(s.left);
        ClockwiseElements(s.right);
        ClockwiseTop(root, parent, s);
        ElementsAllocated(RollClockwise(s.left));
        if root.right != null {
          ClockwiseRoll(root.right, root, s.right);
        }
        ClockwiseRoot(s);
        LinksGraftRight(RollClockwise(s.left), Tree.Node(RollClockwise(s.right), root, Nil), null, null);
      }
    }

    /**
      The first half of a clockwise step. With a left child, the left subtree
      is rolled (towards the same parent) and the node is hung as the right
      child of its old left child, which the roll has left at the bottom of the
      result's right spine. Without one, the node itself is the new top: it is
      hung below the parent, or stored in the rolled-root slot.
    */
    method ClockwiseTop(root: Node<T>, parent: Node?<T>, ghost s: Tree<Node<T>>)
      requires Root(s) == root && Linked(s) && Distinct(s)
      requires parent == null || parent !in Elements(s)
      modifies Elements(s.left), root, Opt(parent), this`rolledRoot
      ensures Links(RollClockwise(s.left), null, root) && root.left == null && root.right == old(root.right)
      ensures parent != null ==> parent.left == LeftSpineBottom(s) && parent.right == null
      ensures parent == null ==> rolledRoot == LeftSpineBottom(s)
      ensures parent != null ==> rolledRoot == old(rolledRoot)
      decreases s, 0
    {
      LinkedChildren(s);
      if root.left != null {
        ClockwiseRoll(root.left, parent, s.left);
        ClockwiseRoot(s.left);
        HangBelowRight(root.left, root, s.left);
      } else if parent != null {
        parent.SetLeft(root);
        parent.SetRight(null);
      } else {
        SetRolledRoot(root);
      }
    }

    /** The mirror image of `ClockwiseRoll`, with left and right exchanged. */
    method CounterClockwiseRoll(root: Node?<T>, parent: Node?<T>, ghost s: Tree<Node<T>>)
      requires Root(s) == root && Linked(s) && Distinct(s)
      requires parent == null || parent !in Elements(s)
      modifies Elements(s), Opt(parent), this`rolledRoot
      ensures Linked(RollCounterClockwise(s))
      ensures root != null && parent != null ==> parent.right == Root(RollCounterClockwise(s)) && parent.left == null
      ensures root != null && parent == null ==> rolledRoot == RightSpineBottom(s)
      ensures root == null || parent != null ==> rolledRoot == old(rolledRoot)
      ensures root == null ==> unchanged(Opt(parent))
      decreases s, 1
    {
      if root != null {
        LinkedChildren(s);
        CounterClockwiseElements(s.left);
        CounterClockwiseElements(s.right);
        CounterClockwiseTop(root, parent, s);
        ElementsAllocated(RollCounterClockwise(s.right));
        if root.left != null {
          CounterClockwiseRoll(root.left, root, s.left);
        }
        CounterClockwiseRoot(s);
        LinksGraftLeft(RollCounterClockwise(s.right), Tree.Node(Nil, root, RollCounterClockwise(s.left)), null, null);
      }
    }

    /** The mirror image of `ClockwiseTop`. */
    method CounterClockwiseTop(root: Node<T>, parent: Node?<T>, ghost s: Tree<Node<T>>)
      requires Root(s) == root && Linked(s) && Distinct(s)
      requires parent == null || parent !in Elements(s)
      modifies Elements(s.right), root, Opt(parent), this`rolledRoot
      ensures Links(RollCounterClockwise(s.right), root, null) && root.right == null && root.left == old(root.left)
      ensures parent != null ==> parent.right == RightSpineBottom(s) && parent.left == null
      ensures parent == null ==> rolledRoot == RightSpineBottom(s)
      ensures parent != null ==> rolledRoot == old(rolledRoot)
      decreases s, 0
    {
      LinkedChildren(s);
      if root.right != null {
        CounterClockwiseRoll(root.right, parent, s.right);
        CounterClockwiseRoot(s.right);
        HangBelowLeft(root.right, root, s.right);
      } else if parent != null {
        parent.SetRight(root);
        parent.SetLeft(null);
      } else {
        SetRolledRoot(root);
      }
    }
    /**
      After the clockwise roll of the subtree `sl` whose old root is `top`,
      `top` is at the bottom of the result's right spine with no right child:
      hanging `root` there, as `top`'s right child, and clearing `root`'s left
      link extends the rolled structure by `root`.
    */
    static method HangBelowRight(top: Node<T>, root: Node<T>, ghost sl: Tree<Node<T>>)
      requires sl.Node? && sl.value == top && Distinct(sl) && root !in Elements(sl)
      requires Linked(RollClockwise(sl))
      modifies top, root
      ensures Links(RollClockwise(sl), null, root) && root.left == null && root.right == old(root.right)
    {
      // The rolled subtree is `a` with `top` grafted below it.
      ghost var a := RollClockwise(sl.left);
      ghost var x := Tree.Node(RollClockwise(sl.right), top, Nil);
      ClockwiseElements(sl.left);
      ClockwiseElements(sl.right);
      ElementsAllocated(a);
      ElementsAllocated(x.left);
      LinksGraftRight(a, x, null, null);
      top.SetRight(root);
      root.SetLeft(null);
      LinksGraftRight(a, x, null, root);
    }

    /** The mirror image of `HangBelowRight`. */
    static method HangBelowLeft(top: Node<T>, root: Node<T>, ghost sr: Tree<Node<T>>)
      requires sr.Node? && sr.value == top && Distinct(sr) && root !in Elements(sr)
      requires Linked(RollCounterClockwise(sr))
      modifies top, root
      ensures Links(RollCounterClockwise(sr), root, null) && root.right == null && root.left == old(root.left)
    {
      ghost var a := RollCounterClockwise(sr.right);
      ghost var x := Tree.Node(Nil, top, RollCounterClockwise(sr.left));
      CounterClockwiseElements(sr.left);
      CounterClockwiseElements(sr.right);
      ElementsAllocated(a);
      ElementsAllocated(x.right);
      LinksGraftLeft(a, x, null, null);
      top.SetLeft(root);
      root.SetRight(null);
      LinksGraftLeft(a, x, root, null);
    }
  }
}
