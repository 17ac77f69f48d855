/**
  The whole-tree roll as a function on tree values: the reference that the
  in-place relinking of `RollHandlers` is proved against.

  Clockwise, every node's new left child is its rolled original right subtree,
  and its new right child is its former parent when it was a left child. The
  definition follows the order of the relinking code: the left subtree is
  rolled first, the node is then hung at the bottom of that result's right
  spine (the old left child is the last node there), and the node's own right
  subtree, rolled, becomes its left child. Counter-clockwise is the mirror
  image.
*/
module Rolls {
  import opened Trees

  /** `t` with `acc` in place of the absent right child at the bottom of its right spine. */
  function GraftRight<X>(t: Tree<X>, acc: Tree<X>): Tree<X>
  {
    match t
    case Nil => acc
    case Node(l, v, r) => Node(l, v, GraftRight(r, acc))
  }

  /** `t` with `acc` in place of the absent left child at the bottom of its left spine. */
  function GraftLeft<X>(t: Tree<X>, acc: Tree<X>): Tree<X>
  {
    match t
    case Nil => acc
    case Node(l, v, r) => Node(GraftLeft(l, acc), v, r)
  }

  function RollClockwise<X>(t: Tree<X>): Tree<X>
  {
    match t
    case Nil => Nil
    case Node(l, v, r) => GraftRight(RollClockwise(l), Node(RollClockwise(r), v, Nil))
  }

  function RollCounterClockwise<X>(t: Tree<X>): Tree<X>
  {
    match t
    case Nil => Nil
    case Node(l, v, r) => GraftLeft(RollCounterClockwise(r), Node(Nil, v, RollCounterClockwise(l)))
  }

  /**
    A second, independent description of the clockwise roll, walking down the
    left spine with an accumulator: each spine node takes its rolled right
    subtree as its left child and the accumulated result (its former parent) as
    its right child; the bottom of the spine ends up on top.
  */
  function ClockwiseSpine<X>(spine: Tree<X>, acc: Tree<X>): Tree<X>
  {
    match spine
    case Nil => acc
    case Node(l, v, r) => ClockwiseSpine(l, Node(RollClockwise(r), v, acc))
  }

  /** The mirror-image accumulator walk down the right spine. */
  function CounterClockwiseSpine<X>(spine: Tree<X>, acc: Tree<X>): Tree<X>
  {
    match spine
    case Nil => acc
    case Node(l, v, r) => CounterClockwiseSpine(r, Node(acc, v, RollCounterClockwise(l)))
  }

  /** The value at the bottom of the left spine: no left child below it. */
  function LeftSpineBottom<X>(t: Tree<X>): X
    requires t.Node?
  {
    if t.left.Nil? then t.value else LeftSpineBottom(t.left)
  }

  function RightSpineBottom<X>(t: Tree<X>): X
    requires t.Node?
  {
    if t.right.Nil? then t.value else RightSpineBottom(t.right)
  }

  // ---------------------------------------------------------------------------
  // Grafting.

  lemma {:induction false} GraftRightAssociative<X>(a: Tree<X>, b: Tree<X>, c: Tree<X>)
    ensures GraftRight(GraftRight(a, b), c) == GraftRight(a, GraftRight(b, c))
  {
    match a
    case Nil =>
    case Node(_, _, r) => GraftRightAssociative(r, b, c);
  }

  lemma {:induction false} GraftLeftAssociative<X>(a: Tree<X>, b: Tree<X>, c: Tree<X>)
    ensures GraftLeft(GraftLeft(a, b), c) == GraftLeft(a, GraftLeft(b, c))
  {
    match a
    case Nil =>
    case Node(l, _, _) => GraftLeftAssociative(l, b, c);
  }

  lemma {:induction false} GraftRightPreorder<X>(t: Tree<X>, acc: Tree<X>)
    ensures Preorder(GraftRight(t, acc)) == Preorder(t) + Preorder(acc)
  {
    match t
    case Nil =>
    case Node(l, v, r) =>
      GraftRightPreorder(r, acc);
      calc {
        Preorder(GraftRight(t, acc));
        [v] + Preorder(l) + Preorder(GraftRight(r, acc));
        [v] + Preorder(l) + (Preorder(r) + Preorder(acc));
        ([v] + Preorder(l) + Preorder(r)) + Preorder(acc);
      }
  }

  lemma {:induction false} GraftRightInorder<X>(t: Tree<X>, acc: Tree<X>)
    ensures Inorder(GraftRight(t, acc)) == Inorder(t) + Inorder(acc)
  {
    match t
    case Nil =>
    case Node(l, v, r) =>
      GraftRightInorder(r, acc);
      calc {
        Inorder(GraftRight(t, acc));
        Inorder(l) + [v] + Inorder(GraftRight(r, acc));
        Inorder(l) + [v] + (Inorder(r) + Inorder(acc));
        (Inorder(l) + [v] + Inorder(r)) + Inorder(acc);
      }
  }

  lemma {:induction false} GraftLeftInorder<X>(t: Tree<X>, acc: Tree<X>)
    ensures Inorder(GraftLeft(t, acc)) == Inorder(acc) + Inorder(t)
  {
    match t
    case Nil =>
    case Node(l, v, r) =>
      GraftLeftInorder(l, acc);
      calc {
        Inorder(GraftLeft(t, acc));
        Inorder(GraftLeft(l, acc)) + [v] + Inorder(r);
        (Inorder(acc) + Inorder(l)) + [v] + Inorder(r);
        Inorder(acc) + (Inorder(l) + [v] + Inorder(r));
      }
  }

  lemma {:induction false} GraftLeftPostorder<X>(t: Tree<X>, acc: Tree<X>)
    ensures Postorder(GraftLeft(t, acc)) == Postorder(acc) + Postorder(t)
  {
    match t
    case Nil =>
    case Node(l, v, r) =>
      GraftLeftPostorder(l, acc);
      calc {
        Postorder(GraftLeft(t, acc));
        Postorder(GraftLeft(l, acc)) + Postorder(r) + [v];
        (Postorder(acc) + Postorder(l)) + Postorder(r) + [v];
        Postorder(acc) + (Postorder(l) + Postorder(r) + [v]);
      }
  }

  lemma {:induction false} GraftRightElements<X>(t: Tree<X>, acc: Tree<X>)
    ensures Elements(GraftRight(t, acc)) == Elements(t) + Elements(acc)
    ensures Distinct(t) && Distinct(acc) && Elements(t) !! Elements(acc) ==> Distinct(GraftRight(t, acc))
  {
    match t
    case Nil =>
    case Node(_, _, r) => GraftRightElements(r, acc);
  }

  lemma {:induction false} GraftLeftElements<X>(t: Tree<X>, acc: Tree<X>)
    ensures Elements(GraftLeft(t, acc)) == Elements(t) + Elements(acc)
    ensures Distinct(t) && Distinct(acc) && Elements(t) !! Elements(acc) ==> Distinct(GraftLeft(t, acc))
  {
    match t
    case Nil =>
    case Node(l, _, _) => GraftLeftElements(l, acc);
  }

  // ---------------------------------------------------------------------------
  // The traversal identities.

  lemma {:induction false} ClockwisePreorder<X>(t: Tree<X>)
    ensures Preorder(RollClockwise(t)) == Inorder(t)
  {
    match t
    case Nil =>
    case Node(l, v, r) =>
      ClockwisePreorder(l);
      ClockwisePreorder(r);
      var x := Node(RollClockwise(r), v, Nil);
      GraftRightPreorder(RollClockwise(l), x);
      calc {
        Preorder(RollClockwise(t));
        Preorder(RollClockwise(l)) + Preorder(x);
        Inorder(l) + ([v] + Preorder(RollClockwise(r)));
        Inorder(l) + [v] + Inorder(r);
      }
  }

  lemma {:induction false} ClockwiseInorder<X>(t: Tree<X>)
    ensures Inorder(RollClockwise(t)) == Postorder(t)
  {
    match t
    case Nil =>
    case Node(l, v, r) =>
      ClockwiseInorder(l);
      ClockwiseInorder(r);
      var x := Node(RollClockwise(r), v, Nil);
      GraftRightInorder(RollClockwise(l), x);
      calc {
        Inorder(RollClockwise(t));
        Inorder(RollClockwise(l)) + Inorder(x);
        Postorder(l) + (Inorder(RollClockwise(r)) + [v]);
        Postorder(l) + Postorder(r) + [v];
      }
  }

  /** Clockwise: preorder(after) == inorder(before) and inorder(after) == postorder(before). */
  lemma ClockwiseTraversals<X>(t: Tree<X>)
    ensures Preorder(RollClockwise(t)) == Inorder(t)
    ensures Inorder(RollClockwise(t)) == Postorder(t)
  {
    ClockwisePreorder(t);
    ClockwiseInorder(t);
  }

  lemma {:induction false} CounterClockwiseInorder<X>(t: Tree<X>)
    ensures Inorder(RollCounterClockwise(t)) == Preorder(t)
  {
    match t
    case Nil =>
    case Node(l, v, r) =>
      CounterClockwiseInorder(l);
      CounterClockwiseInorder(r);
      var x := Node(Nil, v, RollCounterClockwise(l));
      GraftLeftInorder(RollCounterClockwise(r), x);
      calc {
        Inorder(RollCounterClockwise(t));
        Inorder(x) + Inorder(RollCounterClockwise(r));
        ([v] + Preorder(l)) + Preorder(r);
      }
  }

  lemma {:induction false} CounterClockwisePostorder<X>(t: Tree<X>)
    ensures Postorder(RollCounterClockwise(t)) == Inorder(t)
  {
    match t
    case Nil =>
    case Node(l, v, r) =>
      CounterClockwisePostorder(l);
      CounterClockwisePostorder(r);
      var x := Node(Nil, v, RollCounterClockwise(l));
      GraftLeftPostorder(RollCounterClockwise(r), x);
      calc {
        Postorder(RollCounterClockwise(t));
        Postorder(x) + Postorder(RollCounterClockwise(r));
        (Postorder(RollCounterClockwise(l)) + [v]) + Inorder(r);
        Inorder(l) + [v] + Inorder(r);
      }
  }

  /** Counter-clockwise: inorder(after) == preorder(before) and postorder(after) == inorder(before). */
  lemma CounterClockwiseTraversals<X>(t: Tree<X>)
    ensures Inorder(RollCounterClockwise(t)) == Preorder(t)
    ensures Postorder(RollCounterClockwise(t)) == Inorder(t)
  {
    CounterClockwiseInorder(t);
    CounterClockwisePostorder(t);
  }

  /** Rolling never creates or loses a node. */
  lemma RollsPreserveSize<X>(t: Tree<X>)
    ensures Size(RollClockwise(t)) == Size(t)
    ensures Size(RollCounterClockwise(t)) == Size(t)
  {
    ClockwiseTraversals(t);
    CounterClockwiseTraversals(t);
    TraversalLengths(t);
    TraversalLengths(RollClockwise(t));
    TraversalLengths(RollCounterClockwise(t));
  }

  /** Rolling relinks the same labels: the label set is kept and so is distinctness. */
  lemma {:induction false} ClockwiseElements<X>(t: Tree<X>)
    ensures Elements(RollClockwise(t)) == Elements(t)
    ensures Distinct(t) ==> Distinct(RollClockwise(t))
  {
    match t
    case Nil =>
    case Node(l, v, r) =>
      ClockwiseElements(l);
      ClockwiseElements(r);
      var x := Node(RollClockwise(r), v, Nil);
      assert Elements(x) == Elements(r) + {v};
      if Distinct(t) {
        assert v !in Elements(RollClockwise(r));
        assert Distinct(x);
      }
      GraftRightElements(RollClockwise(l), x);
  }

  lemma {:induction false} CounterClockwiseElements<X>(t: Tree<X>)
    ensures Elements(RollCounterClockwise(t)) == Elements(t)
    ensures Distinct(t) ==> Distinct(RollCounterClockwise(t))
  {
    match t
    case Nil =>
    case Node(l, v, r) =>
      CounterClockwiseElements(l);
      CounterClockwiseElements(r);
      var x := Node(Nil, v, RollCounterClockwise(l));
      assert Elements(x) == {v} + Elements(l);
      if Distinct(t) {
        assert v !in Elements(RollCounterClockwise(l));
        assert Distinct(x);
        assert Elements(RollCounterClockwise(r)) !! Elements(x);
      }
      GraftLeftElements(RollCounterClockwise(r), x);
  }

  /** The new root of a clockwise roll is the bottom of the original left spine. */
  lemma {:induction false} ClockwiseRoot<X>(t: Tree<X>)
    requires t.Node?
    ensures RollClockwise(t).Node? && RollClockwise(t).value == LeftSpineBottom(t)
  {
    if t.left.Node? {
      ClockwiseRoot(t.left);
    }
  }

  /** The new root of a counter-clockwise roll is the bottom of the original right spine. */
  lemma {:induction false} CounterClockwiseRoot<X>(t: Tree<X>)
    requires t.Node?
    ensures RollCounterClockwise(t).Node? && RollCounterClockwise(t).value == RightSpineBottom(t)
  {
    if t.right.Node? {
      CounterClockwiseRoot(t.right);
    }
  }

  // ---------------------------------------------------------------------------
  // The two descriptions of each roll agree.

  lemma {:induction false} ClockwiseSpineIsGraft<X>(spine: Tree<X>, acc: Tree<X>)
    ensures ClockwiseSpine(spine, acc) == GraftRight(RollClockwise(spine), acc)
  {
    match spine
    case Nil =>
    case Node(l, v, r) =>
      ClockwiseSpineIsGraft(l, Node(RollClockwise(r), v, acc));
      GraftRightAssociative(RollClockwise(l), Node(RollClockwise(r), v, Nil), acc);
  }

  lemma ClockwiseBySpine<X>(t: Tree<X>)
    ensures t.Node? ==> RollClockwise(t) == ClockwiseSpine(t.left, Node(RollClockwise(t.right), t.value, Nil))
  {
    if t.Node? {
      ClockwiseSpineIsGraft(t.left, Node(RollClockwise(t.right), t.value, Nil));
    }
  }

  lemma {:induction false} CounterClockwiseSpineIsGraft<X>(spine: Tree<X>, acc: Tree<X>)
    ensures CounterClockwiseSpine(spine, acc) == GraftLeft(RollCounterClockwise(spine), acc)
  {
    match spine
    case Nil =>
    case Node(l, v, r) =>
      CounterClockwiseSpineIsGraft(r, Node(acc, v, RollCounterClockwise(l)));
      GraftLeftAssociative(RollCounterClockwise(r), Node(Nil, v, RollCounterClockwise(l)), acc);
  }

  lemma CounterClockwiseBySpine<X>(t: Tree<X>)
    ensures t.Node? ==>
      RollCounterClockwise(t) == CounterClockwiseSpine(t.right, Node(Nil, t.value, RollCounterClockwise(t.left)))
  {
    if t.Node? {
      CounterClockwiseSpineIsGraft(t.right, Node(Nil, t.value, RollCounterClockwise(t.left)));
    }
  }

  // ---------------------------------------------------------------------------
  // The two directions undo each other, and are mirror images.

  lemma {:induction false} CounterClockwiseOfGraftRight<X>(a: Tree<X>, x: Tree<X>)
    ensures RollCounterClockwise(GraftRight(a, x)) == GraftLeft(RollCounterClockwise(x), RollCounterClockwise(a))
  {
    match a
    case Nil =>
      GraftLeftNil(RollCounterClockwise(x));
    case Node(l, v, r) =>
      CounterClockwiseOfGraftRight(r, x);
      GraftLeftAssociative(RollCounterClockwise(x), RollCounterClockwise(r), Node(Nil, v, RollCounterClockwise(l)));
  }

  lemma {:induction false} ClockwiseOfGraftLeft<X>(a: Tree<X>, x: Tree<X>)
    ensures RollClockwise(GraftLeft(a, x)) == GraftRight(RollClockwise(x), RollClockwise(a))
  {
    match a
    case Nil =>
      GraftRightNil(RollClockwise(x));
    case Node(l, v, r) =>
      ClockwiseOfGraftLeft(l, x);
      GraftRightAssociative(RollClockwise(x), RollClockwise(l), Node(RollClockwise(r), v, Nil));
  }

  lemma {:induction false} GraftLeftNil<X>(t: Tree<X>)
    ensures GraftLeft(t, Nil) == t
  {
    match t
    case Nil =>
    case Node(l, _, _) => GraftLeftNil(l);
  }

  lemma {:induction false} GraftRightNil<X>(t: Tree<X>)
    ensures GraftRight(t, Nil) == t
  {
    match t
    case Nil =>
    case Node(_, _, r) => GraftRightNil(r);
  }

  /** Rolling clockwise and then counter-clockwise gives back the original tree. */
  lemma {:induction false} CounterClockwiseUndoesClockwise<X>(t: Tree<X>)
    ensures RollCounterClockwise(RollClockwise(t)) == t
  {
    match t
    case Nil =>
    case Node(l, v, r) =>
      CounterClockwiseUndoesClockwise(l);
      CounterClockwiseUndoesClockwise(r);
      CounterClockwiseOfGraftRight(RollClockwise(l), Node(RollClockwise(r), v, Nil));
  }

  /** Rolling counter-clockwise and then clockwise gives back the original tree. */
  lemma {:induction false} ClockwiseUndoesCounterClockwise<X>(t: Tree<X>)
    ensures RollClockwise(RollCounterClockwise(t)) == t
  {
    match t
    case Nil =>
    case Node(l, v, r) =>
      ClockwiseUndoesCounterClockwise(l);
      ClockwiseUndoesCounterClockwise(r);
      ClockwiseOfGraftLeft(RollCounterClockwise(r), Node(Nil, v, RollCounterClockwise(l)));
  }

  lemma {:induction false} MirrorGraftRight<X>(t: Tree<X>, acc: Tree<X>)
    ensures Mirror(GraftRight(t, acc)) == GraftLeft(Mirror(t), Mirror(acc))
  {
    match t
    case Nil =>
    case Node(_, _, r) => MirrorGraftRight(r, acc);
  }

  /** Counter-clockwise is clockwise seen in a mirror. */
  lemma {:induction false} CounterClockwiseIsMirroredClockwise<X>(t: Tree<X>)
    ensures RollCounterClockwise(t) == Mirror(RollClockwise(Mirror(t)))
  {
    match t
    case Nil =>
    case Node(l, v, r) =>
      CounterClockwiseIsMirroredClockwise(l);
      CounterClockwiseIsMirroredClockwise(r);
      MirrorGraftRight(RollClockwise(Mirror(r)), Node(RollClockwise(Mirror(l)), v, Nil));
  }
}
