/**
  The depth-first visitors and the node collector. A visitor walks the linked
  nodes below a start node and hands each one to its action; the collector
  action appends the payload of every node it is given to its list. What a
  visitor hands over, in order, is the corresponding traversal of the shape.
*/
module Visitors {
  import opened Wrappers
  import opened Trees
  import opened BinaryTrees

  datatype Visitor = PreorderVisitor | InorderVisitor | PostorderVisitor

  /** The sequence of labels a visitor meets, in the order it meets them. */
  function Visits<X>(visitor: Visitor, t: Tree<X>): seq<X>
  {
    match visitor
    case PreorderVisitor => Preorder(t)
    case InorderVisitor => Inorder(t)
    case PostorderVisitor => Postorder(t)
  }

  /** An action that collects the value of every node it accepts. */
  class NodeCollector<T(==)> {
    var list: seq<T>

    constructor ()
      ensures list == []
    {
      list := [];
    }

    /** The values collected so far, in the order they were accepted. */
    function GetList(): (r: seq<T>)
      reads this
      ensures r == list
    {
      list
    }

    /** Appends the node's value; the node is only read. */
    method Accept(node: Node<T>)
      modifies this
      ensures list == old(list) + [node.value]
    {
      list := list + [node.value];
    }
  }

  /** The action runs on the node, then the left subtree is visited, then the right one. */
  method VisitPreorder<T(==)>(root: Node?<T>, ghost s: Tree<Node<T>>, action: NodeCollector<T>)
    requires Root(s) == root && Linked(s)
    modifies action
    ensures action.list == old(action.list) + Preorder(Values(s))
    decreases s
  {
    if root != null {
      LinkedChildren(s);
      action.Accept(root);
      VisitPreorder(root.left, s.left, action);
      VisitPreorder(root.right, s.right, action);
    }
  }

  /** The left subtree is visited, then the action runs on the node, then the right subtree is visited. */
  method VisitInorder<T(==)>(root: Node?<T>, ghost s: Tree<Node<T>>, action: NodeCollector<T>)
    requires Root(s) == root && Linked(s)
    modifies action
    ensures action.list == old(action.list) + Inorder(Values(s))
    decreases s
  {
    if root != null {
      LinkedChildren(s);
      VisitInorder(root.left, s.left, action);
      action.Accept(root);
      VisitInorder(root.right, s.right, action);
    }
  }

  /** Both subtrees are visited, left first, then the action runs on the node. */
  method VisitPostorder<T(==)>(root: Node?<T>, ghost s: Tree<Node<T>>, action: NodeCollector<T>)
    requires Root(s) == root && Linked(s)
    modifies action
    ensures action.list == old(action.list) + Postorder(Values(s))
    decreases s
  {
    if root != null {
      LinkedChildren(s);
      VisitPostorder(root.left, s.left, action);
      VisitPostorder(root.right, s.right, action);
      action.Accept(root);
    }
  }

  /** A node's `traverse`: the visitor is run from that node. */
  method Visit<T(==)>(visitor: Visitor, root: Node?<T>, ghost s: Tree<Node<T>>, action: NodeCollector<T>)
    requires Root(s) == root && Linked(s)
    modifies action
    ensures action.list == old(action.list) + Visits(visitor, Values(s))
  {
    match visitor
    case PreorderVisitor => VisitPreorder(root, s, action);
    case InorderVisitor => VisitInorder(root, s, action);
    case PostorderVisitor => VisitPostorder(root, s, action);
  }

  const EmptyTraversalMessage := "Cannot traverse an empty tree."

  /**
    A tree's `traverse`: a rootless tree throws before anything is visited;
    otherwise the visitor is run from the root.
  */
  method Traverse<T(==)>(tree: BinaryTree<T>, visitor: Visitor, action: NodeCollector<T>) returns (r: Result<()>)
    requires tree.Valid()
    modifies action
    ensures r.Failure? <==> tree.root == null
    ensures r.Failure? ==> r.error == IllegalStateException(EmptyTraversalMessage) && action.list == old(action.list)
    ensures r.Success? ==> action.list == old(action.list) + Visits(visitor, tree.Model())
  {
    if tree.GetRoot() == null {
      return Failure(IllegalStateException(EmptyTraversalMessage));
    }
    Visit(visitor, tree.GetRoot(), tree.shape, action);
    r := Success(());
  }

  // ---------------------------------------------------------------------------
  // What the collected list says about the tree.

  /**
    The payload sequence of a traversal is the traversal of the node shape
    read node by node: the i-th value collected is the value of the i-th node
    the visitor hands to its action.
  */
  lemma {:induction false} VisitsValues<T>(visitor: Visitor, s: Tree<Node<T>>)
    ensures |Visits(visitor, Values(s))| == |Visits(visitor, s)|
    ensures forall i :: 0 <= i < |Visits(visitor, s)| ==> Visits(visitor, Values(s))[i] == Visits(visitor, s)[i].value
  {
    match s
    case Nil =>
    case Node(l, _, r) =>
      VisitsValues(visitor, l);
      VisitsValues(visitor, r);
  }

  /** A visitor meets exactly the nodes of the tree. */
  lemma {:induction false} VisitsElements<X>(visitor: Visitor, t: Tree<X>)
    ensures forall x :: x in Visits(visitor, t) ==> x in Elements(t)
    ensures forall x :: x in Elements(t) ==> x in Visits(visitor, t)
  {
    match t
    case Nil =>
    case Node(l, v, r) =>
      VisitsElements(visitor, l);
      VisitsElements(visitor, r);
      var vl, vr := Visits(visitor, l), Visits(visitor, r);
      assert forall x :: x in vl + vr <==> x in vl || x in vr;
      match visitor
      case PreorderVisitor =>
        assert Visits(visitor, t) == [v] + (vl + vr);
      case InorderVisitor =>
        assert Visits(visitor, t) == (vl + [v]) + vr;
      case PostorderVisitor =>
        assert Visits(visitor, t) == (vl + vr) + [v];
  }

  /** Over a shape without sharing, no node is met twice. */
  lemma {:induction false} VisitsNoDuplicates<X>(visitor: Visitor, t: Tree<X>)
    requires Distinct(t)
    ensures NoDuplicates(Visits(visitor, t))
  {
    match t
    case Nil =>
    case Node(l, v, r) =>
      VisitsNoDuplicates(visitor, l);
      VisitsNoDuplicates(visitor, r);
      VisitsElements(visitor, l);
      VisitsElements(visitor, r);
      var vl, vr := Visits(visitor, l), Visits(visitor, r);
      assert Elements(l) !! Elements(r);
      forall x | x in vl
        ensures x !in vr
      {
        assert x in Elements(l);
      }
      NoDuplicatesConcat(vl, vr);
      assert forall x :: x in vl + vr <==> x in vl || x in vr;
      match visitor
      case PreorderVisitor =>
        NoDuplicatesConcat([v], vl + vr);
        assert Visits(visitor, t) == [v] + (vl + vr);
      case InorderVisitor =>
        NoDuplicatesConcat(vl, [v]);
        NoDuplicatesConcat(vl + [v], vr);
      case PostorderVisitor =>
        NoDuplicatesConcat(vl + vr, [v]);
  }

  /**
    Over a shape without sharing, a visitor hands every node to its action
    exactly once: it meets Size(t) nodes, no node twice, and all of them.
  */
  lemma VisitsEachNodeOnce<X>(visitor: Visitor, t: Tree<X>)
    requires Distinct(t)
    ensures |Visits(visitor, t)| == Size(t)
    ensures NoDuplicates(Visits(visitor, t))
    ensures forall x :: x in Visits(visitor, t) ==> x in Elements(t)
    ensures forall x :: x in Elements(t) ==> x in Visits(visitor, t)
  {
    TraversalLengths(t);
    VisitsElements(visitor, t);
    VisitsNoDuplicates(visitor, t);
  }

  ghost predicate NoDuplicates<X>(a: seq<X>)
  {
    forall i, j :: 0 <= i < j < |a| ==> a[i] != a[j]
  }

  lemma NoDuplicatesConcat<X>(a: seq<X>, b: seq<X>)
    requires NoDuplicates(a) && NoDuplicates(b)
    requires forall x :: x in a ==> x !in b
    ensures NoDuplicates(a + b)
  {
    forall i, j | 0 <= i < j < |a + b|
      ensures (a + b)[i] != (a + b)[j]
    {
      if j >= |a| && i < |a| {
        assert (a + b)[i] in a && (a + b)[j] in b;
      }
    }
  }
}
