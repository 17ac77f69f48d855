/**
  The sample tree used throughout the repository's tests and examples: the
  level-order array `1, 2, 3, null, null, 4, 5, null, 6` with `null` as the
  null identifier. Integers are wrapped in `Some` because the builder keeps
  slot contents as they are.
*/
module Samples {
  import opened Wrappers
  import opened Trees
  import opened Rolls
  import opened LevelOrder
  import BinaryTrees
  import Visitors
  import RollHandlers
  import RollStrategies

  const SampleSlots: seq<Option<int>> := [Some(1), Some(2), Some(3), None, None, Some(4), Some(5), None, Some(6)]

  /** The nodes the builder makes from the sample, numbered in creation order. */
  const SampleForest: Forest<Option<int>> :=
    Forest([Some(1), Some(2), Some(3), Some(4), Some(5), Some(6)], map[0 := 1, 2 := 3], map[0 := 2, 2 := 4, 3 := 5])

  /** The loop state after the first round, and after the third. */
  const AfterRound1: Build<int> := Build(Forest([Some(1), Some(2), Some(3)], map[0 := 1], map[0 := 2]), 1, 3)
  const AfterRound3: Build<int> :=
    Build(Forest([Some(1), Some(2), Some(3), Some(4), Some(5)], map[0 := 1, 2 := 3], map[0 := 2, 2 := 4]), 3, 7)

  function Leaf<X>(x: X): Tree<X>
  {
    Tree.Node(Nil, x, Nil)
  }

  /** Root 1 with children 2 and 3; 3 has children 4 and 5; 4 has right child 6. */
  const SampleTree: Tree<Option<int>> :=
    Tree.Node(Leaf(Some(2)), Some(1), Tree.Node(Tree.Node(Nil, Some(4), Leaf(Some(6))), Some(3), Leaf(Some(5))))

  lemma RunStep<T>(values: seq<Option<T>>, nullId: Option<T>, b: Build<T>, b': Build<T>)
    requires b.head < |b.forest.labels| && Step(values, nullId, b) == b'
    ensures Run(values, nullId, b) == Run(values, nullId, b')
  {
  }

  lemma SampleRound1()
    ensures Run(SampleSlots, None, Init(SampleSlots)) == Run(SampleSlots, None, AfterRound1)
  {
    RunStep(SampleSlots, None, Init(SampleSlots), AfterRound1);
  }

  lemma SampleRounds2To3()
    ensures Run(SampleSlots, None, AfterRound1) == Run(SampleSlots, None, AfterRound3)
  {
    RunStep(SampleSlots, None, AfterRound1, AfterRound1.(head := 2, ptr := 5));
    RunStep(SampleSlots, None, AfterRound1.(head := 2, ptr := 5), AfterRound3);
  }

  lemma SampleRound4()
    ensures Run(SampleSlots, None, AfterRound3) == Run(SampleSlots, None, Build(SampleForest, 4, 9))
  {
    RunStep(SampleSlots, None, AfterRound3, Build(SampleForest, 4, 9));
  }

  lemma SampleRounds5To6()
    ensures Run(SampleSlots, None, Build(SampleForest, 4, 9)) == Build(SampleForest, 6, 9)
  {
    RunStep(SampleSlots, None, Build(SampleForest, 4, 9), Build(SampleForest, 5, 9));
    RunStep(SampleSlots, None, Build(SampleForest, 5, 9), Build(SampleForest, 6, 9));
  }

  /** The builder's loop on the sample makes six nodes and reads every slot. */
  lemma SampleBuilt()
    ensures Built(SampleSlots, None) == SampleForest
  {
    SampleRound1();
    SampleRounds2To3();
    SampleRound4();
    SampleRounds5To6();
  }

  lemma SampleWellFormed()
    ensures WellFormed(SampleForest)
  {
    var f := SampleForest;
    assert forall i :: i in f.lefts ==> i == 0 || i == 2;
    assert forall i :: i in f.rights ==> i == 0 || i == 2 || i == 3;
  }

  /** Nodes 1, 4 and 5 of the sample have no children. */
  lemma SampleLeaf(i: nat)
    requires i == 1 || i == 4 || i == 5
    ensures WellFormed(SampleForest)
    ensures ToTree(SampleForest, i) == Leaf(SampleForest.labels[i])
  {
    SampleWellFormed();
  }

  lemma SampleInnerNodes()
    ensures WellFormed(SampleForest)
    ensures ToTree(SampleForest, 3) == Tree.Node(Nil, Some(4), Leaf(Some(6)))
    ensures ToTree(SampleForest, 2) == Tree.Node(Tree.Node(Nil, Some(4), Leaf(Some(6))), Some(3), Leaf(Some(5)))
  {
    SampleLeaf(4);
    SampleLeaf(5);
    assert ToTree(SampleForest, 3) == Tree.Node(Nil, Some(4), Leaf(Some(6)));
  }

  lemma SampleForestTree()
    ensures WellFormed(SampleForest) && ToTree(SampleForest, 0) == SampleTree
  {
    SampleLeaf(1);
    SampleInnerNodes();
  }

  /** The sample rolled clockwise: root 2 with right child 1, whose left child is 4 with children 6 and 3, and 3 has left child 5. */
  const RolledSampleTree: Tree<Option<int>> :=
    Tree.Node(Nil, Some(2), Tree.Node(Tree.Node(Leaf(Some(6)), Some(4), Tree.Node(Leaf(Some(5)), Some(3), Nil)), Some(1), Nil))

  lemma SampleTraversals()
    ensures Size(SampleTree) == 6 && Height(SampleTree) == 4
    ensures Preorder(SampleTree) == [Some(1), Some(2), Some(3), Some(4), Some(6), Some(5)]
    ensures Inorder(SampleTree) == [Some(2), Some(1), Some(4), Some(6), Some(3), Some(5)]
    ensures Postorder(SampleTree) == [Some(2), Some(6), Some(4), Some(5), Some(3), Some(1)]
  {
    var four := Tree.Node(Nil, Some(4), Leaf(Some(6)));
    assert Height(Leaf(Some(6))) == 1 && Height(Leaf(Some(5))) == 1 && Height(Leaf(Some(2))) == 1;
    assert Height(four) == 2;
    assert Height(Tree.Node(four, Some(3), Leaf(Some(5)))) == 3;
  }

  lemma SampleRoll()
    ensures RollClockwise(SampleTree) == RolledSampleTree
  {
  }

  lemma RolledSampleTraversals()
    ensures Preorder(RolledSampleTree) == [Some(2), Some(1), Some(4), Some(6), Some(3), Some(5)]
    ensures Inorder(RolledSampleTree) == [Some(2), Some(6), Some(4), Some(5), Some(3), Some(1)]
    ensures Postorder(RolledSampleTree) == [Some(6), Some(5), Some(3), Some(4), Some(1), Some(2)]
  {
  }

  /** The tree built from the sample, its size and its three traversals. */
  lemma SampleLevelOrder()
    ensures LevelOrderTree(SampleSlots, None) == SampleTree
    ensures Size(LevelOrderTree(SampleSlots, None)) == 6 && Height(LevelOrderTree(SampleSlots, None)) == 4
    ensures Preorder(LevelOrderTree(SampleSlots, None)) == [Some(1), Some(2), Some(3), Some(4), Some(6), Some(5)]
    ensures Inorder(LevelOrderTree(SampleSlots, None)) == [Some(2), Some(1), Some(4), Some(6), Some(3), Some(5)]
    ensures Postorder(LevelOrderTree(SampleSlots, None)) == [Some(2), Some(6), Some(4), Some(5), Some(3), Some(1)]
  {
    SampleBuilt();
    SampleForestTree();
    SampleTraversals();
  }

  /** The sample rolled clockwise, with its traversals. */
  lemma SampleRolledClockwise()
    ensures RollClockwise(LevelOrderTree(SampleSlots, None)) == RolledSampleTree
    ensures Preorder(RollClockwise(LevelOrderTree(SampleSlots, None))) == [Some(2), Some(1), Some(4), Some(6), Some(3), Some(5)]
    ensures Inorder(RollClockwise(LevelOrderTree(SampleSlots, None))) == [Some(2), Some(6), Some(4), Some(5), Some(3), Some(1)]
    ensures Postorder(RollClockwise(LevelOrderTree(SampleSlots, None))) == [Some(6), Some(5), Some(3), Some(4), Some(1), Some(2)]
  {
    SampleLevelOrder();
    SampleRoll();
    RolledSampleTraversals();
  }

  /**
    Collects the three traversals of a tree with fresh collectors, as the
    traversal test does; a tree with a root never makes `traverse` throw.
  */
  method CollectTraversals<T(==)>(tree: BinaryTrees.BinaryTree<T>) returns (pre: seq<T>, ino: seq<T>, post: seq<T>)
    requires tree.Valid() && tree.Model().Node?
    ensures pre == Preorder(tree.Model()) && ino == Inorder(tree.Model()) && post == Postorder(tree.Model())
    ensures tree.Valid() && forall n <- tree.Repr() :: allocated(n)
  {
    BinaryTrees.ElementsAllocated(tree.shape);
    var preorder := new Visitors.NodeCollector<T>();
    var inorder := new Visitors.NodeCollector<T>();
    var postorder := new Visitors.NodeCollector<T>();
    var r1 := Visitors.Traverse(tree, Visitors.PreorderVisitor, preorder);
    var r2 := Visitors.Traverse(tree, Visitors.InorderVisitor, inorder);
    var r3 := Visitors.Traverse(tree, Visitors.PostorderVisitor, postorder);
    pre, ino, post := preorder.GetList(), inorder.GetList(), postorder.GetList();
  }

  /**
    The first example program end to end: the sample is built, its
    traversals are collected, it is rolled clockwise in place with the
    strategy the factory gives, and the traversals are collected again.
  */
  method Example() returns (before: seq<seq<Option<int>>>, after: seq<seq<Option<int>>>)
    ensures before == [[Some(1), Some(2), Some(3), Some(4), Some(6), Some(5)],
                       [Some(2), Some(1), Some(4), Some(6), Some(3), Some(5)],
                       [Some(2), Some(6), Some(4), Some(5), Some(3), Some(1)]]
    ensures after == [[Some(2), Some(1), Some(4), Some(6), Some(3), Some(5)],
                      [Some(2), Some(6), Some(4), Some(5), Some(3), Some(1)],
                      [Some(6), Some(5), Some(3), Some(4), Some(1), Some(2)]]
  {
    var tree := Of(SampleSlots, None);
    assert tree.Model() == SampleTree by {
      SampleLevelOrder();
    }
    var pre, ino, post := CollectTraversals(tree);
    SampleTraversals();
    before := [pre, ino, post];
    var strategy := RollStrategies.Create(Some(RollHandlers.Clockwise));
    var rolled := RollStrategies.Roll(tree, strategy.value);
    assert tree.Model() == RolledSampleTree by {
      SampleRoll();
    }
    pre, ino, post := CollectTraversals(tree);
    RolledSampleTraversals();
    after := [pre, ino, post];
  }
}
