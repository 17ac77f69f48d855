/**
  Roll strategies: a direction together with the choice between rolling the
  given tree in place and rolling a deep copy of it. Each roll uses a fresh
  handler of the strategy's direction, resets its rolled-root slot, runs it from
  the tree's root with no parent, and installs the slot's node as the root.
*/
module RollStrategies {
  import opened Wrappers
  import opened Trees
  import opened BinaryTrees
  import opened RollHandlers

  datatype Mutability = InPlace | Immutable

  datatype RollStrategy = RollStrategy(direction: Direction, mutability: Mutability)

  /** The in-place strategy for a direction; an absent direction throws. */
  function Create(direction: Option<Direction>): (r: Result<RollStrategy>)
    ensures r.Failure? <==> direction.None?
    ensures r.Failure? ==> r.error == NullPointerException
    ensures r.Success? ==> r.value.direction == direction.value && r.value.mutability == InPlace
  {
    match direction
    case None => Failure(NullPointerException)
    case Some(d) => Success(RollStrategy(d, InPlace))
  }

  /** The copy-then-roll strategy for a direction; an absent direction throws. */
  function CreateImmutable(direction: Option<Direction>): (r: Result<RollStrategy>)
    ensures r.Failure? <==> direction.None?
    ensures r.Failure? ==> r.error == NullPointerException
    ensures r.Success? ==> r.value.direction == direction.value && r.value.mutability == Immutable
  {
    match direction
    case None => Failure(NullPointerException)
    case Some(d) => Success(RollStrategy(d, Immutable))
  }

  /** Every strategy comes out of exactly one factory call. */
  lemma FactoriesCoverStrategies(strategy: RollStrategy)
    ensures strategy.mutability == InPlace ==> Create(Some(strategy.direction)) == Success(strategy)
    ensures strategy.mutability == Immutable ==> CreateImmutable(Some(strategy.direction)) == Success(strategy)
  {
  }

  /**
    The in-place roll: the given tree object is returned with its nodes
    relinked into the rolled tree; no node is created or dropped.
  */
  method RollInPlace<T(==)>(direction: Direction, tree: BinaryTree<T>) returns (rolled: BinaryTree<T>)
    requires tree.Valid()
    modifies tree, tree.Repr()
    ensures rolled == tree && tree.Valid()
    ensures tree.Model() == Rolled(direction, old(tree.Model()))
    ensures tree.Repr() == old(tree.Repr())
  {
    ElementsAllocated(tree.shape);
    var handler := new RollHandler<T>(direction);
    handler.SetRolledRoot(null);
    ghost var s := tree.shape;
    handler.Roll(tree.GetRoot(), null, s);
    RolledShape(direction, s);
    ValuesRolled(direction, s);
    tree.SetRoot(handler.GetRolledRoot(), Rolled(direction, s));
    rolled := tree;
  }

  /**
    The copy-then-roll: a deep copy of the tree is rolled in place and
    returned; the given tree and its nodes are not touched.
  */
  method RollCopy<T(==)>(direction: Direction, tree: BinaryTree<T>) returns (rolled: BinaryTree<T>)
    requires tree.Valid()
    ensures fresh(rolled) && rolled.Valid() && fresh(rolled.Repr())
    ensures rolled.Model() == Rolled(direction, tree.Model())
  {
    ElementsAllocated(tree.shape);
    var handler := new RollHandler<T>(direction);
    handler.SetRolledRoot(null);
    var copy := tree.DeepCopy();
    ghost var s := copy.shape;
    ElementsAllocated(s);
    handler.Roll(copy.GetRoot(), null, s);
    RolledShape(direction, s);
    ValuesRolled(direction, s);
    copy.SetRoot(handler.GetRolledRoot(), Rolled(direction, s));
    rolled := copy;
  }

  /** Rolling a tree with a strategy, as the tree's own `roll` does. */
  method Roll<T(==)>(tree: BinaryTree<T>, strategy: RollStrategy) returns (rolled: BinaryTree<T>)
    requires tree.Valid() && forall n <- tree.Repr() :: allocated(n)
    modifies tree, tree.Repr()
    ensures rolled.Valid()
    ensures rolled.Model() == Rolled(strategy.direction, old(tree.Model()))
    ensures strategy.mutability == InPlace ==> rolled == tree && tree.Repr() == old(tree.Repr())
    ensures strategy.mutability == Immutable ==>
      && fresh(rolled) && fresh(rolled.Repr())
      && unchanged(tree) && unchanged(tree.Repr()) && tree.Valid() && tree.Model() == old(tree.Model())
  {
    match strategy.mutability
    case InPlace =>
      rolled := RollInPlace(strategy.direction, tree);
    case Immutable =>
      ElementsAllocated(tree.shape);
      rolled := RollCopy(strategy.direction, tree);
  }
}
