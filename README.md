# binary-tree-roll, modelled in Dafny

This project models the core of the Java library *binary-tree-roll*. The
library builds linked binary trees and "rolls" them: one recursive pass
rewrites every `left`/`right` link in place, so that the whole tree turns
90 degrees clockwise or counter-clockwise. It also has preorder, inorder and
postorder visitors, a visitor action that collects values, and strategies
that roll either the given tree or a deep copy of it.

The linked structure is a `Node` class with mutable `left`/`right` fields
and a `BinaryTree` handle with a mutable `root`. A ghost *shape*, a
`Tree<Node<T>>` whose labels are the heap nodes, describes which nodes a
tree holds and where. `Linked(s)` says the fields follow the shape, and
`Distinct(s)` says no node occurs twice (no sharing, no cycle). `Values(s)`
is the tree of payloads that traversals, equality and rolls are stated on.

The roll handlers are imperative methods that relink the heap. Each one is
proved against a pure reference roll on tree values (`Rolls`). The traversal
identities are proved about that reference:

- clockwise: preorder after = inorder before, and inorder after = postorder before;
- counter-clockwise: inorder after = preorder before, and postorder after = inorder before.

Level-order construction (`of`) is a `while` loop over a queue of new nodes.
It is proved against a pure replay of the same loop (`LevelOrder.Run`).

Files:

- `Trees.dfy`: tree values, the size, the height and the three traversals.
- `Rolls.dfy`: the reference rolls and their properties.
- `BinaryTree.dfy`: nodes, shapes, and the tree handle with size, height, deep copy and equality.
- `LevelOrder.dfy`: the level-order builder.
- `Visitors.dfy`: the visitors, the node collector and `traverse`.
- `RollHandlers.dfy`: the in-place clockwise and counter-clockwise relinking.
- `RollStrategies.dfy`: the factory and the in-place and copy-then-roll strategies.
- `Samples.dfy`: the sample tree `1,2,3,null,null,4,5,null,6` from the tests and the first example.

## Model

| member | source | states |
|---|---|---|
| `Trees.TraversalLengths` | src/main/java/com/gtanev/libraries/binarytreeroll/tree/PreorderVisitor.java:8-14 | Each traversal has exactly `size` elements. |
| `Trees.TraversalsAreRearrangements` | src/main/java/com/gtanev/libraries/binarytreeroll/tree/InorderVisitor.java:8-14 | The inorder and postorder sequences hold the same values as the preorder one, with the same multiplicities. |
| `Trees.TraversalsHaveElements` | src/main/java/com/gtanev/libraries/binarytreeroll/tree/PostorderVisitor.java:8-14 | The values each of the preorder, inorder and postorder traversals meets are exactly the labels of the tree. |
| `Trees.HeightBounds` | src/main/java/com/gtanev/libraries/binarytreeroll/tree/BinaryTree.java:39-45 | `height <= size < 2^height`, and the height is 0 exactly for the empty tree. |
| `Rolls.ClockwiseTraversals` | src/main/java/com/gtanev/libraries/binarytreeroll/roll/ClockwiseRollHandler.java:8-24 | After a clockwise roll, the preorder is the old inorder and the inorder is the old postorder. |
| `Rolls.ClockwisePreorder` | src/main/java/com/gtanev/libraries/binarytreeroll/roll/ClockwiseRollHandler.java:10-22 | The preorder of the clockwise roll is the inorder of the input. |
| `Rolls.ClockwiseInorder` | src/main/java/com/gtanev/libraries/binarytreeroll/roll/ClockwiseRollHandler.java:10-22 | The inorder of the clockwise roll is the postorder of the input. |
| `Rolls.CounterClockwiseTraversals` | src/main/java/com/gtanev/libraries/binarytreeroll/roll/CounterClockwiseRollHandler.java:8-24 | After a counter-clockwise roll, the inorder is the old preorder and the postorder is the old inorder. |
| `Rolls.CounterClockwiseInorder` | src/main/java/com/gtanev/libraries/binarytreeroll/roll/CounterClockwiseRollHandler.java:10-22 | The inorder of the counter-clockwise roll is the preorder of the input. |
| `Rolls.CounterClockwisePostorder` | src/main/java/com/gtanev/libraries/binarytreeroll/roll/CounterClockwiseRollHandler.java:10-22 | The postorder of the counter-clockwise roll is the inorder of the input. |
| `Rolls.GraftRightPreorder` | src/main/java/com/gtanev/libraries/binarytreeroll/roll/ClockwiseRollHandler.java:10-13 | Hanging a tree below the bottom of another tree's right spine concatenates their preorders. |
| `Rolls.GraftRightInorder` | src/main/java/com/gtanev/libraries/binarytreeroll/roll/ClockwiseRollHandler.java:10-13 | Hanging a tree below the bottom of another tree's right spine concatenates their inorders. |
| `Rolls.GraftLeftInorder` | src/main/java/com/gtanev/libraries/binarytreeroll/roll/CounterClockwiseRollHandler.java:10-13 | Hanging a tree below the bottom of a left spine puts its inorder in front. |
| `Rolls.GraftLeftPostorder` | src/main/java/com/gtanev/libraries/binarytreeroll/roll/CounterClockwiseRollHandler.java:10-13 | Hanging a tree below the bottom of a left spine puts its postorder in front. |
| `Rolls.RollsPreserveSize` | src/test/java/com/gtanev/libraries/binarytreeroll/IntegrationTests.java:104 | Rolling in either direction keeps the number of nodes. |
| `Rolls.ClockwiseElements` | src/main/java/com/gtanev/libraries/binarytreeroll/roll/ClockwiseRollHandler.java:12-16 | A clockwise roll keeps the set of nodes, and a tree without sharing stays without sharing. |
| `Rolls.CounterClockwiseElements` | src/main/java/com/gtanev/libraries/binarytreeroll/roll/CounterClockwiseRollHandler.java:12-16 | A counter-clockwise roll keeps the set of nodes, and a tree without sharing stays without sharing. |
| `Rolls.ClockwiseRoot` | src/main/java/com/gtanev/libraries/binarytreeroll/roll/ClockwiseRollHandler.java:10-18 | The root of a clockwise roll is the bottom node of the left spine. |
| `Rolls.CounterClockwiseRoot` | src/main/java/com/gtanev/libraries/binarytreeroll/roll/CounterClockwiseRollHandler.java:10-18 | The root of a counter-clockwise roll is the bottom node of the right spine. |
| `Rolls.ClockwiseBySpine` | src/main/java/com/gtanev/libraries/binarytreeroll/roll/ClockwiseRollHandler.java:10-22 | Walking down the left spine also gives the clockwise roll: each spine node takes its rolled right subtree as its left child and its former parent as its right child. |
| `Rolls.CounterClockwiseBySpine` | src/main/java/com/gtanev/libraries/binarytreeroll/roll/CounterClockwiseRollHandler.java:10-22 | The mirror-image walk down the right spine gives the counter-clockwise roll. |
| `Rolls.CounterClockwiseUndoesClockwise` | src/main/java/com/gtanev/libraries/binarytreeroll/roll/CounterClockwiseRollHandler.java:8-24 | Rolling clockwise and then counter-clockwise gives back the original tree. |
| `Rolls.ClockwiseUndoesCounterClockwise` | src/main/java/com/gtanev/libraries/binarytreeroll/roll/ClockwiseRollHandler.java:8-24 | Rolling counter-clockwise and then clockwise gives back the original tree. |
| `Rolls.CounterClockwiseIsMirroredClockwise` | src/main/java/com/gtanev/libraries/binarytreeroll/roll/CounterClockwiseRollHandler.java:8-24 | The counter-clockwise roll is the clockwise roll seen in a mirror. |
| `BinaryTrees.Node.constructor` | src/main/java/com/gtanev/libraries/binarytreeroll/tree/BinaryTree.java:143-145 | A new node holds the given value and has no children. |
| `BinaryTrees.Node.SetLeft` | src/main/java/com/gtanev/libraries/binarytreeroll/tree/BinaryTree.java:159-161 | Writes the left link only. |
| `BinaryTrees.Node.SetRight` | src/main/java/com/gtanev/libraries/binarytreeroll/tree/BinaryTree.java:167-169 | Writes the right link only. |
| `BinaryTrees.Node.DeepCopy` | src/main/java/com/gtanev/libraries/binarytreeroll/tree/BinaryTree.java:180-192 | The copy is made of fresh nodes, is a tree without sharing, and holds the same values in the same shape. |
| `BinaryTrees.Node.CopyOf` | src/main/java/com/gtanev/libraries/binarytreeroll/tree/BinaryTree.java:183-189 | An absent child copies to an absent child, and a present one to its deep copy. |
| `BinaryTrees.Node.Join` | src/main/java/com/gtanev/libraries/binarytreeroll/tree/BinaryTree.java:181-189 | A fresh node with the copied subtrees as its children is again a tree without sharing. |
| `BinaryTrees.Node.Equals` | src/main/java/com/gtanev/libraries/binarytreeroll/tree/BinaryTree.java:194-202 | The result is true exactly when the two subtrees hold equal values in the same shape, absent children included. |
| `BinaryTrees.BinaryTree.Empty` | src/main/java/com/gtanev/libraries/binarytreeroll/tree/BinaryTree.java:17 | A new handle without a root stands for the empty tree. |
| `BinaryTrees.BinaryTree.constructor` | src/main/java/com/gtanev/libraries/binarytreeroll/tree/BinaryTree.java:19-21 | A handle over an existing linked tree has that root and shape. |
| `BinaryTrees.BinaryTree.SetRoot` | src/main/java/com/gtanev/libraries/binarytreeroll/tree/BinaryTree.java:27-29 | Installs a new root together with the shape below it. |
| `BinaryTrees.BinaryTree.GetRoot` | src/main/java/com/gtanev/libraries/binarytreeroll/tree/BinaryTree.java:23-25 | Of a valid tree: the root is absent exactly when the tree is empty, and otherwise it is one of the tree's nodes and holds the root value of the model. |
| `BinaryTrees.BinaryTree.Size` | src/main/java/com/gtanev/libraries/binarytreeroll/tree/BinaryTree.java:31-33 | Returns the number of nodes of the tree. |
| `BinaryTrees.BinaryTree.SizeOf` | src/main/java/com/gtanev/libraries/binarytreeroll/tree/BinaryTree.java:35-37 | Returns the number of nodes below a node: 0 for an absent one, otherwise 1 plus the sizes of both children. |
| `BinaryTrees.BinaryTree.Height` | src/main/java/com/gtanev/libraries/binarytreeroll/tree/BinaryTree.java:39-41 | Returns the height of the tree. |
| `BinaryTrees.BinaryTree.HeightOf` | src/main/java/com/gtanev/libraries/binarytreeroll/tree/BinaryTree.java:43-45 | Returns the height below a node: 0 for an absent one, otherwise 1 plus the larger child height. |
| `BinaryTrees.BinaryTree.DeepCopy` | src/main/java/com/gtanev/libraries/binarytreeroll/tree/BinaryTree.java:99-101 | Returns a new handle over fresh nodes with the same values, and leaves this tree untouched. |
| `BinaryTrees.BinaryTree.Equals` | src/main/java/com/gtanev/libraries/binarytreeroll/tree/BinaryTree.java:117-123 | The result is true exactly when both trees hold equal values in the same shape. |
| `BinaryTrees.ValuesSize` | src/main/java/com/gtanev/libraries/binarytreeroll/tree/BinaryTree.java:31-45 | The payload tree has the size and the height of the node structure. |
| `LevelOrder.LevelOrderTree` | src/main/java/com/gtanev/libraries/binarytreeroll/tree/BinaryTree.java:67-70 | The tree is empty exactly for an empty array or a first slot equal to the null identifier; otherwise slot 0 is the root. |
| `LevelOrder.BuiltFromSlots` | src/main/java/com/gtanev/libraries/binarytreeroll/tree/BinaryTree.java:76-93 | The i-th node taken from the queue gets its children from slots 2i+1 and 2i+2. A slot past the end, holding null or equal to the identifier makes no node; any other slot makes a child with that value. |
| `LevelOrder.LeftoverIgnored` | src/main/java/com/gtanev/libraries/binarytreeroll/tree/BinaryTree.java:78-96 | Once the queue is empty the loop stops: cutting off the slots it did not read gives the same tree. |
| `LevelOrder.BuiltIsWhole` | src/main/java/com/gtanev/libraries/binarytreeroll/tree/BinaryTree.java:78-96 | Every node the loop makes is linked below exactly one parent, so the tree holds all of them. |
| `LevelOrder.ToTreeDistinct` | src/main/java/com/gtanev/libraries/binarytreeroll/tree/BinaryTree.java:83-93 | The new nodes form a tree without sharing. |
| `LevelOrder.RunConsistent` | src/main/java/com/gtanev/libraries/binarytreeroll/tree/BinaryTree.java:78-94 | Each round of the loop keeps the node links well formed and ends with an empty queue. |
| `LevelOrder.ReadSlot` | src/main/java/com/gtanev/libraries/binarytreeroll/tree/BinaryTree.java:79-80 | Reads the next slot and advances, or reads null past the end of the array. |
| `LevelOrder.OfferLeft` | src/main/java/com/gtanev/libraries/binarytreeroll/tree/BinaryTree.java:83-87 | A slot that holds a value other than the null identifier becomes a new left child, which is queued. |
| `LevelOrder.OfferRight` | src/main/java/com/gtanev/libraries/binarytreeroll/tree/BinaryTree.java:89-93 | A slot that holds a value other than the null identifier becomes a new right child, which is queued. |
| `LevelOrder.Round` | src/main/java/com/gtanev/libraries/binarytreeroll/tree/BinaryTree.java:78-94 | One pass of the loop body does exactly one step of the pure replay. |
| `LevelOrder.Of` | src/main/java/com/gtanev/libraries/binarytreeroll/tree/BinaryTree.java:67-97 | Returns a new tree of fresh nodes whose value is the level-order tree of the array. |
| `LevelOrder.OfValues` | src/main/java/com/gtanev/libraries/binarytreeroll/tree/BinaryTree.java:54-57 | The varargs form builds with null as the null identifier. |
| `Visitors.NodeCollector.constructor` | src/main/java/com/gtanev/libraries/binarytreeroll/tree/NodeCollectorVisitorAction.java:10-12 | A new collector's list is empty. |
| `Visitors.NodeCollector.GetList` | src/main/java/com/gtanev/libraries/binarytreeroll/tree/NodeCollectorVisitorAction.java:14-16 | Returns the collected values in the order `Accept` received them, without changing them. |
| `Visitors.NodeCollector.Accept` | src/main/java/com/gtanev/libraries/binarytreeroll/tree/NodeCollectorVisitorAction.java:19-21 | Appends the node's value at the end of the list and changes nothing else. |
| `Visitors.VisitPreorder` | src/main/java/com/gtanev/libraries/binarytreeroll/tree/PreorderVisitor.java:8-14 | The action gets the nodes in preorder: the list grows by the preorder of the subtree's values. |
| `Visitors.VisitInorder` | src/main/java/com/gtanev/libraries/binarytreeroll/tree/InorderVisitor.java:8-14 | The action gets the nodes in inorder: the list grows by the inorder of the subtree's values. |
| `Visitors.VisitPostorder` | src/main/java/com/gtanev/libraries/binarytreeroll/tree/PostorderVisitor.java:8-14 | The action gets the nodes in postorder: the list grows by the postorder of the subtree's values. |
| `Visitors.Visit` | src/main/java/com/gtanev/libraries/binarytreeroll/tree/BinaryTree.java:171-173 | Traversing from a node runs the chosen visitor from that node. |
| `Visitors.Traverse` | src/main/java/com/gtanev/libraries/binarytreeroll/tree/BinaryTree.java:103-110 | A rootless tree fails with IllegalStateException and the list is unchanged; otherwise the list grows by the traversal of the tree. |
| `Visitors.VisitsValues` | src/main/java/com/gtanev/libraries/binarytreeroll/tree/NodeCollectorVisitorAction.java:19-21 | The i-th collected value is the value of the i-th node the visitor meets. |
| `Visitors.VisitsEachNodeOnce` | src/main/java/com/gtanev/libraries/binarytreeroll/tree/PreorderVisitor.java:8-14 | On a tree without sharing, a visitor meets `size` nodes, each node of the tree once and no other node. |
| `RollHandlers.RolledShape` | src/main/java/com/gtanev/libraries/binarytreeroll/roll/RollHandler.java:17 | A roll keeps the node set and the absence of sharing. The empty tree rolls to the empty tree, and the new root is the bottom of the left (clockwise) or right (counter-clockwise) spine. |
| `RollHandlers.RolledTraversals` | src/main/java/com/gtanev/libraries/binarytreeroll/roll/RollHandler.java:17 | The traversal identities of either direction, and size preservation. |
| `RollHandlers.ValuesRolled` | src/main/java/com/gtanev/libraries/binarytreeroll/roll/RollHandler.java:17 | Rolling the node structure and then reading the payloads is the same as rolling the payload tree. |
| `RollHandlers.RollHandler.constructor` | src/main/java/com/gtanev/libraries/binarytreeroll/roll/RollHandler.java:7 | A fresh handler's rolled-root slot is absent. |
| `RollHandlers.RollHandler.SetRolledRoot` | src/main/java/com/gtanev/libraries/binarytreeroll/roll/RollHandler.java:13-15 | Writes the slot only. |
| `RollHandlers.RollHandler.GetRolledRoot` | src/main/java/com/gtanev/libraries/binarytreeroll/roll/RollHandler.java:9-11 | Returns the slot that a parentless `Roll` fills with the top of the rolled subtree, without changing it. |
| `RollHandlers.RollHandler.Roll` | src/main/java/com/gtanev/libraries/binarytreeroll/roll/RollHandler.java:17 | Relinks the subtree into its roll in the handler's direction. The rolled subtree hangs below the parent, whose other link is cleared; without a parent its top node goes to the slot. An absent node changes nothing. |
| `RollHandlers.RollHandler.ClockwiseRoll` | src/main/java/com/gtanev/libraries/binarytreeroll/roll/ClockwiseRollHandler.java:8-24 | Afterwards the links follow the clockwise roll of the subtree. With a parent, the rolled subtree is the parent's left child and the parent's right link is cleared. Without one, the slot holds the bottom of the left spine. An absent node is a no-op. |
| `RollHandlers.RollHandler.ClockwiseTop` | src/main/java/com/gtanev/libraries/binarytreeroll/roll/ClockwiseRollHandler.java:10-19 | A node with a left child becomes its old left child's right child, with no left link of its own. Otherwise it is hung as the parent's left child (clearing the parent's right link) or stored in the slot. Its right link is kept for the recursive roll of its right subtree that follows (ClockwiseRollHandler.java:21-23). |
| `RollHandlers.RollHandler.HangBelowRight` | src/main/java/com/gtanev/libraries/binarytreeroll/roll/ClockwiseRollHandler.java:12-13 | Hanging the node below its old left child extends the rolled left part by that node. |
| `RollHandlers.RollHandler.CounterClockwiseRoll` | src/main/java/com/gtanev/libraries/binarytreeroll/roll/CounterClockwiseRollHandler.java:8-24 | The mirror image of the clockwise case: links follow the counter-clockwise roll; the rolled subtree is the parent's right child with the parent's left link cleared, or the slot holds the bottom of the right spine. |
| `RollHandlers.RollHandler.CounterClockwiseTop` | src/main/java/com/gtanev/libraries/binarytreeroll/roll/CounterClockwiseRollHandler.java:10-19 | A node with a right child becomes its old right child's left child, with no right link of its own. Otherwise it is hung as the parent's right child (clearing the parent's left link) or stored in the slot. |
| `RollHandlers.RollHandler.HangBelowLeft` | src/main/java/com/gtanev/libraries/binarytreeroll/roll/CounterClockwiseRollHandler.java:12-13 | Hanging the node below its old right child extends the rolled right part by that node. |
| `RollStrategies.Create` | src/main/java/com/gtanev/libraries/binarytreeroll/roll/RollStrategyFactory.java:5-10 | Any direction gives the in-place strategy for that direction; a null direction gives NullPointerException. |
| `RollStrategies.CreateImmutable` | src/main/java/com/gtanev/libraries/binarytreeroll/roll/RollStrategyFactory.java:12-17 | Any direction gives the copy-then-roll strategy for that direction; a null direction gives NullPointerException. |
| `RollStrategies.FactoriesCoverStrategies` | src/main/java/com/gtanev/libraries/binarytreeroll/roll/RollStrategyFactory.java:5-17 | Each of the four direction-and-mutability strategies is what one factory returns. |
| `RollStrategies.RollInPlace` | src/main/java/com/gtanev/libraries/binarytreeroll/roll/DefaultRollStrategy.java:9-15 | Returns the same tree object, relinked into the roll of its old value, on the same nodes. A rootless tree stays rootless. |
| `RollStrategies.RollCopy` | src/main/java/com/gtanev/libraries/binarytreeroll/roll/ImmutableRollStrategy.java:9-16 | Returns a new tree of fresh nodes holding the roll of the input, and writes nothing that existed before. |
| `RollStrategies.Roll` | src/main/java/com/gtanev/libraries/binarytreeroll/tree/BinaryTree.java:112-115 | Rolling with a strategy gives the rolled value. In place, it returns the same tree over the same nodes. Immutable, it returns a fresh tree and leaves the input's handle and nodes unchanged. |
| `Samples.SampleLevelOrder` | src/test/java/com/gtanev/libraries/binarytreeroll/UnitTests.java:50-62 | `of(1,2,3,null,null,4,5,null,6)` is root 1 with children 2 and 3, 3 with children 4 and 5, and 4 with right child 6. Its size is 6, its height 4, and its three traversals are those of the traversal test. |
| `Samples.SampleTraversals` | src/test/java/com/gtanev/libraries/binarytreeroll/UnitTests.java:135-150 | The sample's preorder is 1 2 3 4 6 5, its inorder 2 1 4 6 3 5 and its postorder 2 6 4 5 3 1. |
| `Samples.SampleRolledClockwise` | src/main/java/com/gtanev/libraries/binarytreeroll/Example1.java:25-32 | Rolled clockwise, the sample has preorder 2 1 4 6 3 5, inorder 2 6 4 5 3 1 and postorder 6 5 3 4 1 2. |
| `Samples.CollectTraversals` | src/test/java/com/gtanev/libraries/binarytreeroll/UnitTests.java:139-149 | Fresh collectors that traverse a tree with a root end up holding its three traversals. |
| `Samples.Example` | src/main/java/com/gtanev/libraries/binarytreeroll/Example1.java:25-32 | Build, collect, roll clockwise in place and collect again: the lists are those in the example's comments. |

## Left out

- The ASCII printer, the example programs' console output, `VisitorAction.andThen` and the JUnit machinery are not part of this model.
- The strategy classes are a direction and mutability pair (`RollStrategies.RollStrategy`). Each roll makes a fresh handler of that direction, as `getRollHandler` does.
- Visitors are a `Visitor` tag, and the only action modelled is the node collector. Other caller-supplied actions are not modelled.
- `of` with a null array is not modelled; an empty sequence stands for it, since both give a rootless tree.
- `of` compares the root slot with `==` but the child slots with `equals`. Both are modelled as value equality, so object identity of payloads is not captured.
- `Node.setValue` and the no-argument `Node` constructor are left out. A node's payload is fixed when the node is made, and no core operation changes it.
- `hashCode` is left out. It depends on Java `int` overflow and on the payloads' own hash codes.
- `BinaryTrees.BinaryTree.Size`: sizes and heights are unbounded naturals; Java's `long` overflow cannot be reached by a tree in memory.
- `BinaryTrees.BinaryTree.Equals`: takes a `BinaryTree` argument, so the `instanceof` test against arbitrary objects is not modelled.
- Payload values are a generic type with equality. `null` payloads in `of` are `None` of an `Option`.
- `RollStrategies.Roll`: also requires every node of the tree to be allocated. This always holds (`BinaryTrees.ElementsAllocated`); it lets the contract say that the input's nodes are unchanged.
- The sample `1,2,3,null,null,4,5,null,6` has four levels (1; 2,3; 4,5; 6), so its height is 4. The unit tests' height-3 tree is `1,2,3,null,null,4,5`.
