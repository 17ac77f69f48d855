/**
  Level-order construction of a binary tree from a flat array of slots.

  Slot 0 holds the root. A queue of the nodes created so far is then drained
  front to back; each node taken from the queue consumes the next two unread
  slots as the candidates for its left and its right child (a slot past the
  end of the array reads as absent). A candidate that is absent or equal to
  the null identifier creates no node; any other one creates a node that is
  linked below the current node and put at the back of the queue.

  Java's `null` (an absent slot, an absent identifier, a `null` payload) is
  `None`. Since the root slot may hold `null` when the identifier is not
  `null`, nodes carry the slot contents of type `Option<T>`.

  The pure description numbers the nodes in creation order, which is also the
  order in which they leave the queue: a `Forest` records, per node number, the
  label and the numbers of the left and right children, and `Run` replays the
  loop on it. The tree is then read off from node 0.
*/
module LevelOrder {
  import opened Wrappers
  import opened Trees
  import opened BinaryTrees

  // ---------------------------------------------------------------------------
  // Slots.

  /** The slot at position `p`, or absent past the end of the array. */
  function Slot<T>(values: seq<Option<T>>, p: nat): Option<T>
  {
    if p < |values| then values[p] else None
  }

  /** The read position after reading a slot: it only advances inside the array. */
  function Next<T>(values: seq<Option<T>>, p: nat): nat
  {
    if p < |values| then p + 1 else p
  }

  /** A slot creates a node when it holds a value that is not the null identifier. */
  predicate Present<T(==)>(v: Option<T>, nullId: Option<T>)
  {
    v.Some? && v != nullId
  }

  /** Whether the array describes a rootless tree: it has no slot, or slot 0 is the null identifier. */
  predicate Rootless<T(==)>(values: seq<Option<T>>, nullId: Option<T>)
  {
    |values| == 0 || values[0] == nullId
  }

  function Min(a: int, b: int): int
  {
    if a < b then a else b
  }

  // ---------------------------------------------------------------------------
  // Forests of numbered nodes.

  /** Node `i` has label `labels[i]`, and children `lefts[i]`, `rights[i]` (by number) where present. */
  datatype Forest<X> = Forest(labels: seq<X>, lefts: map<nat, nat>, rights: map<nat, nat>)

  /**
    Children have larger numbers than their parents, and no node is the child
    of two slots: the links form trees.
  */
  ghost predicate WellFormed<X>(f: Forest<X>)
  {
    && (forall i :: i in f.lefts ==> i < f.lefts[i] < |f.labels|)
    && (forall i :: i in f.rights ==> i < f.rights[i] < |f.labels|)
    && (forall i, j :: i in f.lefts && j in f.lefts && f.lefts[i] == f.lefts[j] ==> i == j)
    && (forall i, j :: i in f.rights && j in f.rights && f.rights[i] == f.rights[j] ==> i == j)
    && (forall i, j :: i in f.lefts && j in f.rights ==> f.lefts[i] != f.rights[j])
  }

  /** The tree hanging from node `i`. */
  function ToTree<X>(f: Forest<X>, i: nat): Tree<X>
    requires WellFormed(f) && i < |f.labels|
    decreases |f.labels| - i
  {
    var l := if i in f.lefts then ToTree(f, f.lefts[i]) else Nil;
    var r := if i in f.rights then ToTree(f, f.rights[i]) else Nil;
    Tree.Node(l, f.labels[i], r)
  }

  /** A new node labelled `v`, made the left child of node `parent`. */
  function AddLeft<X>(f: Forest<X>, parent: nat, v: X): Forest<X>
  {
    Forest(f.labels + [v], f.lefts[parent := |f.labels|], f.rights)
  }

  /** A new node labelled `v`, made the right child of node `parent`. */
  function AddRight<X>(f: Forest<X>, parent: nat, v: X): Forest<X>
  {
    Forest(f.labels + [v], f.lefts, f.rights[parent := |f.labels|])
  }

  lemma AddLeftWellFormed<X>(f: Forest<X>, parent: nat, v: X)
    requires WellFormed(f) && parent < |f.labels|
    ensures WellFormed(AddLeft(f, parent, v))
  {
  }

  lemma AddRightWellFormed<X>(f: Forest<X>, parent: nat, v: X)
    requires WellFormed(f) && parent < |f.labels|
    ensures WellFormed(AddRight(f, parent, v))
  {
  }

  // ---------------------------------------------------------------------------
  // The loop, replayed on a forest.

  /**
    The loop state: the nodes made so far, the number `head` of nodes already
    taken from the queue (the queue holds nodes `head` and up) and the read
    position `ptr`.
  */
  datatype Build<T> = Build(forest: Forest<Option<T>>, head: nat, ptr: nat)

  /** What holds between rounds: the forest is well formed and the queued nodes have no children yet. */
  ghost predicate Consistent<T>(values: seq<Option<T>>, b: Build<T>)
  {
    && WellFormed(b.forest)
    && b.head <= |b.forest.labels|
    && b.ptr <= |values|
    && (forall i :: b.head <= i ==> i !in b.forest.lefts && i !in b.forest.rights)
  }

  /** Twice the unread slots plus the queue length: every round lowers it. */
  function Measure<T>(values: seq<Option<T>>, b: Build<T>): nat
  {
    2 * (if b.ptr < |values| then |values| - b.ptr else 0)
    + (if b.head < |b.forest.labels| then |b.forest.labels| - b.head else 0)
  }

  /** The state after the root is made: one node in the queue, slot 1 next. */
  function Init<T>(values: seq<Option<T>>): (b: Build<T>)
    requires |values| > 0
    ensures Consistent(values, b)
  {
    Build(Forest([values[0]], map[], map[]), 0, 1)
  }

  /** One round of the loop: read two slots, take a node from the queue, give it its children. */
  function Step<T(==)>(values: seq<Option<T>>, nullId: Option<T>, b: Build<T>): Build<T>
  {
    var lv := Slot(values, b.ptr);
    var p1 := Next(values, b.ptr);
    var rv := Slot(values, p1);
    var p2 := Next(values, p1);
    var f1 := if Present(lv, nullId) then AddLeft(b.forest, b.head, lv) else b.forest;
    var f2 := if Present(rv, nullId) then AddRight(f1, b.head, rv) else f1;
    Build(f2, b.head + 1, p2)
  }

  lemma StepDecreases<T>(values: seq<Option<T>>, nullId: Option<T>, b: Build<T>)
    requires b.head < |b.forest.labels|
    ensures Measure(values, Step(values, nullId, b)) < Measure(values, b)
  {
  }

  lemma StepConsistent<T>(values: seq<Option<T>>, nullId: Option<T>, b: Build<T>)
    requires Consistent(values, b) && b.head < |b.forest.labels|
    ensures Consistent(values, Step(values, nullId, b))
    ensures b.forest.labels <= Step(values, nullId, b).forest.labels
  {
    var lv := Slot(values, b.ptr);
    var rv := Slot(values, Next(values, b.ptr));
    var f1 := if Present(lv, nullId) then AddLeft(b.forest, b.head, lv) else b.forest;
    if Present(lv, nullId) {
      AddLeftWellFormed(b.forest, b.head, lv);
    }
    if Present(rv, nullId) {
      AddRightWellFormed(f1, b.head, rv);
    }
  }

  /** The remaining rounds, until the queue is empty. */
  function Run<T(==)>(values: seq<Option<T>>, nullId: Option<T>, b: Build<T>): Build<T>
    decreases Measure(values, b)
  {
    if b.head >= |b.forest.labels| then b
    else
      StepDecreases(values, nullId, b);
      Run(values, nullId, Step(values, nullId, b))
  }

  lemma {:induction false} RunConsistent<T>(values: seq<Option<T>>, nullId: Option<T>, b: Build<T>)
    requires Consistent(values, b)
    ensures Consistent(values, Run(values, nullId, b))
    ensures Run(values, nullId, b).head == |Run(values, nullId, b).forest.labels|
    ensures b.forest.labels <= Run(values, nullId, b).forest.labels
    decreases Measure(values, b)
  {
    if b.head < |b.forest.labels| {
      StepDecreases(values, nullId, b);
      StepConsistent(values, nullId, b);
      RunConsistent(values, nullId, Step(values, nullId, b));
    }
  }

  /** The forest of all nodes made from a rooted array. */
  function Built<T(==)>(values: seq<Option<T>>, nullId: Option<T>): (f: Forest<Option<T>>)
    requires !Rootless(values, nullId)
    ensures WellFormed(f) && |f.labels| >= 1 && f.labels[0] == values[0]
  {
    RunConsistent(values, nullId, Init(values));
    Run(values, nullId, Init(values)).forest
  }

  /** The tree `of` builds from an array of slots and a null identifier. */
  function LevelOrderTree<T(==)>(values: seq<Option<T>>, nullId: Option<T>): (t: Tree<Option<T>>)
    ensures t == Nil <==> Rootless(values, nullId)
    ensures t.Node? ==> t.value == values[0]
  {
    if Rootless(values, nullId) then Nil else ToTree(Built(values, nullId), 0)
  }

  // ---------------------------------------------------------------------------
  // Which slot each node's children come from.

  /**
    Node `i` takes its children from slots `2i+1` and `2i+2`: it has a left
    (right) child exactly when that slot holds a value other than the null
    identifier, and the child carries that value.
  */
  ghost predicate ChildrenFromSlots<T>(values: seq<Option<T>>, nullId: Option<T>, f: Forest<Option<T>>, i: nat)
  {
    && (i in f.lefts <==> Present(Slot(values, 2 * i + 1), nullId))
    && (i in f.rights <==> Present(Slot(values, 2 * i + 2), nullId))
    && (i in f.lefts && f.lefts[i] < |f.labels| ==> f.labels[f.lefts[i]] == Slot(values, 2 * i + 1))
    && (i in f.rights && f.rights[i] < |f.labels| ==> f.labels[f.rights[i]] == Slot(values, 2 * i + 2))
  }

  /** The loop state reached from `Init`: each round reads exactly the two slots after those already read. */
  ghost predicate Reading<T>(values: seq<Option<T>>, nullId: Option<T>, b: Build<T>)
  {
    && b.ptr == Min(2 * b.head + 1, |values|)
    && (forall i :: 0 <= i < b.head ==> ChildrenFromSlots(values, nullId, b.forest, i))
  }

  /** A node whose links are untouched keeps its children when the forest grows. */
  lemma ChildrenKept<T>(values: seq<Option<T>>, nullId: Option<T>, f: Forest<Option<T>>, g: Forest<Option<T>>, i: nat)
    requires WellFormed(f) && f.labels <= g.labels
    requires i in f.lefts <==> i in g.lefts
    requires i in f.lefts ==> g.lefts[i] == f.lefts[i]
    requires i in f.rights <==> i in g.rights
    requires i in f.rights ==> g.rights[i] == f.rights[i]
    requires ChildrenFromSlots(values, nullId, f, i)
    ensures ChildrenFromSlots(values, nullId, g, i)
  {
  }

  /** A round gives the node it takes from the queue the children its two slots describe, and changes no other link. */
  lemma StepLinks<T>(values: seq<Option<T>>, nullId: Option<T>, b: Build<T>)
    requires WellFormed(b.forest) && b.head < |b.forest.labels|
    requires b.head !in b.forest.lefts && b.head !in b.forest.rights
    ensures b.forest.labels <= Step(values, nullId, b).forest.labels
    ensures var g := Step(values, nullId, b).forest;
      && (b.head in g.lefts <==> Present(Slot(values, b.ptr), nullId))
      && (b.head in g.rights <==> Present(Slot(values, Next(values, b.ptr)), nullId))
      && (b.head in g.lefts ==> g.lefts[b.head] < |g.labels| && g.labels[g.lefts[b.head]] == Slot(values, b.ptr))
      && (b.head in g.rights ==> g.rights[b.head] < |g.labels| && g.labels[g.rights[b.head]] == Slot(values, Next(values, b.ptr)))
    ensures var g := Step(values, nullId, b).forest;
      forall i :: i != b.head ==> (i in g.lefts <==> i in b.forest.lefts) && (i in g.rights <==> i in b.forest.rights)
    ensures var g := Step(values, nullId, b).forest;
      forall i :: i != b.head && i in b.forest.lefts ==> g.lefts[i] == b.forest.lefts[i]
    ensures var g := Step(values, nullId, b).forest;
      forall i :: i != b.head && i in b.forest.rights ==> g.rights[i] == b.forest.rights[i]
  {
  }

  lemma StepReading<T>(values: seq<Option<T>>, nullId: Option<T>, b: Build<T>)
    requires Consistent(values, b) && Reading(values, nullId, b) && b.head < |b.forest.labels|
    ensures Reading(values, nullId, Step(values, nullId, b))
  {
    StepLinks(values, nullId, b);
    var g := Step(values, nullId, b).forest;
    assert Slot(values, b.ptr) == Slot(values, 2 * b.head + 1);
    assert Next(values, b.ptr) == Min(2 * b.head + 2, |values|);
    assert Slot(values, Next(values, b.ptr)) == Slot(values, 2 * b.head + 2);
    forall i | 0 <= i < b.head
      ensures ChildrenFromSlots(values, nullId, g, i)
    {
      ChildrenKept(values, nullId, b.forest, g, i);
    }
  }

  lemma {:induction false} RunReading<T>(values: seq<Option<T>>, nullId: Option<T>, b: Build<T>)
    requires Consistent(values, b) && Reading(values, nullId, b)
    ensures Reading(values, nullId, Run(values, nullId, b))
    decreases Measure(values, b)
  {
    if b.head < |b.forest.labels| {
      StepDecreases(values, nullId, b);
      StepConsistent(values, nullId, b);
      StepReading(values, nullId, b);
      RunReading(values, nullId, Step(values, nullId, b));
    }
  }

  /**
    The level-order reading of the array: in the forest `of` builds, every
    node `i` has its children from slots `2i+1` and `2i+2`, the root holds
    slot 0, and exactly the slots belonging to made nodes are read.
  */
  lemma BuiltFromSlots<T>(values: seq<Option<T>>, nullId: Option<T>)
    requires !Rootless(values, nullId)
    ensures Built(values, nullId).labels[0] == values[0]
    ensures forall i :: 0 <= i < |Built(values, nullId).labels| ==> ChildrenFromSlots(values, nullId, Built(values, nullId), i)
    ensures Run(values, nullId, Init(values)).ptr == Min(2 * |Built(values, nullId).labels| + 1, |values|)
  {
    RunReading(values, nullId, Init(values));
    RunConsistent(values, nullId, Init(values));
  }

  // ---------------------------------------------------------------------------
  // Subtrees of a forest are separate.

  /** The numbers of the nodes of the tree hanging from node `i`. */
  ghost function Ids<X>(f: Forest<X>, i: nat): (ids: set<nat>)
    requires WellFormed(f) && i < |f.labels|
    ensures i in ids && forall k <- ids :: i <= k < |f.labels|
    decreases |f.labels| - i
  {
    {i}
    + (if i in f.lefts then Ids(f, f.lefts[i]) else {})
    + (if i in f.rights then Ids(f, f.rights[i]) else {})
  }

  ghost predicate IsParent<X>(f: Forest<X>, p: nat, k: nat)
  {
    (p in f.lefts && f.lefts[p] == k) || (p in f.rights && f.rights[p] == k)
  }

  /** Every node below `i` other than `i` itself has its parent below `i`. */
  lemma {:induction false} IdsHaveParents<X>(f: Forest<X>, i: nat, k: nat)
    requires WellFormed(f) && i < |f.labels| && k in Ids(f, i) && k != i
    ensures exists p :: p in Ids(f, i) && IsParent(f, p, k)
    decreases |f.labels| - i
  {
    if i in f.lefts && k in Ids(f, f.lefts[i]) {
      if k == f.lefts[i] {
        assert IsParent(f, i, k);
      } else {
        IdsHaveParents(f, f.lefts[i], k);
        var p :| p in Ids(f, f.lefts[i]) && IsParent(f, p, k);
        assert p in Ids(f, i);
      }
    } else {
      if k == f.rights[i] {
        assert IsParent(f, i, k);
      } else {
        IdsHaveParents(f, f.rights[i], k);
        var p :| p in Ids(f, f.rights[i]) && IsParent(f, p, k);
        assert p in Ids(f, i);
      }
    }
  }

  /** A child of node `i` lies below no other node numbered after `i`. */
  lemma ChildNotBelow<X>(f: Forest<X>, i: nat, a: nat, c: nat)
    requires WellFormed(f) && IsParent(f, i, a) && i < c < |f.labels|
    ensures a == c || a !in Ids(f, c)
  {
    if a != c && a in Ids(f, c) {
      IdsHaveParents(f, c, a);
    }
  }

  /** No node lies below both children of node `i`. */
  lemma {:induction false} IdsApart<X>(f: Forest<X>, i: nat, k: nat)
    requires WellFormed(f) && i < |f.labels| && i in f.lefts && i in f.rights
    ensures !(k in Ids(f, f.lefts[i]) && k in Ids(f, f.rights[i]))
    decreases k
  {
    var a, c := f.lefts[i], f.rights[i];
    var A, C := Ids(f, a), Ids(f, c);
    if k in A && k in C {
      ChildNotBelow(f, i, a, c);
      ChildNotBelow(f, i, c, a);
      if k != a && k != c {
        IdsHaveParents(f, a, k);
        var p :| p in A && IsParent(f, p, k);
        IdsHaveParents(f, c, k);
        var q :| q in C && IsParent(f, q, k);
        assert p == q;
        IdsApart(f, i, p);
      }
    }
  }

  ghost predicate Injective<X>(s: seq<X>)
  {
    forall i, j :: 0 <= i < j < |s| ==> s[i] != s[j]
  }

  /** The labels of the tree below `i` are those of the nodes below `i`. */
  lemma {:induction false} ElementsAreLabels<X>(f: Forest<X>, i: nat)
    requires WellFormed(f) && i < |f.labels|
    ensures forall x <- Elements(ToTree(f, i)) :: exists k :: k in Ids(f, i) && f.labels[k] == x
    decreases |f.labels| - i
  {
    if i in f.lefts {
      ElementsAreLabels(f, f.lefts[i]);
    }
    if i in f.rights {
      ElementsAreLabels(f, f.rights[i]);
    }
    assert i in Ids(f, i);
  }

  lemma ElementsInLabels<X>(f: Forest<X>, i: nat)
    requires WellFormed(f) && i < |f.labels|
    ensures forall x <- Elements(ToTree(f, i)) :: x in f.labels
  {
    ElementsAreLabels(f, i);
  }

  /** With pairwise different labels, the tree below a node has no label twice. */
  lemma {:induction false} ToTreeDistinct<X>(f: Forest<X>, i: nat)
    requires WellFormed(f) && i < |f.labels| && Injective(f.labels)
    ensures Distinct(ToTree(f, i))
    decreases |f.labels| - i
  {
    var l := if i in f.lefts then ToTree(f, f.lefts[i]) else Nil;
    var r := if i in f.rights then ToTree(f, f.rights[i]) else Nil;
    forall x <- Elements(l)
      ensures x != f.labels[i] && x !in Elements(r)
    {
      ElementsAreLabels(f, f.lefts[i]);
      var k :| k in Ids(f, f.lefts[i]) && f.labels[k] == x;
      if x in Elements(r) {
        ElementsAreLabels(f, f.rights[i]);
        var k' :| k' in Ids(f, f.rights[i]) && f.labels[k'] == x;
        assert k == k';
        IdsApart(f, i, k);
      }
    }
    forall x <- Elements(r)
      ensures x != f.labels[i]
    {
      ElementsAreLabels(f, f.rights[i]);
    }
    if i in f.lefts {
      ToTreeDistinct(f, f.lefts[i]);
    }
    if i in f.rights {
      ToTreeDistinct(f, f.rights[i]);
    }
  }

  // ---------------------------------------------------------------------------
  // Input after the last slot read is ignored.

  /** The read position never moves back. */
  lemma {:induction false} RunPtrGrows<T>(values: seq<Option<T>>, nullId: Option<T>, b: Build<T>)
    ensures b.ptr <= Run(values, nullId, b).ptr
    decreases Measure(values, b)
  {
    if b.head < |b.forest.labels| {
      StepDecreases(values, nullId, b);
      RunPtrGrows(values, nullId, Step(values, nullId, b));
    }
  }

  /** Slots a run does not reach may be cut off the array without changing the run. */
  lemma {:induction false} RunTruncated<T>(values: seq<Option<T>>, nullId: Option<T>, b: Build<T>, k: nat)
    requires k <= |values| && Run(values, nullId, b).ptr <= k
    ensures Run(values[..k], nullId, b) == Run(values, nullId, b)
    decreases Measure(values, b)
  {
    if b.head < |b.forest.labels| {
      var w := values[..k];
      StepDecreases(values, nullId, b);
      var b' := Step(values, nullId, b);
      RunPtrGrows(values, nullId, b');
      var p1 := Next(values, b.ptr);
      assert b'.ptr == Next(values, p1) <= k;
      assert Slot(w, b.ptr) == Slot(values, b.ptr) && Next(w, b.ptr) == p1;
      assert Slot(w, p1) == Slot(values, p1) && Next(w, p1) == b'.ptr;
      assert Step(w, nullId, b) == b';
      RunTruncated(values, nullId, b', k);
    }
  }

  /**
    The loop stops once the queue is empty, whatever input is left: cutting the
    array anywhere after the last slot it reads gives the same tree.
  */
  lemma LeftoverIgnored<T>(values: seq<Option<T>>, nullId: Option<T>, k: nat)
    requires !Rootless(values, nullId)
    requires Run(values, nullId, Init(values)).ptr <= k <= |values|
    ensures LevelOrderTree(values[..k], nullId) == LevelOrderTree(values, nullId)
  {
    RunPtrGrows(values, nullId, Init(values));
    assert values[..k][0] == values[0];
    assert Init(values[..k]) == Init(values);
    RunTruncated(values, nullId, Init(values), k);
  }

  // ---------------------------------------------------------------------------
  // Every node made is in the tree.

  /** Every node but the root is the child of some node. */
  ghost predicate Reached<X>(f: Forest<X>)
  {
    forall k :: 0 < k < |f.labels| ==> HasParent(f, k)
  }

  ghost predicate HasParent<X>(f: Forest<X>, k: nat)
  {
    exists p :: IsParent(f, p, k)
  }

  lemma StepReached<T>(values: seq<Option<T>>, nullId: Option<T>, b: Build<T>)
    requires Consistent(values, b) && b.head < |b.forest.labels| && Reached(b.forest)
    ensures Reached(Step(values, nullId, b).forest)
  {
    var g := Step(values, nullId, b).forest;
    forall k | 0 < k < |g.labels|
      ensures HasParent(g, k)
    {
      if k < |b.forest.labels| {
        assert HasParent(b.forest, k);
        var p :| IsParent(b.forest, p, k);
        assert p != b.head;
        assert IsParent(g, p, k);
      } else {
        assert IsParent(g, b.head, k);
      }
    }
  }

  lemma {:induction false} RunReached<T>(values: seq<Option<T>>, nullId: Option<T>, b: Build<T>)
    requires Consistent(values, b) && Reached(b.forest)
    ensures Reached(Run(values, nullId, b).forest)
    decreases Measure(values, b)
  {
    if b.head < |b.forest.labels| {
      StepDecreases(values, nullId, b);
      StepConsistent(values, nullId, b);
      StepReached(values, nullId, b);
      RunReached(values, nullId, Step(values, nullId, b));
    }
  }

  /** The nodes below a node below `i` are below `i`. */
  lemma {:induction false} IdsClosed<X>(f: Forest<X>, i: nat, j: nat)
    requires WellFormed(f) && i < |f.labels| && j in Ids(f, i)
    ensures Ids(f, j) <= Ids(f, i)
    decreases |f.labels| - i
  {
    if j != i {
      if i in f.lefts && j in Ids(f, f.lefts[i]) {
        IdsClosed(f, f.lefts[i], j);
      } else {
        IdsClosed(f, f.rights[i], j);
      }
    }
  }

  /** In a forest where every node but the root has a parent, every node is below the root. */
  lemma {:induction false} BelowRoot<X>(f: Forest<X>, k: nat)
    requires WellFormed(f) && Reached(f) && k < |f.labels|
    ensures k in Ids(f, 0)
    decreases k
  {
    if k > 0 {
      assert HasParent(f, k);
      var p :| IsParent(f, p, k);
      BelowRoot(f, p);
      IdsClosed(f, 0, p);
    }
  }

  /** The tree below `i` has one node per number below `i`. */
  lemma {:induction false} SizeIsIds<X>(f: Forest<X>, i: nat)
    requires WellFormed(f) && i < |f.labels|
    ensures Size(ToTree(f, i)) == |Ids(f, i)|
    decreases |f.labels| - i, 1
  {
    var L := if i in f.lefts then Ids(f, f.lefts[i]) else {};
    var R := if i in f.rights then Ids(f, f.rights[i]) else {};
    assert Size(ToTree(f, i)) == 1 + |L| + |R| by {
      ChildrenSizeIsIds(f, i);
    }
    assert |Ids(f, i)| == 1 + |L| + |R| by {
      IdsUnfold(f, i, L, R);
      DisjointChildIds(f, i, L, R);
    }
  }

  lemma {:induction false} ChildrenSizeIsIds<X>(f: Forest<X>, i: nat)
    requires WellFormed(f) && i < |f.labels|
    ensures Size(ToTree(f, i).left) == |if i in f.lefts then Ids(f, f.lefts[i]) else {}|
    ensures Size(ToTree(f, i).right) == |if i in f.rights then Ids(f, f.rights[i]) else {}|
    decreases |f.labels| - i, 0
  {
    if i in f.lefts {
      SizeIsIds(f, f.lefts[i]);
    }
    if i in f.rights {
      SizeIsIds(f, f.rights[i]);
    }
  }

  lemma IdsUnfold<X>(f: Forest<X>, i: nat, L: set<nat>, R: set<nat>)
    requires WellFormed(f) && i < |f.labels|
    requires L == if i in f.lefts then Ids(f, f.lefts[i]) else {}
    requires R == if i in f.rights then Ids(f, f.rights[i]) else {}
    ensures Ids(f, i) == {i} + L + R
  {
  }

  /** The numbers below the two children of `i` are apart, and apart from `i`. */
  lemma DisjointChildIds<X>(f: Forest<X>, i: nat, L: set<nat>, R: set<nat>)
    requires WellFormed(f) && i < |f.labels|
    requires L == if i in f.lefts then Ids(f, f.lefts[i]) else {}
    requires R == if i in f.rights then Ids(f, f.rights[i]) else {}
    ensures L !! R && i !in L + R
    ensures |{i} + L + R| == 1 + |L| + |R|
  {
    if i in f.lefts && i in f.rights {
      forall k | k in L
        ensures k !in R
      {
        IdsApart(f, i, k);
      }
    }
  }

  /** A set of numbers holding exactly those below `n` has `n` elements. */
  lemma {:induction false} CountBelow(S: set<nat>, n: nat)
    requires forall k: nat :: k in S <==> k < n
    ensures |S| == n
  {
    if n > 0 {
      CountBelow(S - {n - 1}, n - 1);
    }
  }

  /**
    No node `of` makes is left dangling: each one is linked below exactly one
    other (below at most one by well-formedness, below at least one here), so
    the tree holds every node made.
  */
  lemma BuiltIsWhole<T>(values: seq<Option<T>>, nullId: Option<T>)
    requires !Rootless(values, nullId)
    ensures Size(LevelOrderTree(values, nullId)) == |Built(values, nullId).labels|
  {
    var f := Built(values, nullId);
    RunConsistent(values, nullId, Init(values));
    RunReached(values, nullId, Init(values));
    forall k: nat | k < |f.labels|
      ensures k in Ids(f, 0)
    {
      BelowRoot(f, k);
    }
    assert forall k: nat :: k in Ids(f, 0) <==> k < |f.labels|;
    CountBelow(Ids(f, 0), |f.labels|);
    SizeIsIds(f, 0);
  }

  // ---------------------------------------------------------------------------
  // Forests of heap nodes.

  /** The node that map `m` names as the child of node `k`, or absent. */
  function Link<T>(nodes: seq<Node<T>>, m: map<nat, nat>, k: nat): Node?<T>
  {
    if k in m && m[k] < |nodes| then nodes[m[k]] else null
  }

  /** The `left` and `right` fields of the heap nodes are the links the forest records. */
  ghost predicate Mirrors<T>(nf: Forest<Node<T>>)
    reads nf.labels
  {
    forall k :: 0 <= k < |nf.labels| ==>
      nf.labels[k].left == Link(nf.labels, nf.lefts, k) && nf.labels[k].right == Link(nf.labels, nf.rights, k)
  }

  /** A forest of heap nodes that carries the links of `f` and whose nodes hold the labels of `f`. */
  ghost predicate Holds<T>(nf: Forest<Node<T>>, f: Forest<T>)
  {
    && |nf.labels| == |f.labels| && nf.lefts == f.lefts && nf.rights == f.rights
    && forall k :: 0 <= k < |f.labels| ==> nf.labels[k].value == f.labels[k]
  }

  /** When the fields follow the forest, the tree below a node is a linked shape rooted at that node. */
  lemma {:induction false} MirrorsLinked<T>(nf: Forest<Node<T>>, i: nat)
    requires WellFormed(nf) && Mirrors(nf) && i < |nf.labels|
    ensures Root(ToTree(nf, i)) == nf.labels[i] && Linked(ToTree(nf, i))
    decreases |nf.labels| - i
  {
    if i in nf.lefts {
      MirrorsLinked(nf, nf.lefts[i]);
    }
    if i in nf.rights {
      MirrorsLinked(nf, nf.rights[i]);
    }
  }

  lemma {:induction false} ValuesToTree<T>(nf: Forest<Node<T>>, f: Forest<T>, i: nat)
    requires WellFormed(f) && Holds(nf, f) && i < |f.labels|
    ensures WellFormed(nf) && Values(ToTree(nf, i)) == ToTree(f, i)
    decreases |f.labels| - i
  {
    if i in f.lefts {
      ValuesToTree(nf, f, f.lefts[i]);
    }
    if i in f.rights {
      ValuesToTree(nf, f, f.rights[i]);
    }
  }

  /** The links of a forest join existing nodes: part of being well formed. */
  ghost predicate InRange<X>(f: Forest<X>)
  {
    && (forall i :: i in f.lefts ==> i < |f.labels| && f.lefts[i] < |f.labels|)
    && (forall i :: i in f.rights ==> i < |f.labels| && f.rights[i] < |f.labels|)
  }

  /** Makes a node holding `v` and hangs it below `node`, node number `head`, as its left child. */
  method AttachLeft<T(==)>(ghost nf: Forest<Node<T>>, node: Node<T>, ghost head: nat, v: T)
    returns (child: Node<T>, ghost nf': Forest<Node<T>>)
    requires InRange(nf) && Mirrors(nf) && Injective(nf.labels)
    requires head < |nf.labels| && nf.labels[head] == node && head !in nf.lefts
    modifies node
    ensures fresh(child) && child.value == v && nf' == AddLeft(nf, head, child)
    ensures Mirrors(nf')
  {
    child := new Node(v);
    node.SetLeft(child);
    nf' := AddLeft(nf, head, child);
    forall k | 0 <= k < |nf.labels|
      ensures nf'.labels[k].left == Link(nf'.labels, nf'.lefts, k)
      ensures nf'.labels[k].right == Link(nf'.labels, nf'.rights, k)
    {
      if k != head {
        assert nf.labels[k] != node;
        assert Link(nf'.labels, nf'.lefts, k) == Link(nf.labels, nf.lefts, k);
      }
      assert Link(nf'.labels, nf'.rights, k) == Link(nf.labels, nf.rights, k);
    }
    assert nf'.labels[|nf.labels|] == child;
  }

  /** Makes a node holding `v` and hangs it below `node`, node number `head`, as its right child. */
  method AttachRight<T(==)>(ghost nf: Forest<Node<T>>, node: Node<T>, ghost head: nat, v: T)
    returns (child: Node<T>, ghost nf': Forest<Node<T>>)
    requires InRange(nf) && Mirrors(nf) && Injective(nf.labels)
    requires head < |nf.labels| && nf.labels[head] == node && head !in nf.rights
    modifies node
    ensures fresh(child) && child.value == v && nf' == AddRight(nf, head, child)
    ensures Mirrors(nf')
  {
    child := new Node(v);
    node.SetRight(child);
    nf' := AddRight(nf, head, child);
    forall k | 0 <= k < |nf.labels|
      ensures nf'.labels[k].left == Link(nf'.labels, nf'.lefts, k)
      ensures nf'.labels[k].right == Link(nf'.labels, nf'.rights, k)
    {
      if k != head {
        assert nf.labels[k] != node;
        assert Link(nf'.labels, nf'.rights, k) == Link(nf.labels, nf.rights, k);
      }
      assert Link(nf'.labels, nf'.lefts, k) == Link(nf.labels, nf.lefts, k);
    }
    assert nf'.labels[|nf.labels|] == child;
  }

  lemma InjectiveSnoc<X>(s: seq<X>, x: X)
    requires Injective(s) && x !in s
    ensures Injective(s + [x])
  {
  }

  // ---------------------------------------------------------------------------
  // The builder.

  /** Reads the slot at `valPtr`, advancing past it when inside the array; past the end it reads as absent. */
  method ReadSlot<T>(values: seq<Option<T>>, valPtr: nat) returns (v: Option<T>, valPtr': nat)
    ensures v == Slot(values, valPtr) && valPtr' == Next(values, valPtr)
  {
    v, valPtr' := None, valPtr;
    if valPtr < |values| {
      v := values[valPtr];
      valPtr' := valPtr + 1;
    }
  }

  lemma HoldsAddLeft<T>(nf: Forest<Node<T>>, f: Forest<T>, head: nat, child: Node<T>, v: T)
    requires Holds(nf, f) && child.value == v
    ensures Holds(AddLeft(nf, head, child), AddLeft(f, head, v))
  {
  }

  lemma HoldsAddRight<T>(nf: Forest<Node<T>>, f: Forest<T>, head: nat, child: Node<T>, v: T)
    requires Holds(nf, f) && child.value == v
    ensures Holds(AddRight(nf, head, child), AddRight(f, head, v))
  {
  }

  /** Taking the head of the queue and queueing a node keeps the queue the tail of the node sequence. */
  lemma QueueSnoc<X>(nodes: seq<X>, h: nat, x: X)
    requires h <= |nodes|
    ensures nodes[h..] + [x] == (nodes + [x])[h..]
  {
  }

  /**
    The left half of a round: a slot holding a value other than the null
    identifier becomes a new left child of `node`, which is queued.
  */
  method OfferLeft<T(==)>(ghost nf: Forest<Node<Option<T>>>, ghost f: Forest<Option<T>>, node: Node<Option<T>>, ghost head: nat,
                          queue: seq<Node<Option<T>>>, v: Option<T>, nullId: Option<T>)
    returns (queue': seq<Node<Option<T>>>, ghost nf': Forest<Node<Option<T>>>, ghost f': Forest<Option<T>>)
    requires InRange(nf) && Mirrors(nf) && Injective(nf.labels) && Holds(nf, f)
    requires head < |nf.labels| && nf.labels[head] == node && head !in nf.lefts && queue == nf.labels[head + 1..]
    modifies node
    ensures f' == (if Present(v, nullId) then AddLeft(f, head, v) else f)
    ensures InRange(nf') && Mirrors(nf') && Injective(nf'.labels) && Holds(nf', f') && nf'.rights == nf.rights
    ensures queue' == nf'.labels[head + 1..] && nf.labels <= nf'.labels
    ensures forall k :: |nf.labels| <= k < |nf'.labels| ==> fresh(nf'.labels[k])
  {
    queue', nf', f' := queue, nf, f;
    if v.Some? && v != nullId {
      var child;
      child, nf' := AttachLeft(nf, node, head, v);
      QueueSnoc(nf.labels, head + 1, child);
      queue' := queue + [child];
      InjectiveSnoc(nf.labels, child);
      HoldsAddLeft(nf, f, head, child, v);
      f' := AddLeft(f, head, v);
    }
  }

  /**
    The right half of a round: a slot holding a value other than the null
    identifier becomes a new right child of `node`, which is queued.
  */
  method OfferRight<T(==)>(ghost nf: Forest<Node<Option<T>>>, ghost f: Forest<Option<T>>, node: Node<Option<T>>, ghost head: nat,
                           queue: seq<Node<Option<T>>>, v: Option<T>, nullId: Option<T>)
    returns (queue': seq<Node<Option<T>>>, ghost nf': Forest<Node<Option<T>>>, ghost f': Forest<Option<T>>)
    requires InRange(nf) && Mirrors(nf) && Injective(nf.labels) && Holds(nf, f)
    requires head < |nf.labels| && nf.labels[head] == node && head !in nf.rights && queue == nf.labels[head + 1..]
    modifies node
    ensures f' == (if Present(v, nullId) then AddRight(f, head, v) else f)
    ensures Mirrors(nf') && Injective(nf'.labels) && Holds(nf', f')
    ensures queue' == nf'.labels[head + 1..] && nf.labels <= nf'.labels
    ensures forall k :: |nf.labels| <= k < |nf'.labels| ==> fresh(nf'.labels[k])
  {
    queue', nf', f' := queue, nf, f;
    if v.Some? && v != nullId {
      var child;
      child, nf' := AttachRight(nf, node, head, v);
      QueueSnoc(nf.labels, head + 1, child);
      queue' := queue + [child];
      InjectiveSnoc(nf.labels, child);
      HoldsAddRight(nf, f, head, child, v);
      f' := AddRight(f, head, v);
    }
  }

  /**
    One pass of the loop body: read the next two slots, take the node at the
    head of the queue, and offer its left and its right child.
  */
  method Round<T(==)>(values: seq<Option<T>>, nullId: Option<T>, queue: seq<Node<Option<T>>>, valPtr: nat,
                      ghost b: Build<T>, ghost nf: Forest<Node<Option<T>>>)
    returns (queue': seq<Node<Option<T>>>, valPtr': nat, ghost b': Build<T>, ghost nf': Forest<Node<Option<T>>>)
    requires InRange(nf) && b.head < |nf.labels| && b.head !in nf.lefts && b.head !in nf.rights
    requires valPtr == b.ptr && Holds(nf, b.forest) && queue == nf.labels[b.head..]
    requires Injective(nf.labels) && Mirrors(nf)
    modifies nf.labels[b.head]
    ensures b' == Step(values, nullId, b)
    ensures valPtr' == b'.ptr && Holds(nf', b'.forest) && queue' == nf'.labels[b'.head..]
    ensures Injective(nf'.labels) && Mirrors(nf')
    ensures nf.labels <= nf'.labels
    ensures forall x <- nf'.labels :: x in nf.labels || fresh(x)
  {
    var leftVal, p1 := ReadSlot(values, valPtr);
    var rightVal, p2 := ReadSlot(values, p1);
    valPtr' := p2;
    var node := queue[0];
    queue' := queue[1..];
    assert queue' == nf.labels[b.head + 1..];
    ghost var nf1, f1, f2;
    queue', nf1, f1 := OfferLeft(nf, b.forest, node, b.head, queue', leftVal, nullId);
    queue', nf', f2 := OfferRight(nf1, f1, node, b.head, queue', rightVal, nullId);
    b' := Step(values, nullId, b);
    assert b' == Build(f2, b.head + 1, p2);
  }

  /**
    Builds a tree from an array of slots in level order. The result is a new
    tree of new nodes whose value is `LevelOrderTree(values, nullId)`; a
    rootless array gives the empty tree.
  */
  method Of<T(==)>(values: seq<Option<T>>, nullId: Option<T>) returns (tree: BinaryTree<Option<T>>)
    ensures fresh(tree) && tree.Valid() && fresh(tree.Repr())
    ensures tree.Model() == LevelOrderTree(values, nullId)
  {
    if |values| == 0 || values[0] == nullId {
      tree := new BinaryTree.Empty();
      return;
    }
    var rootNode := new Node(values[0]);
    var queue := [rootNode];
    var valPtr := 1;
    ghost var b := Init(values);
    ghost var nf := Forest([rootNode], map[], map[]);
    while queue != []
      invariant Consistent(values, b)
      invariant Run(values, nullId, b) == Run(values, nullId, Init(values))
      invariant valPtr == b.ptr
      invariant Holds(nf, b.forest)
      invariant queue == nf.labels[b.head..]
      invariant |nf.labels| >= 1 && nf.labels[0] == rootNode
      invariant Injective(nf.labels)
      invariant forall x <- nf.labels :: fresh(x)
      invariant Mirrors(nf)
      decreases Measure(values, b)
    {
      StepDecreases(values, nullId, b);
      StepConsistent(values, nullId, b);
      assert InRange(nf) && nf.labels[b.head] in nf.labels;
      queue, valPtr, b, nf := Round(values, nullId, queue, valPtr, b, nf);
    }
    assert Run(values, nullId, b) == b;
    ValuesToTree(nf, b.forest, 0);
    MirrorsLinked(nf, 0);
    ToTreeDistinct(nf, 0);
    ElementsInLabels(nf, 0);
    tree := new BinaryTree(rootNode, ToTree(nf, 0));
  }

  /** The varargs form: builds with Java's `null` as the null identifier. */
  method OfValues<T(==)>(values: seq<Option<T>>) returns (tree: BinaryTree<Option<T>>)
    ensures fresh(tree) && tree.Valid() && fresh(tree.Repr())
    ensures tree.Model() == LevelOrderTree(values, None)
  {
    tree := Of(values, None);
  }
}
