/** The open list of the water-jug search: a pairing heap of states ordered
  * by weight, the smallest weight first (lab1/src/Heap.cpp and its near copy
  * lab1/Codigo/src/Heap.cpp). A node has a state, its weight, a pointer to
  * its leftmost child and a pointer to its next sibling; the children of a
  * node are its leftmost child and that child's chain of siblings. The
  * nodes are modelled as values, with the weight the state had when it was
  * pushed. */
module PairingHeaps {

  datatype Option<T> = None | Some(value: T)

  datatype Tree<T> = Nil | Node(item: T, weight: nat, leftChild: Tree<T>, nextSibling: Tree<T>)

  /** `hasHigherPriority`: a lighter state comes out first. */
  predicate HasHigherPriority(a: nat, b: nat)
  {
    a < b
  }

  /** Every (state, weight) entry of `t`, its children and its later siblings. */
  function Contents<T(==)>(t: Tree<T>): multiset<(T, nat)>
  {
    if t.Nil? then multiset{}
    else multiset{(t.item, t.weight)} + Contents(t.leftChild) + Contents(t.nextSibling)
  }

  /** No weight in `m` is below `w`. */
  ghost predicate AllAtLeast<T>(m: multiset<(T, nat)>, w: nat)
  {
    forall e | e in m :: w <= e.1
  }

  /** Every node of the sibling list `t`, and every node below them, weighs
    * no more than each of its children. */
  ghost predicate HeapOrdered<T>(t: Tree<T>)
  {
    t.Nil? || (AllAtLeast(Contents(t.leftChild), t.weight) && HeapOrdered(t.leftChild) && HeapOrdered(t.nextSibling))
  }

  /** A heap: empty, or one heap-ordered root without siblings. */
  ghost predicate IsHeap<T>(t: Tree<T>)
  {
    t.Nil? || (t.nextSibling.Nil? && HeapOrdered(t))
  }

  lemma AllAtLeastWeaker<T>(m: multiset<(T, nat)>, w: nat, v: nat)
    requires AllAtLeast(m, w) && v <= w
    ensures AllAtLeast(m, v)
  {
  }

  /** The root of a heap weighs no more than anything in it. */
  lemma RootIsMinimum<T>(t: Tree<T>)
    requires IsHeap(t) && t.Node?
    ensures AllAtLeast(Contents(t), t.weight)
  {
    assert Contents(t) == multiset{(t.item, t.weight)} + Contents(t.leftChild);
  }

  /** `merge`: the root that does not have higher priority becomes the
    * leftmost child of the other one; on equal weights `h2` is the root. */
  function Merge<T(==)>(h1: Tree<T>, h2: Tree<T>): (r: Tree<T>)
    requires h1.Nil? || h1.nextSibling.Nil?
    requires h2.Nil? || h2.nextSibling.Nil?
    ensures Contents(r) == Contents(h1) + Contents(h2)
    ensures r.Nil? <==> h1.Nil? && h2.Nil?
    ensures r.Node? ==> r.nextSibling.Nil?
    ensures h1.Node? && h2.Node? ==>
              r.weight == (if HasHigherPriority(h1.weight, h2.weight) then h1.weight else h2.weight)
  {
    if h1.Nil? then h2
    else if h2.Nil? then h1
    else
      var first := if !HasHigherPriority(h1.weight, h2.weight) then h2 else h1;
      var second := if !HasHigherPriority(h1.weight, h2.weight) then h1 else h2;
      Node(first.item, first.weight, Node(second.item, second.weight, second.leftChild, first.leftChild), Nil)
  }

  /** Merging two heaps gives a heap. */
  lemma MergeIsHeap<T>(h1: Tree<T>, h2: Tree<T>)
    requires IsHeap(h1) && IsHeap(h2)
    ensures IsHeap(Merge(h1, h2))
  {
    if h1.Node? && h2.Node? {
      var first := if !HasHigherPriority(h1.weight, h2.weight) then h2 else h1;
      var second := if !HasHigherPriority(h1.weight, h2.weight) then h1 else h2;
      var child := Node(second.item, second.weight, second.leftChild, first.leftChild);
      AllAtLeastWeaker(Contents(second.leftChild), second.weight, first.weight);
      assert Contents(child) == multiset{(second.item, second.weight)} + Contents(second.leftChild) + Contents(first.leftChild);
      assert AllAtLeast(Contents(child), first.weight);
      assert HeapOrdered(child);
    }
  }

  /** On equal weights the second heap's root wins, since the roots are
    * swapped whenever the first is not strictly lighter. */
  lemma MergeTieGoesToSecond<T>(h1: Tree<T>, h2: Tree<T>)
    requires h1.Node? && h1.nextSibling.Nil? && h2.Node? && h2.nextSibling.Nil?
    requires h1.weight == h2.weight
    ensures Merge(h1, h2).item == h2.item
    ensures Merge(h1, h2).leftChild.item == h1.item
  {
  }

  /** `mergePairs`: the sibling list is merged two by two from the left, and
    * the merged pair is then merged with the result for the rest. */
  function MergePairs<T(==)>(firstSibling: Tree<T>): (r: Tree<T>)
    ensures Contents(r) == Contents(firstSibling)
    ensures r.Nil? <==> firstSibling.Nil?
    ensures r.Node? ==> r.nextSibling.Nil?
    decreases firstSibling
  {
    if firstSibling.Nil? || firstSibling.nextSibling.Nil? then firstSibling
    else
      var second := firstSibling.nextSibling;
      var rest := second.nextSibling;
      var merged := Merge(firstSibling.(nextSibling := Nil), second.(nextSibling := Nil));
      if rest.Nil? then merged
      else Merge(merged, MergePairs(rest))
  }

  /** Merging a heap-ordered sibling list gives a heap. */
  lemma {:induction false} MergePairsIsHeap<T>(firstSibling: Tree<T>)
    requires HeapOrdered(firstSibling)
    ensures IsHeap(MergePairs(firstSibling))
    decreases firstSibling
  {
    if firstSibling.Node? && firstSibling.nextSibling.Node? {
      var second := firstSibling.nextSibling;
      var rest := second.nextSibling;
      MergeIsHeap(firstSibling.(nextSibling := Nil), second.(nextSibling := Nil));
      if rest.Node? {
        MergePairsIsHeap(rest);
        MergeIsHeap(Merge(firstSibling.(nextSibling := Nil), second.(nextSibling := Nil)), MergePairs(rest));
      }
    }
  }

  /** The heap after `push`. */
  function PushTree<T(==)>(root: Tree<T>, item: T, weight: nat): (r: Tree<T>)
    requires root.Nil? || root.nextSibling.Nil?
    ensures Contents(r) == Contents(root) + multiset{(item, weight)}
  {
    Merge(root, Node(item, weight, Nil, Nil))
  }

  /** The heap after `pop` takes its root away. */
  function PopTree<T(==)>(root: Tree<T>): (r: Tree<T>)
    requires root.Node? && root.nextSibling.Nil?
    ensures Contents(r) == Contents(root) - multiset{(root.item, root.weight)}
  {
    if root.leftChild.Node? then MergePairs(root.leftChild) else Nil
  }

  /** A push keeps a heap a heap. */
  lemma PushIsHeap<T>(root: Tree<T>, item: T, weight: nat)
    requires IsHeap(root)
    ensures IsHeap(PushTree(root, item, weight))
    ensures PushTree(root, item, weight).weight
            == (if root.Node? && root.weight <= weight then root.weight else weight)
  {
    MergeIsHeap(root, Node(item, weight, Nil, Nil));
  }

  /** A pop keeps a heap a heap, and nothing left in it is lighter than what
    * was popped. */
  lemma PopIsHeap<T>(root: Tree<T>)
    requires IsHeap(root) && root.Node?
    ensures IsHeap(PopTree(root))
    ensures AllAtLeast(Contents(PopTree(root)), root.weight)
  {
    if root.leftChild.Node? {
      MergePairsIsHeap(root.leftChild);
    }
  }

  /** Three states of weights 10, 5 and 15 pushed in that order come out
    * lightest first. */
  lemma PopsInWeightOrder()
    ensures var h := PushTree(PushTree(PushTree(Nil, 1, 10), 2, 5), 3, 15);
            h.item == 2 && PopTree(h).item == 1 && PopTree(PopTree(h)).item == 3
            && PopTree(PopTree(PopTree(h))).Nil?
  {
  }

  /** The pairing heap: its root and the number of states in it. */
  class PairingHeap<T(==)> {
    var root: Tree<T>
    var size: nat

    ghost predicate Valid()
      reads this
    {
      IsHeap(root) && size == |Contents(root)|
    }

    constructor ()
      ensures root.Nil? && size == 0 && Valid()
    {
      root := Nil;
      size := 0;
    }

    method Push(item: T, weight: nat)
      requires Valid()
      modifies this
      ensures Valid()
      ensures root == PushTree(old(root), item, weight)
      ensures Contents(root) == old(Contents(root)) + multiset{(item, weight)}
      ensures size == old(size) + 1 && root.Node?
    {
      PushIsHeap(root, item, weight);
      root := PushTree(root, item, weight);
      size := size + 1;
    }

    /** `pop`: `None` (nullptr) on an empty heap, else the root's state, the
      * lightest one. */
    method Pop() returns (result: Option<T>)
      requires Valid()
      modifies this
      ensures Valid()
      ensures old(root).Nil? ==> result.None? && root == old(root) && size == old(size)
      ensures old(root).Node? ==>
                result == Some(old(root).item)
                && AllAtLeast(old(Contents(root)), old(root).weight)
                && root == PopTree(old(root))
                && Contents(root) == old(Contents(root)) - multiset{(old(root).item, old(root).weight)}
                && size == old(size) - 1
    {
      if root.Nil? {
        return None;
      }
      RootIsMinimum(root);
      PopIsHeap(root);
      result := Some(root.item);
      root := PopTree(root);
      size := size - 1;
    }

    /** `peek`: the root's state, the lightest one, without changing anything. */
    function Peek(): (r: Option<T>)
      reads this
      ensures r.None? <==> root.Nil?
      ensures r.Some? ==> r.value == root.item
    {
      if root.Nil? then None else Some(root.item)
    }

    predicate Empty()
      reads this
    {
      root.Nil?
    }

    /** In a valid heap the root is null exactly when the count is zero. */
    lemma EmptyIffNoStates()
      requires Valid()
      ensures Empty() <==> size == 0
    {
    }

    method Clear()
      modifies this
      ensures root.Nil? && size == 0 && Valid()
    {
      root := Nil;
      size := 0;
    }
  }
}
