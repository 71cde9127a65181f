/**
 * The code tree and its greedy construction (HuffmanEncoding.HuffmanNode,
 * HuffmanEncoding.OccurrenceItem and computeEncodingTree).
 */
module HuffmanTree {
  import opened Base

  /** A tree node: a leaf carries a symbol, a branch exactly two children. */
  datatype Node = Leaf(c: int) | Branch(left: Node, right: Node)

  /** One entry of the work list: a weight and the subtree it belongs to. */
  datatype Item = Item(count: int, node: Node)

  /** The leaf symbols of a tree, left to right. */
  function Leaves(n: Node): seq<int>
  {
    match n
    case Leaf(c) => [c]
    case Branch(l, r) => Leaves(l) + Leaves(r)
  }

  /** The leaf symbols of every subtree in a work list, with multiplicity. */
  function ItemsBag(o: seq<Item>): multiset<int>
  {
    if o == [] then multiset{} else multiset(Leaves(o[0].node)) + ItemsBag(o[1..])
  }

  function TotalCount(o: seq<Item>): int
  {
    if o == [] then 0 else o[0].count + TotalCount(o[1..])
  }

  lemma {:induction false} SplitOff(o: seq<Item>, i: nat)
    requires i <= |o|
    ensures TotalCount(o) == TotalCount(o[..i]) + TotalCount(o[i..])
    ensures ItemsBag(o) == ItemsBag(o[..i]) + ItemsBag(o[i..])
  {
    if i > 0 {
      SplitOff(o[1..], i - 1);
      assert o[1..][..i - 1] == o[..i][1..];
      assert o[1..][i - 1..] == o[i..];
    }
  }

  lemma SplitAt(o: seq<Item>, i: nat)
    requires i < |o|
    ensures TotalCount(o) == TotalCount(o[..i]) + o[i].count + TotalCount(o[i + 1..])
    ensures ItemsBag(o) == ItemsBag(o[..i]) + multiset(Leaves(o[i].node)) + ItemsBag(o[i + 1..])
  {
    SplitOff(o, i);
    assert o[i..][1..] == o[i + 1..];
  }

  /**
   * `k` is the earliest position other than `skip` whose count is smallest
   * among all positions other than `skip` (`skip` = -1 excludes nothing).
   */
  predicate IsEarliestMin(o: seq<Item>, k: int, skip: int)
  {
    && 0 <= k < |o| && k != skip
    && (forall j :: 0 <= j < |o| && j != skip ==> o[k].count <= o[j].count)
    && (forall j :: 0 <= j < k && j != skip ==> o[k].count < o[j].count)
  }

  /** At least one position other than `skip` exists. */
  predicate HasCandidate(o: seq<Item>, skip: int)
  {
    |o| > (if 0 <= skip < |o| then 1 else 0)
  }

  lemma EarliestMinUnique(o: seq<Item>, k1: int, k2: int, skip: int)
    requires IsEarliestMin(o, k1, skip) && IsEarliestMin(o, k2, skip)
    ensures k1 == k2
  {
    assert o[k1].count <= o[k2].count;
    assert o[k2].count <= o[k1].count;
  }

  /** The position the source's scans select: earliest among the smallest counts. */
  function EarliestMin(o: seq<Item>, skip: int): (k: nat)
    requires HasCandidate(o, skip)
    ensures IsEarliestMin(o, k, skip)
    decreases |o|
  {
    var last := |o| - 1;
    var init := o[..last];
    if !HasCandidate(init, skip) then last
    else if last == skip then EarliestMin(init, skip)
    else
      var k := EarliestMin(init, skip);
      if o[last].count < o[k].count then last else k
  }

  /**
   * The item at `lowest` becomes the branch (lowest, second) weighted by the
   * summed count, and the item at `second` is removed.
   */
  function Combine(o: seq<Item>, lowest: nat, second: nat): (r: seq<Item>)
    requires lowest < |o| && second < |o| && lowest != second
    ensures |r| == |o| - 1
    ensures r[if second < lowest then lowest - 1 else lowest]
         == Item(o[lowest].count + o[second].count, Branch(o[lowest].node, o[second].node))
    ensures forall j :: 0 <= j < second && j != lowest ==> r[j] == o[j]
    ensures forall j :: second < j < |o| && j != lowest ==> r[j - 1] == o[j]
  {
    var updated := o[lowest := Item(o[lowest].count + o[second].count, Branch(o[lowest].node, o[second].node))];
    updated[..second] + updated[second + 1..]
  }

  lemma UpdateAt(o: seq<Item>, i: nat, x: Item)
    requires i < |o|
    ensures TotalCount(o[i := x]) == TotalCount(o) - o[i].count + x.count
    ensures ItemsBag(o[i := x]) + multiset(Leaves(o[i].node)) == ItemsBag(o) + multiset(Leaves(x.node))
  {
    var u := o[i := x];
    SplitAt(o, i);
    SplitAt(u, i);
    assert u[..i] == o[..i] && u[i + 1..] == o[i + 1..];
  }

  lemma RemoveAt(o: seq<Item>, i: nat)
    requires i < |o|
    ensures TotalCount(o[..i] + o[i + 1..]) == TotalCount(o) - o[i].count
    ensures ItemsBag(o[..i] + o[i + 1..]) + multiset(Leaves(o[i].node)) == ItemsBag(o)
  {
    var r := o[..i] + o[i + 1..];
    SplitAt(o, i);
    SplitOff(r, i);
    assert r[..i] == o[..i] && r[i..] == o[i + 1..];
  }

  /** Combining keeps the total weight and the leaf symbols. */
  lemma CombinePreserves(o: seq<Item>, lowest: nat, second: nat)
    requires lowest < |o| && second < |o| && lowest != second
    ensures TotalCount(Combine(o, lowest, second)) == TotalCount(o)
    ensures ItemsBag(Combine(o, lowest, second)) == ItemsBag(o)
  {
    var merged := Item(o[lowest].count + o[second].count, Branch(o[lowest].node, o[second].node));
    var updated := o[lowest := merged];
    var r := updated[..second] + updated[second + 1..];
    assert Combine(o, lowest, second) == r;
    var bagL, bagS := multiset(Leaves(o[lowest].node)), multiset(Leaves(o[second].node));
    assert multiset(Leaves(merged.node)) == bagL + bagS;
    UpdateAt(o, lowest, merged);
    assert updated[second] == o[second];
    RemoveAt(updated, second);
    BagCancel(ItemsBag(r), ItemsBag(updated), ItemsBag(o), bagL, bagS);
  }

  /** Taking the second item's leaves out again leaves the original bag. */
  lemma BagCancel(r: multiset<int>, u: multiset<int>, o: multiset<int>, bagL: multiset<int>, bagS: multiset<int>)
    requires u + bagL == o + (bagL + bagS) && r + bagS == u
    ensures r == o
  {
    forall v
      ensures r[v] == o[v]
    {
      assert (u + bagL)[v] == (o + (bagL + bagS))[v];
    }
  }

  /**
   * One round of the construction loop: combine the earliest lowest-count item
   * with the earliest lowest-count item among the others.
   */
  function MergeStep(o: seq<Item>): (r: seq<Item>)
    requires |o| >= 2
    ensures |r| == |o| - 1
    ensures TotalCount(r) == TotalCount(o)
    ensures ItemsBag(r) == ItemsBag(o)
  {
    var lowest := EarliestMin(o, -1);
    var second := EarliestMin(o, lowest);
    CombinePreserves(o, lowest, second);
    Combine(o, lowest, second)
  }

  /**
   * computeEncodingTree as a specification: no items is an error, one item is
   * its own node, otherwise merge once and go on.
   */
  function BuildTree(o: seq<Item>): (r: Result<Node>)
    ensures r.Err? <==> |o| == 0
    ensures r.Err? ==> r.error == EmptyInput
    ensures |o| == 1 ==> r == Ok(o[0].node)
    decreases |o|
  {
    if |o| == 0 then Err(EmptyInput)
    else if |o| == 1 then Ok(o[0].node)
    else BuildTree(MergeStep(o))
  }

  /** The first for-loop of computeEncodingTree: earliest index of the smallest count. */
  method FindLowest(o: seq<Item>) returns (lowestI: nat)
    requires |o| >= 1
    ensures IsEarliestMin(o, lowestI, -1)
  {
    lowestI := 0;
    for i := 1 to |o|
      invariant IsEarliestMin(o[..i], lowestI, -1)
    {
      if o[i].count < o[lowestI].count {
        lowestI := i;
      }
    }
    assert o[..|o|] == o;
  }

  /** The second for-loop: earliest index of the smallest count other than `lowestI`. */
  method FindSecondLowest(o: seq<Item>, lowestI: nat) returns (secondLowestI: nat)
    requires |o| >= 2 && lowestI < |o|
    ensures IsEarliestMin(o, secondLowestI, lowestI)
  {
    secondLowestI := if lowestI == 0 then 1 else 0;
    for i := 1 to |o|
      invariant secondLowestI < |o| && secondLowestI != lowestI
      invariant secondLowestI < i || (i == 1 && secondLowestI == 1)
      invariant forall j :: 0 <= j < i && j != lowestI ==> o[secondLowestI].count <= o[j].count
      invariant forall j :: 0 <= j < secondLowestI && j != lowestI ==> o[secondLowestI].count < o[j].count
    {
      if lowestI != i && o[i].count < o[secondLowestI].count {
        secondLowestI := i;
      }
    }
  }

  /** One pass of the while-loop of computeEncodingTree: find both indices, set, remove. */
  method MergeLowest(o: seq<Item>) returns (next: seq<Item>)
    requires |o| >= 2
    ensures next == MergeStep(o)
  {
    var lowestI := FindLowest(o);
    var secondLowestI := FindSecondLowest(o, lowestI);
    EarliestMinUnique(o, lowestI, EarliestMin(o, -1), -1);
    EarliestMinUnique(o, secondLowestI, EarliestMin(o, lowestI), lowestI);
    next := o[lowestI := Item(o[lowestI].count + o[secondLowestI].count,
                              Branch(o[lowestI].node, o[secondLowestI].node))];
    next := next[..secondLowestI] + next[secondLowestI + 1..];
  }

  /**
   * computeEncodingTree: merge the two lowest items until one is left.
   * The source changes the caller's list; here the list is a local copy.
   */
  method ComputeEncodingTree(o: seq<Item>) returns (r: Result<Node>)
    ensures r == BuildTree(o)
  {
    if |o| == 0 {
      return Err(EmptyInput);
    }
    var items := o;
    while |items| > 1
      invariant |items| >= 1
      invariant BuildTree(items) == BuildTree(o)
      decreases |items|
    {
      items := MergeLowest(items);
    }
    return Ok(items[0].node);
  }

  /** The root holds exactly the leaf symbols of the items, with multiplicity. */
  lemma {:induction false} BuildTreeLeaves(o: seq<Item>)
    requires |o| >= 1
    ensures multiset(Leaves(BuildTree(o).value)) == ItemsBag(o)
    decreases |o|
  {
    if |o| == 1 {
      assert o[1..] == [];
    } else {
      BuildTreeLeaves(MergeStep(o));
    }
  }

  /** From two items on, the root is a branch. */
  lemma {:induction false} BuildTreeBranch(o: seq<Item>)
    requires |o| >= 2
    ensures BuildTree(o).value.Branch?
    decreases |o|
  {
    var m := MergeStep(o);
    if |m| >= 2 {
      BuildTreeBranch(m);
    } else {
      var lowest := EarliestMin(o, -1);
      CombinePair(o, lowest, EarliestMin(o, lowest));
    }
  }

  /** Merging the two items of a pair leaves one branch item. */
  lemma CombinePair(o: seq<Item>, lowest: nat, second: nat)
    requires |o| == 2 && lowest < 2 && second < 2 && lowest != second
    ensures Combine(o, lowest, second) == [Item(o[lowest].count + o[second].count, Branch(o[lowest].node, o[second].node))]
  {
  }

  /** A merge round combines whatever positions satisfy the two selection rules. */
  lemma MergeStepAt(o: seq<Item>, lowest: nat, second: nat, next: seq<Item>)
    requires |o| >= 2
    requires IsEarliestMin(o, lowest, -1) && IsEarliestMin(o, second, lowest)
    requires Combine(o, lowest, second) == next
    ensures BuildTree(o) == BuildTree(next)
  {
    EarliestMinUnique(o, lowest, EarliestMin(o, -1), -1);
    EarliestMinUnique(o, second, EarliestMin(o, lowest), lowest);
  }

  /** The tree shapes the test suite pins down (there with the leaves 'a'..'d'). */
  lemma OrderDictatesTreeStructure(a: Node, b: Node, c: Node, d: Node)
    ensures BuildTree([Item(1, a), Item(1, b), Item(2, c), Item(3, d)])
         == Ok(Branch(d, Branch(Branch(a, b), c)))
  {
    OrderStep1(a, b, c, d);
    OrderStep2(a, b, c, d);
    MergeLastPair([Item(4, Branch(Branch(a, b), c)), Item(3, d)]);
  }

  lemma OrderStep1(a: Node, b: Node, c: Node, d: Node)
    ensures BuildTree([Item(1, a), Item(1, b), Item(2, c), Item(3, d)])
         == BuildTree([Item(2, Branch(a, b)), Item(2, c), Item(3, d)])
  {
    var o := [Item(1, a), Item(1, b), Item(2, c), Item(3, d)];
    assert o[2..] == [Item(2, c), Item(3, d)];
    MergeFrontPair(o, [Item(2, Branch(a, b)), Item(2, c), Item(3, d)]);
  }

  lemma OrderStep2(a: Node, b: Node, c: Node, d: Node)
    ensures BuildTree([Item(2, Branch(a, b)), Item(2, c), Item(3, d)])
         == BuildTree([Item(4, Branch(Branch(a, b), c)), Item(3, d)])
  {
    var o := [Item(2, Branch(a, b)), Item(2, c), Item(3, d)];
    assert o[2..] == [Item(3, d)];
    MergeFrontPair(o, [Item(4, Branch(Branch(a, b), c)), Item(3, d)]);
  }

  lemma OccurrencesSortedHighToLow(a: Node, b: Node, c: Node, d: Node)
    ensures BuildTree([Item(6, d), Item(3, c), Item(1, a), Item(1, b)])
         == Ok(Branch(Branch(Branch(a, b), c), d))
  {
    SortedStep1(a, b, c, d);
    SortedStep2(a, b, c, d);
    MergeLastPair([Item(6, d), Item(5, Branch(Branch(a, b), c))]);
  }

  lemma OccurrencesUnsorted(a: Node, b: Node, c: Node)
    ensures BuildTree([Item(2, b), Item(1, a), Item(4, c)])
         == Ok(Branch(Branch(a, b), c))
  {
    var o := [Item(2, b), Item(1, a), Item(4, c)];
    var o1 := [Item(3, Branch(a, b)), Item(4, c)];
    assert Combine(o, 1, 0) == o1;
    MergeStepAt(o, 1, 0, o1);
    MergeFrontPair(o1, [Item(7, Branch(Branch(a, b), c))]);
  }

  /** Merging when the first two items are the two lowest, the first strictly below the rest. */
  lemma MergeFrontPair(o: seq<Item>, next: seq<Item>)
    requires |o| >= 2 && o[0].count <= o[1].count
    requires forall j :: 2 <= j < |o| ==> o[1].count < o[j].count
    requires next == [Item(o[0].count + o[1].count, Branch(o[0].node, o[1].node))] + o[2..]
    ensures BuildTree(o) == BuildTree(next)
  {
    var updated := o[0 := Item(o[0].count + o[1].count, Branch(o[0].node, o[1].node))];
    assert Combine(o, 0, 1) == updated[..1] + updated[2..];
    assert updated[..1] + updated[2..] == next;
    MergeStepAt(o, 0, 1, next);
  }

  /** Two items where the second is strictly the lower: it becomes the left child. */
  lemma MergeLastPair(o: seq<Item>)
    requires |o| == 2 && o[1].count < o[0].count
    ensures BuildTree(o) == Ok(Branch(o[1].node, o[0].node))
  {
    var next := [Item(o[1].count + o[0].count, Branch(o[1].node, o[0].node))];
    assert Combine(o, 1, 0) == next;
    MergeStepAt(o, 1, 0, next);
  }

  lemma SortedStep1(a: Node, b: Node, c: Node, d: Node)
    ensures BuildTree([Item(6, d), Item(3, c), Item(1, a), Item(1, b)])
         == BuildTree([Item(6, d), Item(3, c), Item(2, Branch(a, b))])
  {
    var o := [Item(6, d), Item(3, c), Item(1, a), Item(1, b)];
    var o1 := [Item(6, d), Item(3, c), Item(2, Branch(a, b))];
    assert Combine(o, 2, 3) == o1;
    MergeStepAt(o, 2, 3, o1);
  }

  lemma SortedStep2(a: Node, b: Node, c: Node, d: Node)
    ensures BuildTree([Item(6, d), Item(3, c), Item(2, Branch(a, b))])
         == BuildTree([Item(6, d), Item(5, Branch(Branch(a, b), c))])
  {
    var o := [Item(6, d), Item(3, c), Item(2, Branch(a, b))];
    var o1 := [Item(6, d), Item(5, Branch(Branch(a, b), c))];
    assert Combine(o, 2, 1) == o1;
    MergeStepAt(o, 2, 1, o1);
  }
}
