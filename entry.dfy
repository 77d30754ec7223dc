/**
 * How update reaches the climb. A first occurrence splits the NYT and climbs from the old
 * NYT's parent; a leaf that is the NYT's sibling is first swapped with the highest leaf of
 * its weight and incremented, and the climb starts at its new parent; any other leaf is
 * itself the first cursor.
 */
module Entry {
  import opened Wrappers
  import opened Nodes
  import opened TreeShape
  import opened Restructure
  import opened Climbing
  import opened Split

  /** After a split of the NYT, the invariant holds again or the climb can start at the old NYT's parent. */
  lemma SplitEntry(t: Tree, root: nat, o: nat)
    requires TreeInv(t, root, o)
    ensures o == root ==> TreeInv(SplitTree(t, o), root, |t| + 1)
    ensures o != root ==> t[o].parent.Some? && ClimbInv(SplitTree(t, o), root, |t| + 1, t[o].parent.value)
    ensures SplitTree(t, o)[root].weight == t[root].weight + (if o == root then 1 else 0)
  {
    SplitStruct(t, root, o);
    SplitNyt(t, root, o);
    SplitSums(t, root, o);
    SplitOrdered(t, root, o);
    var s := SplitTree(t, o);
    assert s[root] == SplitNode(t, o, root);
    if o != root {
      var p := t[o].parent.value;
      OrderedIsOrderedBut(s, root, p);
      assert s[p] == SplitNode(t, o, p) && s[|t| + 1] == SplitNode(t, o, |t| + 1);
      assert t[p].number == t[o].number + 2;
    }
  }

  /** A leaf that is not the NYT's sibling can start the climb itself. */
  lemma LeafEntry(t: Tree, root: nat, nyt: nat, n: nat)
    requires TreeInv(t, root, nyt) && nyt != root
    requires n < |t| && n != nyt && t[n].IsLeaf() && t[n].parent != t[nyt].parent
    ensures ClimbInv(t, root, nyt, n)
  {
    var q := t[t[nyt].parent.value].right.value;
    assert t[q].parent == t[nyt].parent;
    assert t[n].number != t[nyt].number + 1;
    OrderedIsOrderedBut(t, root, n);
    assert t[nyt].parent != Some(n);
  }

  /** The NYT's sibling is the right child of the NYT's parent, numbered just above the NYT, and as heavy as that parent. */
  lemma SiblingFacts(t: Tree, root: nat, nyt: nat, n: nat)
    requires TreeInv(t, root, nyt) && nyt != root
    requires n < |t| && n != nyt && t[n].parent == t[nyt].parent
    ensures t[nyt].parent.value < |t| && t[t[nyt].parent.value].right == Some(n)
    ensures t[n].number == t[nyt].number + 1 && t[n].weight >= 1
    ensures t[t[nyt].parent.value].weight == t[n].weight
  {
    var p := t[nyt].parent.value;
    assert t[p].left == Some(n) || t[p].right == Some(n);
    assert SumAt(t, p);
  }

  /** Every internal node other than the NYT's parent weighs at least twice the NYT's sibling. */
  lemma InternalHeavy(t: Tree, root: nat, nyt: nat, n: nat, j: nat)
    requires TreeInv(t, root, nyt) && nyt != root
    requires n < |t| && n != nyt && t[n].parent == t[nyt].parent
    requires j < |t| && Internal(t, j) && t[nyt].parent != Some(j)
    ensures t[j].weight >= 2 * t[n].weight
  {
    SiblingFacts(t, root, nyt, n);
    assert SumAt(t, j);
    var l, r := t[j].left.value, t[j].right.value;
    assert t[l].parent == Some(j) && t[r].parent == Some(j);
    assert t[n].number <= t[l].number && t[n].number <= t[r].number;
  }

  /** When the NYT's sibling tops its block of leaves, incrementing it leaves its parent on top of the parent's block. */
  lemma SiblingNoSwapOrder(t: Tree, root: nat, nyt: nat, n: nat)
    requires TreeInv(t, root, nyt) && nyt != root
    requires n < |t| && n != nyt && t[n].IsLeaf() && t[n].parent == t[nyt].parent
    requires MaxInBlock(t, root, t[n].weight, true) == Some(n)
    ensures t[nyt].parent.value < |t|
    ensures OrderedBut(Incremented(t, n), root, t[nyt].parent.value)
    ensures TopOfBlock(Incremented(t, n), root, t[nyt].parent.value)
  {
    SiblingFacts(t, root, nyt, n);
    var p := t[nyt].parent.value;
    var s := Incremented(t, n);
    InternalsHeavy(t, root, nyt, n);
    HeavierAboveBlock(t, root, n, n, p);
    IncrementBelowParent(t, root, n, p);
  }

  /**
   * Incrementing n, when its parent p is numbered next above it and as heavy, and everything
   * else above n outweighs it, leaves p as the only node short of its increment, on top of its block.
   */
  lemma IncrementBelowParent(t: Tree, root: nat, n: nat, p: nat)
    requires Ordered(t) && n < |t| && p < |t| && root < |t| && n != p
    requires t[p].weight == t[n].weight && t[p].number == t[n].number + 1
    requires forall j | 0 <= j < |t| && j != p && t[j].number > t[n].number :: t[j].weight > t[n].weight
    ensures OrderedBut(Incremented(t, n), root, p) && TopOfBlock(Incremented(t, n), root, p)
  {
    var s := Incremented(t, n);
    forall j | 0 <= j < |s| && j != root && s[j].weight == s[p].weight
      ensures s[j].number <= s[p].number
    {
    }
  }

  /** The NYT's sibling on top of its block of leaves: increment it and climb from its parent. */
  lemma SiblingNoSwap(t: Tree, root: nat, nyt: nat, n: nat)
    requires TreeInv(t, root, nyt) && nyt != root
    requires n < |t| && n != nyt && t[n].IsLeaf() && t[n].parent == t[nyt].parent
    requires MaxInBlock(t, root, t[n].weight, true) == Some(n)
    ensures t[nyt].parent.value < |t| && ClimbInv(Incremented(t, n), root, nyt, t[nyt].parent.value)
  {
    SiblingFacts(t, root, nyt, n);
    SiblingNoSwapOrder(t, root, nyt, n);
    IncrementKeepsShape(t, root, nyt, n);
    IncrementSums(t, n, t[nyt].parent.value);
  }

  /** Two distinct non-root leaves may always trade places. */
  lemma LeafSwapOk(t: Tree, root: nat, a: nat, b: nat)
    requires InRange(t) && Links(t) && a < |t| && b < |t| && a != b && a != root && b != root
    requires t[a].IsLeaf() && t[b].IsLeaf()
    ensures SwapOk(t, root, a, b)
  {
  }

  /** Above the highest leaf of the sibling's weight, every node is heavier than the sibling. */
  lemma AboveTopLeaf(t: Tree, root: nat, nyt: nat, n: nat, h: nat)
    requires TreeInv(t, root, nyt) && nyt != root
    requires n < |t| && n != nyt && t[n].IsLeaf() && t[n].parent == t[nyt].parent
    requires MaxInBlock(t, root, t[n].weight, true) == Some(h) && h != n
    ensures t[h].number >= t[nyt].number + 3
    ensures forall j | 0 <= j < |t| && t[j].number > t[h].number :: t[j].weight > t[n].weight
  {
    SiblingFacts(t, root, nyt, n);
    var p := t[nyt].parent.value;
    assert t[h].number != t[p].number;
    InternalsHeavy(t, root, nyt, n);
    HeavierAboveBlock(t, root, n, h, p);
  }

  /** Every internal node but the NYT's parent weighs at least twice the NYT's sibling. */
  lemma InternalsHeavy(t: Tree, root: nat, nyt: nat, n: nat)
    requires TreeInv(t, root, nyt) && nyt != root
    requires n < |t| && n != nyt && t[n].parent == t[nyt].parent
    ensures t[nyt].parent.Some? && t[nyt].parent.value < |t| && !t[root].IsLeaf()
    ensures forall j | 0 <= j < |t| && Internal(t, j) && j != t[nyt].parent.value :: t[j].weight >= 2 * t[n].weight
  {
    forall j | 0 <= j < |t| && Internal(t, j) && j != t[nyt].parent.value
      ensures t[j].weight >= 2 * t[n].weight
    {
      InternalHeavy(t, root, nyt, n, j);
    }
  }

  /**
   * Nodes numbered above the highest leaf h of n's weight, other than p, outweigh n: the
   * internal ones because they weigh twice as much, the leaves because they are not in n's block.
   */
  lemma HeavierAboveBlock(t: Tree, root: nat, n: nat, h: nat, p: nat)
    requires Binary(t) && Ordered(t) && n < |t| && h < |t| && p < |t| && root < |t|
    requires t[n].weight >= 1 && !t[root].IsLeaf() && t[n].number <= t[h].number
    requires forall j | 0 <= j < |t| && Internal(t, j) && j != p :: t[j].weight >= 2 * t[n].weight
    requires forall j | 0 <= j < |t| && Candidate(t, root, t[n].weight, true, j) :: t[j].number <= t[h].number
    ensures forall j | 0 <= j < |t| && j != p && t[j].number > t[h].number :: t[j].weight > t[n].weight
  {
    forall j | 0 <= j < |t| && j != p && t[j].number > t[h].number
      ensures t[j].weight > t[n].weight
    {
      if !Internal(t, j) {
        assert !Candidate(t, root, t[n].weight, true, j);
        assert t[n].weight <= t[j].weight;
      }
    }
  }

  /** Incrementing a node lighter than every node numbered above it keeps the sibling property. */
  lemma IncrementBelowHeavier(t: Tree, n: nat)
    requires n < |t| && Ordered(t)
    requires forall j | 0 <= j < |t| && t[j].number > t[n].number :: t[j].weight > t[n].weight
    ensures Ordered(Incremented(t, n))
  {
  }

  /** After trading places with h, n carries h's number, so what outweighed it stays above it. */
  lemma HeavierAboveAfterSwap(t: Tree, n: nat, h: nat)
    requires n < |t| && h < |t| && t[n].number < t[h].number && t[n].weight == t[h].weight
    requires forall j | 0 <= j < |t| && t[j].number > t[h].number :: t[j].weight > t[n].weight
    ensures forall j | 0 <= j < |t| && Swapped(t, n, h)[j].number > Swapped(t, n, h)[n].number ::
      Swapped(t, n, h)[j].weight > Swapped(t, n, h)[n].weight
  {
    SwappedNumbers(t, n, h);
    var t1 := Swapped(t, n, h);
    forall j | 0 <= j < |t1| && t1[j].number > t1[n].number
      ensures t1[j].weight > t1[n].weight
    {
      assert t[Partner(j, n, h)].number > t[h].number;
    }
  }

  /** Swapping the NYT's sibling with the highest leaf of its weight and incrementing it keeps the sibling property. */
  lemma SiblingSwapOrder(t: Tree, root: nat, nyt: nat, n: nat, h: nat)
    requires TreeInv(t, root, nyt) && nyt != root
    requires n < |t| && n != nyt && t[n].IsLeaf() && t[n].parent == t[nyt].parent
    requires MaxInBlock(t, root, t[n].weight, true) == Some(h) && h != n
    ensures Ordered(Incremented(Swapped(t, n, h), n))
  {
    AboveTopLeaf(t, root, nyt, n, h);
    SwapKeepsOrdered(t, n, h);
    HeavierAboveAfterSwap(t, n, h);
    IncrementBelowHeavier(Swapped(t, n, h), n);
  }

  /** The climb can start at the parent of a just-incremented cursor numbered above the NYT's parent. */
  lemma ClimbFromParent(t: Tree, root: nat, nyt: nat, n: nat, p: nat)
    requires Struct(t, root) && NytShape(t, root, nyt) && Positive(t, nyt)
    requires n < |t| && p < |t| && n != nyt && n != p && t[n].parent == Some(p) && SumsExcept(t, n)
    requires t[nyt].number + 2 < t[n].number && Ordered(Incremented(t, n))
    ensures ClimbInv(Incremented(t, n), root, nyt, p)
  {
    IncrementKeepsShape(t, root, nyt, n);
    IncrementSums(t, n, p);
    OrderedIsOrderedBut(Incremented(t, n), root, p);
    if nyt != root {
      assert t[t[nyt].parent.value].number == t[nyt].number + 2;
    }
  }

  /** The NYT's sibling below the top of its block of leaves: swap, increment, climb from its new parent. */
  lemma SiblingSwap(t: Tree, root: nat, nyt: nat, n: nat, h: nat)
    requires TreeInv(t, root, nyt) && nyt != root
    requires n < |t| && n != nyt && t[n].IsLeaf() && t[n].parent == t[nyt].parent
    requires MaxInBlock(t, root, t[n].weight, true) == Some(h) && h != n
    ensures Swapped(t, n, h)[n].parent.Some? && Swapped(t, n, h)[n].parent.value < |t|
    ensures ClimbInv(Incremented(Swapped(t, n, h), n), root, nyt, Swapped(t, n, h)[n].parent.value)
  {
    SiblingFacts(t, root, nyt, n);
    AboveTopLeaf(t, root, nyt, n, h);
    LeafSwapOk(t, root, n, h);
    assert SumsExcept(t, n);
    SwapStepShape(t, root, nyt, n, h);
    SiblingSwapOrder(t, root, nyt, n, h);
    var t1 := Swapped(t, n, h);
    ClimbFromParent(t1, root, nyt, n, t1[n].parent.value);
  }

  /** t2 has the leaves of t and its weights, except that n is one heavier. */
  ghost predicate OneHeavier(t: Tree, t2: Tree, n: nat)
  {
    |t2| == |t| && n < |t| &&
    (forall i | 0 <= i < |t| :: t2[i].IsLeaf() == t[i].IsLeaf()) &&
    (forall i | 0 <= i < |t| && i != n :: t2[i].weight == t[i].weight) &&
    t2[n].weight == t[n].weight + 1
  }

  /** The increment of the cursor's first parent still owes: the climb starts there. */
  ghost predicate ClimbStart(t: Tree, root: nat, nyt: nat, t2: Tree, n: nat, m: nat)
  {
    OneHeavier(t, t2, n) && m < |t2| && m != n && ClimbInv(t2, root, nyt, m) && !t2[m].IsLeaf()
  }

  lemma ClimbStartIntro(t: Tree, root: nat, nyt: nat, t2: Tree, n: nat, m: nat)
    requires OneHeavier(t, t2, n) && m < |t2| && m != n && ClimbInv(t2, root, nyt, m) && !t2[m].IsLeaf()
    ensures ClimbStart(t, root, nyt, t2, n, m)
  {
  }

  lemma SiblingEntryNoSwap(t: Tree, root: nat, nyt: nat, n: nat, t1: Tree)
    requires TreeInv(t, root, nyt) && nyt != root
    requires n < |t| && n != nyt && t[n].IsLeaf() && t[n].parent == t[nyt].parent
    requires MaxInBlock(t, root, t[n].weight, true) == Some(n) && t1 == SwapToTop(t, root, n, true)
    ensures t1[n].parent.Some? && ClimbStart(t, root, nyt, Incremented(t1, n), n, t1[n].parent.value)
  {
    SiblingNoSwap(t, root, nyt, n);
    assert t1 == t;
    var p := t[nyt].parent.value;
    var t2 := Incremented(t, n);
    assert t2[p].left.Some?;
    ClimbStartIntro(t, root, nyt, t2, n, p);
  }

  lemma SwapThenIncrement(t: Tree, n: nat, h: nat)
    requires n < |t| && h < |t| && t[n].weight == t[h].weight
    ensures OneHeavier(t, Incremented(Swapped(t, n, h), n), n)
  {
    SwappedNumbers(t, n, h);
  }

  lemma SiblingEntrySwap(t: Tree, root: nat, nyt: nat, n: nat, h: nat, t1: Tree)
    requires TreeInv(t, root, nyt) && nyt != root
    requires n < |t| && n != nyt && t[n].IsLeaf() && t[n].parent == t[nyt].parent
    requires MaxInBlock(t, root, t[n].weight, true) == Some(h) && h != n && t1 == SwapToTop(t, root, n, true)
    ensures t1[n].parent.Some? && ClimbStart(t, root, nyt, Incremented(t1, n), n, t1[n].parent.value)
  {
    SiblingSwap(t, root, nyt, n, h);
    SwapThenIncrement(t, n, h);
    assert t1 == Swapped(t, n, h);
    var t2 := Incremented(t1, n);
    var m := t1[n].parent.value;
    assert t2[n].parent == Some(m) && t2[m].number > t2[n].number;
    assert t2[m].left == Some(n) || t2[m].right == Some(n);
    ClimbStartIntro(t, root, nyt, t2, n, m);
  }

  /** The NYT's sibling: swapped to the top of its block of leaves and incremented, it hands the climb to its parent. */
  lemma SiblingEntry(t: Tree, root: nat, nyt: nat, n: nat)
    requires TreeInv(t, root, nyt) && nyt != root
    requires n < |t| && n != nyt && t[n].IsLeaf() && t[n].parent == t[nyt].parent
    ensures SwapToTop(t, root, n, true)[n].parent.Some?
    ensures ClimbStart(t, root, nyt, Incremented(SwapToTop(t, root, n, true), n), n, SwapToTop(t, root, n, true)[n].parent.value)
  {
    assert Candidate(t, root, t[n].weight, true, n);
    var h := MaxInBlock(t, root, t[n].weight, true).value;
    if h == n {
      SiblingEntryNoSwap(t, root, nyt, n, SwapToTop(t, root, n, true));
    } else {
      SiblingEntrySwap(t, root, nyt, n, h, SwapToTop(t, root, n, true));
    }
  }
}
