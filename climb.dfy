/**
 * The search for a swap partner (findMaximumNodeInBlock / findMaximumLeafInBlock) and
 * the climb of update: from the cursor up to the root, swap the cursor with the
 * highest-numbered node of its weight, increment it, move to its parent.
 */
module Climbing {
  import opened Wrappers
  import opened Nodes
  import opened TreeShape
  import opened Restructure

  /** A node the search may return: not the root, of the given weight, a leaf if asked. */
  predicate Candidate(t: Tree, root: nat, w: nat, leavesOnly: bool, j: nat)
    requires j < |t|
  {
    j != root && (leavesOnly ==> t[j].IsLeaf()) && t[j].weight == w
  }

  /** The search after it has looked at the first k entries of the node list. */
  function MaxInPrefix(t: Tree, root: nat, w: nat, leavesOnly: bool, k: nat): (m: Option<nat>)
    requires k <= |t|
    ensures m.Some? ==> m.value < k && Candidate(t, root, w, leavesOnly, m.value)
    ensures m.Some? ==> forall j | 0 <= j < k && Candidate(t, root, w, leavesOnly, j) :: t[j].number <= t[m.value].number
    ensures m.None? ==> forall j | 0 <= j < k :: !Candidate(t, root, w, leavesOnly, j)
  {
    if k == 0 then None
    else
      var m := MaxInPrefix(t, root, w, leavesOnly, k - 1);
      var n := k - 1;
      if n == root || (leavesOnly && !t[n].IsLeaf()) then m
      else if m.None? && t[n].weight == w then Some(n)
      else if t[n].weight == w then (if t[m.value].number < t[n].number then Some(n) else m)
      else m
  }

  /** The highest-numbered candidate of weight w, or None when there is none. */
  function MaxInBlock(t: Tree, root: nat, w: nat, leavesOnly: bool): (m: Option<nat>)
    ensures m.Some? ==> m.value < |t| && Candidate(t, root, w, leavesOnly, m.value)
    ensures m.Some? ==> forall j | 0 <= j < |t| && Candidate(t, root, w, leavesOnly, j) :: t[j].number <= t[m.value].number
    ensures m.None? ==> forall j | 0 <= j < |t| :: !Candidate(t, root, w, leavesOnly, j)
  {
    MaxInPrefix(t, root, w, leavesOnly, |t|)
  }

  /** With distinct node numbers a candidate that outnumbers all others is the one found. */
  lemma MaxInBlockIsTop(t: Tree, root: nat, w: nat, leavesOnly: bool, x: nat)
    requires InRange(t) && root < |t| && Numbered(t, root)
    requires x < |t| && Candidate(t, root, w, leavesOnly, x)
    requires forall j | 0 <= j < |t| && Candidate(t, root, w, leavesOnly, j) :: t[j].number <= t[x].number
    ensures MaxInBlock(t, root, w, leavesOnly) == Some(x)
  {
    var m := MaxInBlock(t, root, w, leavesOnly);
    assert t[m.value].number == t[x].number;
  }

  /**
   * The first half of a step: swap the cursor n with the top of its block (of leaves only,
   * if asked), if that is another node.
   */
  function SwapToTop(t: Tree, root: nat, n: nat, leavesOnly: bool): (s: Tree)
    requires n < |t|
    ensures |s| == |t|
  {
    var h := MaxInBlock(t, root, t[n].weight, leavesOnly);
    if h.Some? && h.value != n then Swapped(t, n, h.value) else t
  }

  /** One turn of the climb for a non-root cursor n: swap it to the top of its block, then increment it. */
  function Step(t: Tree, root: nat, n: nat): (s: Tree)
    requires n < |t|
    ensures |s| == |t|
  {
    Incremented(SwapToTop(t, root, n, false), n)
  }

  lemma IncrementKeepsShape(t: Tree, root: nat, nyt: nat, x: nat)
    requires Struct(t, root) && NytShape(t, root, nyt) && Positive(t, nyt) && x < |t| && x != nyt
    ensures Struct(Incremented(t, x), root) && NytShape(Incremented(t, x), root, nyt) && Positive(Incremented(t, x), nyt)
    ensures forall i | 0 <= i < |t| :: Incremented(t, x)[i].IsLeaf() == t[i].IsLeaf()
  {
    var s := Incremented(t, x);
    assert SameShape(t, s);
    ShapeStruct(t, s, root);
    ShapeNyt(t, s, root, nyt);
  }

  /** The sibling of a cursor numbered above the NYT's sibling is not the NYT. */
  lemma SiblingNotNyt(t: Tree, root: nat, nyt: nat, n: nat, p: nat)
    requires Struct(t, root) && NytShape(t, root, nyt)
    requires n < |t| && p < |t| && t[n].parent == Some(p) && t[nyt].number + 2 <= t[n].number
    ensures t[p].left.value != nyt && t[p].right.value != nyt
    ensures t[p].left == Some(n) || t[p].right == Some(n)
  {
    assert t[p].left == Some(n) || t[p].right == Some(n);
  }

  /** Below the root, the cursor is lighter than its parent and than the root. */
  lemma ParentHeavier(t: Tree, root: nat, nyt: nat, n: nat)
    requires ClimbInv(t, root, nyt, n) && n != root
    ensures t[n].parent.Some? && t[n].parent.value < |t|
    ensures t[t[n].parent.value].weight > t[n].weight
    ensures t[root].weight > t[n].weight
  {
    var p := t[n].parent.value;
    assert LinkIn(t[n].parent, |t|);
    SiblingNotNyt(t, root, nyt, n, p);
    assert SumAt(t, p);
    var l, r := t[p].left.value, t[p].right.value;
    assert t[l].weight >= 1 && t[r].weight >= 1;
    if p != root {
      assert t[p].number < t[root].number;
    }
  }

  /** A child is lighter than its parent when its sibling is not the NYT. */
  lemma ChildLighter(t: Tree, nyt: nat, h: nat, c: nat)
    requires InRange(t) && Binary(t) && Links(t) && Positive(t, nyt)
    requires h < |t| && c < |t| && nyt < |t| && t[c].parent == Some(h) && t[nyt].parent != Some(h) && SumAt(t, h)
    ensures t[c].weight < t[h].weight
  {
    assert t[h].left == Some(c) || t[h].right == Some(c);
    var o := if t[h].left == Some(c) then t[h].right.value else t[h].left.value;
    assert t[o].parent == Some(h);
    assert o != nyt;
  }

  /** A child of a node in the cursor's block is numbered below the cursor. */
  lemma BlockChildBelow(t: Tree, root: nat, nyt: nat, n: nat, h: nat, c: nat)
    requires ClimbInv(t, root, nyt, n)
    requires h < |t| && t[h].weight == t[n].weight && t[n].number < t[h].number
    requires c < |t| && t[c].parent == Some(h)
    ensures t[c].number < t[n].number
  {
    if nyt != root {
      assert t[t[nyt].parent.value].number == t[nyt].number + 2;
    }
    assert t[nyt].parent != Some(h);
    assert SumAt(t, h);
    ChildLighter(t, nyt, h, c);
  }

  /** A cursor may swap with an equal-weight node numbered above it. */
  lemma SwapAllowed(t: Tree, root: nat, nyt: nat, n: nat, h: nat)
    requires ClimbInv(t, root, nyt, n) && n != root
    requires h < |t| && h != n && Candidate(t, root, t[n].weight, false, h) && t[n].number < t[h].number
    ensures SwapOk(t, root, n, h)
    ensures h != nyt && (nyt != root ==> t[nyt].parent.value != h)
  {
    ParentHeavier(t, root, nyt, n);
    forall c | 0 <= c < |t| && t[c].parent == Some(h)
      ensures t[c].number < t[n].number
    {
      BlockChildBelow(t, root, nyt, n, h, c);
    }
  }

  /** Swapping the cursor with another node of its weight keeps the tree's shape and sums. */
  lemma SwapStepShape(t: Tree, root: nat, nyt: nat, n: nat, h: nat)
    requires Struct(t, root) && NytShape(t, root, nyt) && Positive(t, nyt)
    requires n < |t| && h < |t| && SumsExcept(t, n) && SwapOk(t, root, n, h) && t[n].weight == t[h].weight
    requires n != nyt && h != nyt && (nyt != root ==> t[nyt].parent.value != n && t[nyt].parent.value != h)
    ensures Struct(Swapped(t, n, h), root) && NytShape(Swapped(t, n, h), root, nyt)
    ensures Positive(Swapped(t, n, h), nyt) && SumsExcept(Swapped(t, n, h), n)
    ensures Swapped(t, n, h)[nyt] == t[nyt]
    ensures Swapped(t, n, h)[root].number == t[root].number && Swapped(t, n, h)[root].weight == t[root].weight
    ensures Swapped(t, n, h)[n].number == t[h].number
    ensures forall i | 0 <= i < |t| :: Swapped(t, n, h)[i].IsLeaf() == t[i].IsLeaf()
    ensures forall i | 0 <= i < |t| :: Swapped(t, n, h)[i].weight == t[i].weight
  {
    SwappedNumbers(t, n, h);
    SwapKeepsStruct(t, root, n, h);
    SwapKeepsSums(t, n, h, n);
    SwapKeepsNyt(t, root, nyt, n, h);
    var s := Swapped(t, n, h);
    assert s[root] == SwappedNode(t, n, h, root);
    assert s[nyt] == SwappedNode(t, n, h, nyt);
    assert s[n] == SwappedNode(t, n, h, n);
  }

  /** After the swap the cursor holds the top of its block and the sibling property holds. */
  lemma SwapStepOrder(t: Tree, root: nat, n: nat, h: nat)
    requires n < |t| && h < |t| && root < |t| && h != n && n != root && OrderedBut(t, root, n)
    requires Candidate(t, root, t[n].weight, false, h) && t[n].number < t[h].number
    requires forall j | 0 <= j < |t| && Candidate(t, root, t[n].weight, false, j) :: t[j].number <= t[h].number
    ensures Ordered(Swapped(t, n, h)) && TopOfBlock(Swapped(t, n, h), root, n)
  {
    assert Ordered(t) by {
      assert !TopOfBlock(t, root, n);
    }
    SwapKeepsOrdered(t, n, h);
    SwappedNumbers(t, n, h);
    var s := Swapped(t, n, h);
    forall j | 0 <= j < |s| && j != root && s[j].weight == s[n].weight
      ensures s[j].number <= s[n].number
    {
      assert Candidate(t, root, t[n].weight, false, Partner(j, n, h));
    }
  }

  lemma OrderedIsOrderedBut(t: Tree, root: nat, n: nat)
    requires n < |t| && Ordered(t)
    ensures OrderedBut(t, root, n)
  {
  }

  /** The swap branch of a step, from the facts the swap lemmas establish. */
  lemma SwapBranch(t: Tree, root: nat, nyt: nat, n: nat, h: nat)
    requires n < |t| && h < |t|
    requires Struct(t, root) && NytShape(t, root, nyt) && Positive(t, nyt) && SumsExcept(t, n) && OrderedBut(t, root, n)
    requires n != root && h != n && n != nyt && h != nyt && SwapOk(t, root, n, h)
    requires MaxInBlock(t, root, t[n].weight, false) == Some(h)
    requires t[nyt].number + 2 <= t[n].number && t[n].number < t[h].number
    requires nyt != root ==> t[nyt].parent.value != n && t[nyt].parent.value != h
    ensures ClimbInv(SwapToTop(t, root, n, false), root, nyt, n) && TopOfBlock(SwapToTop(t, root, n, false), root, n)
    ensures t[n].number <= SwapToTop(t, root, n, false)[n].number
    ensures SwapToTop(t, root, n, false)[nyt] == t[nyt]
    ensures SwapToTop(t, root, n, false)[root].number == t[root].number && SwapToTop(t, root, n, false)[root].weight == t[root].weight
    ensures forall i | 0 <= i < |t| :: SwapToTop(t, root, n, false)[i].IsLeaf() == t[i].IsLeaf()
    ensures forall i | 0 <= i < |t| :: SwapToTop(t, root, n, false)[i].weight == t[i].weight
  {
    SwapStepShape(t, root, nyt, n, h);
    SwapStepOrder(t, root, n, h);
    OrderedIsOrderedBut(Swapped(t, n, h), root, n);
    assert SwapToTop(t, root, n, false) == Swapped(t, n, h);
  }

  /** A cursor already on top of its block stays where it is. */
  lemma TopStays(t: Tree, root: nat, nyt: nat, n: nat)
    requires ClimbInv(t, root, nyt, n) && n != root && MaxInBlock(t, root, t[n].weight, false) == Some(n)
    ensures SwapToTop(t, root, n, false) == t && TopOfBlock(t, root, n)
  {
  }

  /** The swap half of a step leaves the climb invariant in place with the cursor on top of its block. */
  lemma StepSwap(t: Tree, root: nat, nyt: nat, n: nat)
    requires ClimbInv(t, root, nyt, n) && n != root
    ensures ClimbInv(SwapToTop(t, root, n, false), root, nyt, n) && TopOfBlock(SwapToTop(t, root, n, false), root, n)
    ensures t[n].number <= SwapToTop(t, root, n, false)[n].number
    ensures SwapToTop(t, root, n, false)[nyt] == t[nyt]
    ensures SwapToTop(t, root, n, false)[root].number == t[root].number && SwapToTop(t, root, n, false)[root].weight == t[root].weight
    ensures forall i | 0 <= i < |t| :: SwapToTop(t, root, n, false)[i].IsLeaf() == t[i].IsLeaf()
    ensures forall i | 0 <= i < |t| :: SwapToTop(t, root, n, false)[i].weight == t[i].weight
  {
    assert Candidate(t, root, t[n].weight, false, n);
    var h := MaxInBlock(t, root, t[n].weight, false).value;
    if h == n {
      TopStays(t, root, nyt, n);
      return;
    }
    assert t[n].number < t[h].number;
    SwapAllowed(t, root, nyt, n, h);
    assert t[nyt].parent != Some(n);
    SwapBranch(t, root, nyt, n, h);
  }

  /** Incrementing the cursor hands the missing increment on to its parent. */
  lemma IncrementSums(t: Tree, n: nat, p: nat)
    requires InRange(t) && Binary(t) && Links(t) && n < |t| && p < |t| && n != p
    requires t[n].parent == Some(p) && SumsExcept(t, n)
    ensures InRange(Incremented(t, n)) && SumsExcept(Incremented(t, n), p)
  {
    var s := Incremented(t, n);
    assert forall i | 0 <= i < |t| :: s[i].(weight := 0) == t[i].(weight := 0);
    forall i | 0 <= i < |s| && i != p
      ensures SumAt(s, i)
    {
      assert SumAt(t, i) || i == n;
      if Internal(s, i) {
        assert t[i].left != Some(n) && t[i].right != Some(n);
      }
    }
    assert SumAt(t, p);
  }

  /** Incrementing a cursor on top of its block, lighter than the root, restores the sibling property. */
  lemma IncrementOrdered(t: Tree, root: nat, n: nat)
    requires n < |t| && root < |t| && n != root && OrderedBut(t, root, n) && TopOfBlock(t, root, n)
    requires t[n].weight < t[root].weight
    ensures Ordered(Incremented(t, n))
  {
  }

  /** The increment half of a step: the cursor moves to its parent with the climb invariant intact. */
  lemma StepIncrement(t: Tree, root: nat, nyt: nat, n: nat)
    requires ClimbInv(t, root, nyt, n) && TopOfBlock(t, root, n) && n != root
    ensures t[n].parent.Some? && t[n].parent.value < |t| && t[t[n].parent.value].number > t[n].number
    ensures ClimbInv(Incremented(t, n), root, nyt, t[n].parent.value)
    ensures Incremented(t, n)[n].number == t[n].number && Incremented(t, n)[root].number == t[root].number
    ensures Incremented(t, n)[nyt] == t[nyt]
    ensures forall i | 0 <= i < |t| :: Incremented(t, n)[i].IsLeaf() == t[i].IsLeaf()
  {
    var p := t[n].parent.value;
    ParentHeavier(t, root, nyt, n);
    IncrementKeepsShape(t, root, nyt, n);
    IncrementSums(t, n, p);
    IncrementOrdered(t, root, n);
    var s := Incremented(t, n);
    OrderedIsOrderedBut(s, root, p);
    assert t[nyt].parent != Some(p) by {
      SiblingNotNyt(t, root, nyt, n, p);
    }
  }

  /** A step keeps the climb invariant, moving the cursor to a node numbered higher up. */
  lemma StepKeepsClimb(t: Tree, root: nat, nyt: nat, n: nat)
    requires ClimbInv(t, root, nyt, n) && n != root
    ensures Step(t, root, n)[n].parent.Some?
    ensures var s, p := Step(t, root, n), Step(t, root, n)[n].parent.value;
      p < |s| && ClimbInv(s, root, nyt, p) &&
      s[root].number == t[root].number && s[root].weight == t[root].weight &&
      t[n].number < s[p].number && s[nyt] == t[nyt] && !s[p].IsLeaf() &&
      (forall i | 0 <= i < |t| :: s[i].IsLeaf() == t[i].IsLeaf()) &&
      (forall i | 0 <= i < |t| && i != n :: s[i].weight == t[i].weight) && s[n].weight == t[n].weight + 1
  {
    var t1 := SwapToTop(t, root, n, false);
    StepSwap(t, root, nyt, n);
    StepIncrement(t1, root, nyt, n);
    var s := Incremented(t1, n);
    assert Step(t, root, n) == s;
    IncrementedAt(t1, n);
    StepChain(t, t1, s, n);
    var p := t1[n].parent.value;
    assert s[n].parent == t1[n].parent;
    assert p != n && s[p] == t1[p];
    assert t1[p].left == Some(n) || t1[p].right == Some(n);
    assert s[root] == t1[root];
  }

  /** incrementWeight touches the weight of one node and nothing else. */
  lemma IncrementedAt(t: Tree, x: nat)
    requires x < |t|
    ensures Incremented(t, x)[x].weight == t[x].weight + 1
    ensures Incremented(t, x)[x] == t[x].(weight := t[x].weight + 1)
    ensures forall i | 0 <= i < |t| && i != x :: Incremented(t, x)[i] == t[i]
  {
  }

  /** The leaves and weights a step keeps, from those its two halves keep. */
  lemma StepChain(t: Tree, t1: Tree, s: Tree, n: nat)
    requires |t1| == |t| && |s| == |t| && n < |t|
    requires forall i | 0 <= i < |t| :: t1[i].IsLeaf() == t[i].IsLeaf()
    requires forall i | 0 <= i < |t| :: t1[i].weight == t[i].weight
    requires s[n] == t1[n].(weight := t1[n].weight + 1)
    requires forall i | 0 <= i < |t| && i != n :: s[i] == t1[i]
    ensures forall i | 0 <= i < |t| :: s[i].IsLeaf() == t[i].IsLeaf()
    ensures forall i | 0 <= i < |t| && i != n :: s[i].weight == t[i].weight
    ensures s[n].weight == t[n].weight + 1
  {
  }

  /** Incrementing a node that lacks its increment and has no parent completes the sums. */
  lemma RootSums(t: Tree, root: nat)
    requires InRange(t) && Binary(t) && Links(t) && root < |t| && t[root].parent.None? && SumsExcept(t, root)
    ensures InRange(Incremented(t, root)) && Sums(Incremented(t, root))
  {
    var s := Incremented(t, root);
    assert forall i | 0 <= i < |t| :: s[i].(weight := 0) == t[i].(weight := 0);
    forall i | 0 <= i < |s|
      ensures SumAt(s, i)
    {
      assert SumAt(t, i) || i == root;
      if Internal(s, i) {
        assert t[i].left != Some(root) && t[i].right != Some(root);
      }
    }
  }

  /** Incrementing the highest-numbered node keeps the sibling property. */
  lemma RootOrdered(t: Tree, root: nat)
    requires root < |t| && OrderedBut(t, root, root)
    requires forall i | 0 <= i < |t| :: t[i].number <= t[root].number
    ensures Ordered(Incremented(t, root))
  {
  }

  /** The climb's last turn: incrementing the root restores the full invariant. */
  lemma RootStep(t: Tree, root: nat, nyt: nat)
    requires ClimbInv(t, root, nyt, root)
    ensures TreeInv(Incremented(t, root), root, nyt)
    ensures Incremented(t, root)[root].weight == t[root].weight + 1 && Incremented(t, root)[nyt] == t[nyt]
    ensures forall i | 0 <= i < |t| :: Incremented(t, root)[i].IsLeaf() == t[i].IsLeaf()
  {
    IncrementOnly(t, root, nyt);
    IncrementKeepsShape(t, root, nyt, root);
    RootSums(t, root);
    RootOrdered(t, root);
  }

  lemma IncrementOnly(t: Tree, x: nat, y: nat)
    requires x < |t| && y < |t| && x != y
    ensures Incremented(t, x)[x].weight == t[x].weight + 1 && Incremented(t, x)[y] == t[y]
    ensures forall i | 0 <= i < |t| :: Incremented(t, x)[i].IsLeaf() == t[i].IsLeaf()
  {
  }

  /**
   * The loop of update from cursor n to the root: every node on the way ends one heavier
   * than it was, after being swapped to the top of its weight block; the result is again
   * a Huffman tree with the sibling property, one heavier at the root.
   */
  function Climb(t: Tree, root: nat, nyt: nat, n: nat): (r: Tree)
    requires ClimbInv(t, root, nyt, n)
    ensures |r| == |t|
    decreases t[root].number - t[n].number
  {
    if n == root then
      Incremented(t, root)
    else
      var s := Step(t, root, n);
      StepKeepsClimb(t, root, nyt, n);
      Climb(s, root, nyt, s[n].parent.value)
  }

  /**
   * The climb's result is again a Huffman tree with the sibling property, one heavier at
   * the root, with the same NYT and the same leaves.
   */
  lemma {:induction false} ClimbKeeps(t: Tree, root: nat, nyt: nat, n: nat)
    requires ClimbInv(t, root, nyt, n)
    ensures var r := Climb(t, root, nyt, n);
      TreeInv(r, root, nyt) && r[root].weight == t[root].weight + 1 && r[nyt] == t[nyt] &&
      forall i | 0 <= i < |t| :: r[i].IsLeaf() == t[i].IsLeaf()
    decreases t[root].number - t[n].number
  {
    if n == root {
      RootStep(t, root, nyt);
    } else {
      var s := Step(t, root, n);
      StepKeepsClimb(t, root, nyt, n);
      var p := s[n].parent.value;
      ClimbKeeps(s, root, nyt, p);
      assert Climb(t, root, nyt, n) == Climb(s, root, nyt, p);
      ClimbCarry(t, s, Climb(s, root, nyt, p), root, nyt);
    }
  }

  /** What one step keeps fixed carries the rest of the climb's guarantees back to its start. */
  lemma ClimbCarry(t: Tree, s: Tree, r: Tree, root: nat, nyt: nat)
    requires |s| == |t| && |r| == |s| && root < |t| && nyt < |t|
    requires s[root].weight == t[root].weight && s[nyt] == t[nyt]
    requires r[root].weight == s[root].weight + 1 && r[nyt] == s[nyt]
    requires forall i | 0 <= i < |t| :: s[i].IsLeaf() == t[i].IsLeaf()
    requires forall i | 0 <= i < |s| :: r[i].IsLeaf() == s[i].IsLeaf()
    ensures r[root].weight == t[root].weight + 1 && r[nyt] == t[nyt]
    ensures forall i | 0 <= i < |t| :: r[i].IsLeaf() == t[i].IsLeaf()
  {
  }

  /**
   * The climb adds one to the cursor and changes the weight of no other leaf: a leaf's
   * weight counts the symbols it has seen.
   */
  lemma {:induction false} ClimbLeafWeights(t: Tree, root: nat, nyt: nat, n: nat)
    requires ClimbInv(t, root, nyt, n)
    ensures forall i | 0 <= i < |t| && i != n && t[i].IsLeaf() :: Climb(t, root, nyt, n)[i].weight == t[i].weight
    ensures t[n].IsLeaf() ==> Climb(t, root, nyt, n)[n].weight == t[n].weight + 1
    decreases t[root].number - t[n].number
  {
    if n != root {
      var s := Step(t, root, n);
      StepKeepsClimb(t, root, nyt, n);
      var p := s[n].parent.value;
      ClimbLeafWeights(s, root, nyt, p);
      assert Climb(t, root, nyt, n) == Climb(s, root, nyt, p);
      LeafStepChain(t, s, Climb(s, root, nyt, p), n, p);
    }
  }

  /** Leaf weights through a step that adds one to n and a climb from n's parent p that adds one to no leaf but p. */
  lemma LeafStepChain(t: Tree, s: Tree, r: Tree, n: nat, p: nat)
    requires |s| == |t| && |r| == |s| && n < |t| && p < |t| && !s[p].IsLeaf()
    requires forall i | 0 <= i < |t| :: s[i].IsLeaf() == t[i].IsLeaf()
    requires forall i | 0 <= i < |t| && i != n :: s[i].weight == t[i].weight
    requires s[n].weight == t[n].weight + 1
    requires forall i | 0 <= i < |s| && i != p && s[i].IsLeaf() :: r[i].weight == s[i].weight
    ensures forall i | 0 <= i < |t| && i != n && t[i].IsLeaf() :: r[i].weight == t[i].weight
    ensures t[n].IsLeaf() ==> r[n].weight == t[n].weight + 1
  {
  }
}
