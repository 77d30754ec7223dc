/**
 * The state of an adaptive Huffman model as a value: the node list (the arena), the
 * root and NYT indices, and the two registries that map transmitted symbols to their
 * leaves and back. Reset and update as functions on it, with the invariant they keep.
 */
module ModelState {
  import opened Wrappers
  import opened Nodes
  import opened TreeShape
  import opened Restructure
  import opened Climbing
  import opened Split
  import opened Entry

  datatype State = State(nodes: Tree, root: nat, nyt: nat, transmitted: map<char, nat>, charByNode: map<nat, char>)

  /**
   * transmitted sends each symbol seen so far to its own leaf (never the NYT), charByNode
   * is its inverse, and every leaf other than the NYT belongs to some symbol. While the
   * NYT is the root nothing has been transmitted.
   */
  ghost predicate Registry(s: State)
  {
    (forall c | c in s.transmitted ::
       s.transmitted[c] < |s.nodes| && s.transmitted[c] != s.nyt && s.nodes[s.transmitted[c]].IsLeaf() &&
       s.transmitted[c] in s.charByNode && s.charByNode[s.transmitted[c]] == c) &&
    (forall x | x in s.charByNode :: s.charByNode[x] in s.transmitted && s.transmitted[s.charByNode[x]] == x) &&
    (forall x | 0 <= x < |s.nodes| && x != s.nyt && s.nodes[x].IsLeaf() :: x in s.charByNode) &&
    (s.nyt == s.root ==> s.transmitted == map[])
  }

  ghost predicate Valid(s: State)
  {
    TreeInv(s.nodes, s.root, s.nyt) && Registry(s)
  }

  /** How often symbol c has been counted: the weight of its leaf, zero before its first occurrence. */
  function Count(s: State, c: char): nat
  {
    if c in s.transmitted && s.transmitted[c] < |s.nodes| then s.nodes[s.transmitted[c]].weight else 0
  }

  /** The weight of the root: how many symbols the model has seen. */
  function RootWeight(s: State): nat
  {
    if s.root < |s.nodes| then s.nodes[s.root].weight else 0
  }

  /** reset: a lone NYT leaf numbered 2 * size - 1 is the whole tree, and nothing has been transmitted. */
  function Reset(size: nat): (s: State)
    ensures Valid(s) && |s.nodes| == 1 && RootWeight(s) == 0
    ensures s.root == s.nyt && s.nodes[s.root].number == 2 * size - 1 && s.transmitted == map[]
    ensures forall c :: Count(s, c) == 0
  {
    State([Node(None, None, None, 0, 2 * size - 1)], 0, 0, map[], map[])
  }

  /** Replacing the node list by one of the same length with the same leaves keeps the registries. */
  lemma RegistryKept(s: State, nodes: Tree)
    requires Registry(s) && |nodes| == |s.nodes|
    requires forall i | 0 <= i < |nodes| :: nodes[i].IsLeaf() == s.nodes[i].IsLeaf()
    ensures Registry(s.(nodes := nodes))
  {
  }

  /** splitNYT(c) on the state: the tree is split and c is registered with the new leaf. */
  function SplitState(s: State, c: char): (r: State)
    requires s.nyt < |s.nodes|
    ensures r.nyt == |s.nodes| + 1 && r.root == s.root && r.nodes == SplitTree(s.nodes, s.nyt)
    ensures r.transmitted == s.transmitted[c := |s.nodes|]
  {
    var ext := |s.nodes|;
    State(SplitTree(s.nodes, s.nyt), s.root, ext + 1, s.transmitted[c := ext], s.charByNode[ext := c])
  }

  lemma SplitRegistry(s: State, c: char)
    requires Registry(s) && s.nyt < |s.nodes| && s.root < |s.nodes| && s.nodes[s.nyt].IsLeaf()
    requires c !in s.transmitted
    ensures Registry(SplitState(s, c))
  {
    var r := SplitState(s, c);
    var t := s.nodes;
    var ext := |t|;
    assert r.charByNode == s.charByNode[ext := c];
    assert s.nyt !in s.charByNode;
    assert ext !in s.charByNode;
    forall d | d in r.transmitted
      ensures r.transmitted[d] < |r.nodes| && r.transmitted[d] != r.nyt && r.nodes[r.transmitted[d]].IsLeaf()
      ensures r.transmitted[d] in r.charByNode && r.charByNode[r.transmitted[d]] == d
    {
      var x := r.transmitted[d];
      assert r.nodes[x] == SplitNode(t, s.nyt, x);
    }
    forall x | 0 <= x < |r.nodes| && x != r.nyt && r.nodes[x].IsLeaf()
      ensures x in r.charByNode
    {
      assert r.nodes[x] == SplitNode(t, s.nyt, x);
    }
  }

  /** A node list in which only c's leaf gained weight, among the leaves, counts c once more. */
  lemma CountsAfter(s: State, r: Tree, c: char)
    requires Registry(s) && |r| == |s.nodes| && c in s.transmitted
    requires forall i | 0 <= i < |r| && i != s.transmitted[c] && s.nodes[i].IsLeaf() :: r[i].weight == s.nodes[i].weight
    requires r[s.transmitted[c]].weight == s.nodes[s.transmitted[c]].weight + 1
    ensures forall d :: Count(s.(nodes := r), d) == Count(s, d) + (if d == c then 1 else 0)
  {
    forall d
      ensures Count(s.(nodes := r), d) == Count(s, d) + (if d == c then 1 else 0)
    {
      if d in s.transmitted && d != c {
        assert s.charByNode[s.transmitted[d]] == d;
      }
    }
  }

  /** The climb's result in place of the node list keeps the state valid and adds one at the root. */
  lemma ClimbState(s: State, t: Tree, m: nat)
    requires Registry(s) && ClimbInv(t, s.root, s.nyt, m) && |t| == |s.nodes|
    requires forall i | 0 <= i < |t| :: t[i].IsLeaf() == s.nodes[i].IsLeaf()
    ensures Valid(s.(nodes := Climb(t, s.root, s.nyt, m)))
    ensures Climb(t, s.root, s.nyt, m)[s.root].weight == t[s.root].weight + 1
  {
    var r := Climb(t, s.root, s.nyt, m);
    ClimbKeeps(t, s.root, s.nyt, m);
    SameLeavesChain(s.nodes, t, r);
    ValidWith(s, r);
  }

  lemma SameLeavesChain(a: Tree, b: Tree, c: Tree)
    requires |a| == |b| == |c|
    requires forall i | 0 <= i < |b| :: b[i].IsLeaf() == a[i].IsLeaf()
    requires forall i | 0 <= i < |b| :: c[i].IsLeaf() == b[i].IsLeaf()
    ensures forall i | 0 <= i < |c| :: c[i].IsLeaf() == a[i].IsLeaf()
  {
  }

  /** A node list that is a Huffman tree with the same leaves as before makes the state valid. */
  lemma ValidWith(s: State, r: Tree)
    requires Registry(s) && TreeInv(r, s.root, s.nyt) && |r| == |s.nodes|
    requires forall i | 0 <= i < |r| :: r[i].IsLeaf() == s.nodes[i].IsLeaf()
    ensures Valid(s.(nodes := r))
  {
    RegistryKept(s, r);
    var s' := s.(nodes := r);
    assert s'.nodes == r && s'.root == s.root && s'.nyt == s.nyt;
  }

  /** A symbol seen before whose leaf is not the NYT's sibling: climb from its leaf. */
  function UpdateLeaf(s: State, c: char): (r: State)
    requires Valid(s) && c in s.transmitted
    requires s.nodes[s.transmitted[c]].parent != s.nodes[s.nyt].parent
    ensures Valid(r) && r.transmitted == s.transmitted && r.root == s.root
    ensures RootWeight(r) == RootWeight(s) + 1
    ensures forall d :: Count(r, d) == Count(s, d) + (if d == c then 1 else 0)
  {
    var n := s.transmitted[c];
    LeafEntry(s.nodes, s.root, s.nyt, n);
    ClimbState(s, s.nodes, n);
    ClimbLeafWeights(s.nodes, s.root, s.nyt, n);
    CountsAfter(s, Climb(s.nodes, s.root, s.nyt, n), c);
    s.(nodes := Climb(s.nodes, s.root, s.nyt, n))
  }

  /** A climb that starts after c's leaf n has been incremented counts c once more. */
  function ClimbAfterLeaf(s: State, t2: Tree, n: nat, m: nat, c: char): (r: State)
    requires Registry(s) && ClimbStart(s.nodes, s.root, s.nyt, t2, n, m)
    requires c in s.transmitted && s.transmitted[c] == n && s.root != n
    ensures Valid(r) && r.transmitted == s.transmitted && r.root == s.root
    ensures RootWeight(r) == RootWeight(s) + 1
    ensures forall d :: Count(r, d) == Count(s, d) + (if d == c then 1 else 0)
  {
    var r := Climb(t2, s.root, s.nyt, m);
    ClimbState(s, t2, m);
    ClimbLeafWeights(t2, s.root, s.nyt, m);
    LeafStepChain(s.nodes, t2, r, n, m);
    CountsAfter(s, r, c);
    s.(nodes := r)
  }

  /** A symbol whose leaf is the NYT's sibling: swap it to the top of its block of leaves, increment it, climb from its parent. */
  function UpdateSibling(s: State, c: char): (r: State)
    requires Valid(s) && c in s.transmitted
    requires s.nodes[s.transmitted[c]].parent == s.nodes[s.nyt].parent
    ensures Valid(r) && r.transmitted == s.transmitted && r.root == s.root
    ensures RootWeight(r) == RootWeight(s) + 1
    ensures forall d :: Count(r, d) == Count(s, d) + (if d == c then 1 else 0)
  {
    var n := s.transmitted[c];
    var t1 := SwapToTop(s.nodes, s.root, n, true);
    var t2 := Incremented(t1, n);
    assert s.nyt != s.root;
    SiblingEntry(s.nodes, s.root, s.nyt, n);
    ClimbAfterLeaf(s, t2, n, t1[n].parent.value, c)
  }

  /** Splitting the NYT for c counts c once and leaves every other count alone. */
  lemma SplitCounts(s: State, c: char)
    requires Registry(s) && s.nyt < |s.nodes| && c !in s.transmitted
    ensures forall d :: Count(SplitState(s, c), d) == Count(s, d) + (if d == c then 1 else 0)
  {
    var r := SplitState(s, c);
    var t := s.nodes;
    forall d
      ensures Count(r, d) == Count(s, d) + (if d == c then 1 else 0)
    {
      if d == c {
        assert r.nodes[|t|] == SplitNode(t, s.nyt, |t|);
      } else if d in s.transmitted {
        var x := s.transmitted[d];
        assert r.nodes[x] == SplitNode(t, s.nyt, x);
      }
    }
  }

  /** A climb from an internal node changes no leaf's weight, hence no count. */
  lemma ClimbKeepsCounts(s: State, m: nat)
    requires Registry(s) && ClimbInv(s.nodes, s.root, s.nyt, m) && !s.nodes[m].IsLeaf()
    ensures forall d :: Count(s.(nodes := Climb(s.nodes, s.root, s.nyt, m)), d) == Count(s, d)
  {
    ClimbLeafWeights(s.nodes, s.root, s.nyt, m);
  }

  /** A first occurrence: split the NYT and, unless the NYT was the root, climb from its parent. */
  function UpdateNew(s: State, c: char): (r: State)
    requires Valid(s) && c !in s.transmitted
    ensures Updated(s, r, c) && r.transmitted == s.transmitted[c := |s.nodes|]
  {
    if s.nyt == s.root then SplitAtRoot(s, c) else SplitAndClimb(s, c)
  }

  /** The first symbol after reset: the split alone is the whole update, since the old NYT was the root. */
  function SplitAtRoot(s: State, c: char): (r: State)
    requires Valid(s) && c !in s.transmitted && s.nyt == s.root
    ensures Updated(s, r, c) && r.transmitted == s.transmitted[c := |s.nodes|]
  {
    var r := SplitState(s, c);
    SplitEntry(s.nodes, s.root, s.nyt);
    SplitRegistry(s, c);
    SplitCounts(s, c);
    UpdatedIntro(s, r, c, |s.nodes|);
    r
  }

  /** A later first occurrence: split, then climb from the old NYT's parent. */
  function SplitAndClimb(s: State, c: char): (r: State)
    requires Valid(s) && c !in s.transmitted && s.nyt != s.root
    ensures Updated(s, r, c) && r.transmitted == s.transmitted[c := |s.nodes|]
  {
    var p := s.nodes[s.nyt].parent.value;
    SplitReady(s, c);
    var r := ClimbFrom(SplitState(s, c), p);
    UpdatedIntro(s, r, c, |s.nodes|);
    r
  }

  /** After a split below the root, the old NYT's parent is where the climb starts. */
  lemma SplitReady(s: State, c: char)
    requires Valid(s) && c !in s.transmitted && s.nyt != s.root
    ensures s.nodes[s.nyt].parent.Some? && s.nodes[s.nyt].parent.value < |s.nodes|
    ensures var s1, p := SplitState(s, c), s.nodes[s.nyt].parent.value;
      Registry(s1) && ClimbInv(s1.nodes, s1.root, s1.nyt, p) && !s1.nodes[p].IsLeaf() &&
      RootWeight(s1) == RootWeight(s) && forall d :: Count(s1, d) == Count(s, d) + (if d == c then 1 else 0)
  {
    var t := s.nodes;
    var s1 := SplitState(s, c);
    assert s1.nodes == SplitTree(t, s.nyt) && s1.root == s.root && s1.nyt == |t| + 1;
    SplitEntry(t, s.root, s.nyt);
    SplitRegistry(s, c);
    SplitCounts(s, c);
    var p := t[s.nyt].parent.value;
    assert s1.nodes[p].left.Some?;
  }

  /** The climb from internal node m as a step on the state: valid again, one heavier at the root, no count changed. */
  function ClimbFrom(s: State, m: nat): (r: State)
    requires Registry(s) && ClimbInv(s.nodes, s.root, s.nyt, m) && !s.nodes[m].IsLeaf()
    ensures Valid(r) && r.root == s.root && r.transmitted == s.transmitted
    ensures RootWeight(r) == RootWeight(s) + 1
    ensures forall d :: Count(r, d) == Count(s, d)
  {
    ClimbState(s, s.nodes, m);
    ClimbKeepsCounts(s, m);
    s.(nodes := Climb(s.nodes, s.root, s.nyt, m))
  }

  /**
   * What one update promises: the tree stays a Huffman tree with the sibling property and
   * the same root, c is transmitted, the root gains one and exactly c's count goes up by one.
   */
  ghost predicate Updated(s: State, r: State, c: char)
  {
    Valid(r) && r.root == s.root && RootWeight(r) == RootWeight(s) + 1 &&
    r.transmitted.Keys == s.transmitted.Keys + {c} &&
    forall d :: Count(r, d) == Count(s, d) + (if d == c then 1 else 0)
  }

  lemma UpdatedIntro(s: State, r: State, c: char, x: nat)
    requires Valid(r) && r.root == s.root && RootWeight(r) == RootWeight(s) + 1
    requires r.transmitted == s.transmitted[c := x]
    requires forall d :: Count(r, d) == Count(s, d) + (if d == c then 1 else 0)
    ensures Updated(s, r, c)
  {
  }

  /** A symbol seen before: its leaf is either the NYT's sibling or not. */
  function UpdateSeen(s: State, c: char): (r: State)
    requires Valid(s) && c in s.transmitted
    ensures Updated(s, r, c)
  {
    var n := s.transmitted[c];
    assert s.transmitted[c := n] == s.transmitted;
    if s.nodes[n].parent == s.nodes[s.nyt].parent then
      var r := UpdateSibling(s, c);
      UpdatedIntro(s, r, c, n);
      r
    else
      var r := UpdateLeaf(s, c);
      UpdatedIntro(s, r, c, n);
      r
  }

  /** update(c): rejected (None) for a symbol outside the alphabet, otherwise as Updated says. */
  function Update(s: State, alphabetIndexes: map<char, nat>, c: char): (r: Option<State>)
    requires Valid(s)
    ensures r.None? <==> c !in alphabetIndexes
    ensures r.Some? ==> Updated(s, r.value, c)
  {
    if c !in alphabetIndexes then None
    else if c !in s.transmitted then Some(UpdateNew(s, c))
    else Some(UpdateSeen(s, c))
  }

  /** How often c occurs in cs. */
  function Occurrences(cs: seq<char>, c: char): nat
  {
    if cs == [] then 0 else Occurrences(cs[..|cs| - 1], c) + (if cs[|cs| - 1] == c then 1 else 0)
  }

  /** The model after updating with each symbol of cs in turn; None once a symbol is rejected. */
  function UpdateAll(s: State, alphabetIndexes: map<char, nat>, cs: seq<char>): (r: Option<State>)
    requires Valid(s)
    ensures r.Some? ==> Valid(r.value)
  {
    if cs == [] then Some(s)
    else
      match UpdateAll(s, alphabetIndexes, cs[..|cs| - 1])
      case None => None
      case Some(s1) => Update(s1, alphabetIndexes, cs[|cs| - 1])
  }

  /**
   * After reset and any run of symbols of the alphabet, each symbol's leaf weighs as many
   * as its occurrences, and the root weighs the length of the run.
   */
  lemma CountsAreOccurrences(size: nat, alphabetIndexes: map<char, nat>, cs: seq<char>)
    requires forall i | 0 <= i < |cs| :: cs[i] in alphabetIndexes
    ensures UpdateAll(Reset(size), alphabetIndexes, cs).Some?
    ensures RootWeight(UpdateAll(Reset(size), alphabetIndexes, cs).value) == |cs|
    ensures forall d :: Count(UpdateAll(Reset(size), alphabetIndexes, cs).value, d) == Occurrences(cs, d)
  {
    CountsFromAll(Reset(size), alphabetIndexes, cs);
  }

  lemma CountsFromAll(s: State, alphabetIndexes: map<char, nat>, cs: seq<char>)
    requires Valid(s) && forall i | 0 <= i < |cs| :: cs[i] in alphabetIndexes
    ensures UpdateAll(s, alphabetIndexes, cs).Some?
    ensures RootWeight(UpdateAll(s, alphabetIndexes, cs).value) == RootWeight(s) + |cs|
    ensures forall d :: Count(UpdateAll(s, alphabetIndexes, cs).value, d) == Count(s, d) + Occurrences(cs, d)
  {
    CountsFrom(s, alphabetIndexes, cs, ' ');
    forall d
      ensures Count(UpdateAll(s, alphabetIndexes, cs).value, d) == Count(s, d) + Occurrences(cs, d)
    {
      CountsFrom(s, alphabetIndexes, cs, d);
    }
  }

  /** Updating with a run of symbols of the alphabet adds d's occurrences to d's count and the run's length to the root. */
  lemma {:induction false} CountsFrom(s: State, alphabetIndexes: map<char, nat>, cs: seq<char>, d: char)
    requires Valid(s) && forall i | 0 <= i < |cs| :: cs[i] in alphabetIndexes
    ensures UpdateAll(s, alphabetIndexes, cs).Some?
    ensures RootWeight(UpdateAll(s, alphabetIndexes, cs).value) == RootWeight(s) + |cs|
    ensures Count(UpdateAll(s, alphabetIndexes, cs).value, d) == Count(s, d) + Occurrences(cs, d)
  {
    if cs == [] {
      UpdateAllNil(s, alphabetIndexes, cs);
    } else {
      var init, c := cs[..|cs| - 1], cs[|cs| - 1];
      SnocSplit(cs);
      CountsFrom(s, alphabetIndexes, init, d);
      UpdateAllSnoc(s, alphabetIndexes, init, c);
      UpdateCounts(UpdateAll(s, alphabetIndexes, init).value, alphabetIndexes, c, d);
      OccurrencesSnoc(init, c, d);
    }
  }

  /** One update with a symbol of the alphabet adds one to the root and to that symbol's count. */
  lemma UpdateCounts(s: State, alphabetIndexes: map<char, nat>, c: char, d: char)
    requires Valid(s) && c in alphabetIndexes
    ensures Update(s, alphabetIndexes, c).Some?
    ensures RootWeight(Update(s, alphabetIndexes, c).value) == RootWeight(s) + 1
    ensures Count(Update(s, alphabetIndexes, c).value, d) == Count(s, d) + (if d == c then 1 else 0)
  {
  }

  lemma UpdateAllNil(s: State, alphabetIndexes: map<char, nat>, cs: seq<char>)
    requires Valid(s) && cs == []
    ensures UpdateAll(s, alphabetIndexes, cs) == Some(s)
  {
  }

  lemma UpdateAllSnoc(s: State, alphabetIndexes: map<char, nat>, cs: seq<char>, c: char)
    requires Valid(s) && UpdateAll(s, alphabetIndexes, cs).Some?
    ensures UpdateAll(s, alphabetIndexes, cs + [c]) == Update(UpdateAll(s, alphabetIndexes, cs).value, alphabetIndexes, c)
  {
    assert (cs + [c])[..|cs|] == cs;
  }

  lemma SnocSplit(cs: seq<char>)
    requires cs != []
    ensures cs == cs[..|cs| - 1] + [cs[|cs| - 1]]
    ensures forall i | 0 <= i < |cs| - 1 :: cs[..|cs| - 1][i] == cs[i]
  {
  }

  lemma OccurrencesSnoc(cs: seq<char>, c: char, d: char)
    ensures Occurrences(cs + [c], d) == Occurrences(cs, d) + (if d == c then 1 else 0)
  {
    assert (cs + [c])[..|cs|] == cs;
  }
}
