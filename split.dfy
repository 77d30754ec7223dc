/**
 * splitNYT on the arena: the NYT leaf becomes an internal node of weight one whose left
 * child is a fresh NYT (numbered two below it) and whose right child is the fresh leaf
 * of the new symbol (numbered one below it, weight one). The leaf is appended to the
 * node list before the new NYT.
 */
module Split {
  import opened Wrappers
  import opened Nodes
  import opened TreeShape

  /** The node at index i once the NYT at o has been split. */
  function SplitNode(t: Tree, o: nat, i: nat): Node
    requires o < |t| && i < |t| + 2
  {
    if i == |t| then Node(None, None, Some(o), 1, t[o].number - 1)
    else if i == |t| + 1 then Node(None, None, Some(o), 0, t[o].number - 2)
    else if i == o then t[o].(left := Some(|t| + 1), right := Some(|t|), weight := t[o].weight + 1)
    else t[i]
  }

  function SplitTree(t: Tree, o: nat): (s: Tree)
    requires o < |t|
    ensures |s| == |t| + 2
    ensures forall i | 0 <= i < |t| + 2 :: s[i] == SplitNode(t, o, i)
  {
    seq(|t| + 2, i requires 0 <= i < |t| + 2 => SplitNode(t, o, i))
  }

  lemma SplitLinks(t: Tree, o: nat)
    requires InRange(t) && Binary(t) && Links(t) && o < |t| && t[o].IsLeaf()
    ensures InRange(SplitTree(t, o)) && Binary(SplitTree(t, o)) && Links(SplitTree(t, o))
  {
    var s := SplitTree(t, o);
    forall i | 0 <= i < |s|
      ensures LinkIn(s[i].left, |s|) && LinkIn(s[i].right, |s|) && LinkIn(s[i].parent, |s|)
      ensures s[i].left.Some? == s[i].right.Some? && (s[i].left.Some? ==> s[i].left != s[i].right)
    {
      assert s[i] == SplitNode(t, o, i);
    }
    forall p, c | 0 <= p < |s| && 0 <= c < |s|
      ensures s[c].parent == Some(p) <==> (s[p].left == Some(c) || s[p].right == Some(c))
    {
      assert s[p] == SplitNode(t, o, p) && s[c] == SplitNode(t, o, c);
      if p < |t| && c < |t| {
        assert t[c].parent == Some(p) <==> (t[p].left == Some(c) || t[p].right == Some(c));
      }
    }
  }

  lemma SplitNumbered(t: Tree, root: nat, o: nat)
    requires InRange(t) && o < |t| && Rooted(t, root) && Numbered(t, root)
    requires forall i | 0 <= i < |t| :: t[o].number <= t[i].number
    ensures InRange(SplitTree(t, o)) && Rooted(SplitTree(t, o), root) && Numbered(SplitTree(t, o), root)
  {
    var s := SplitTree(t, o);
    forall i | 0 <= i < |s|
      ensures LinkIn(s[i].left, |s|) && LinkIn(s[i].right, |s|) && LinkIn(s[i].parent, |s|)
      ensures i != root ==> s[i].parent.Some?
      ensures s[i].number <= s[root].number
    {
      assert s[i] == SplitNode(t, o, i);
      assert s[root] == SplitNode(t, o, root);
      if i >= |t| {
        assert t[o].number <= t[root].number;
      }
    }
    forall i, j | 0 <= i < |s| && 0 <= j < |s| && i != j
      ensures s[i].number != s[j].number
    {
      assert s[i] == SplitNode(t, o, i) && s[j] == SplitNode(t, o, j);
      if i < |t| {
        assert t[o].number <= t[i].number;
      }
      if j < |t| {
        assert t[o].number <= t[j].number;
      }
    }
    forall p, c | 0 <= p < |s| && 0 <= c < |s| && s[c].parent == Some(p)
      ensures s[c].number < s[p].number
    {
      assert s[p] == SplitNode(t, o, p) && s[c] == SplitNode(t, o, c);
      if c < |t| {
        assert t[c].parent == Some(p);
      }
    }
  }

  /** Splitting the NYT keeps the tree a numbered strict binary tree with the same root. */
  lemma SplitStruct(t: Tree, root: nat, o: nat)
    requires Struct(t, root) && NytShape(t, root, o)
    ensures Struct(SplitTree(t, o), root)
  {
    SplitLinks(t, o);
    SplitNumbered(t, root, o);
  }

  /** The fresh NYT has the shape the invariant asks of it, and every other node has weight. */
  lemma SplitNyt(t: Tree, root: nat, o: nat)
    requires InRange(t) && Binary(t) && Links(t) && NytShape(t, root, o) && Positive(t, o)
    ensures InRange(SplitTree(t, o))
    ensures NytShape(SplitTree(t, o), root, |t| + 1) && Positive(SplitTree(t, o), |t| + 1)
  {
    SplitLinks(t, o);
    var s := SplitTree(t, o);
    var nn := |t| + 1;
    assert s[nn] == SplitNode(t, o, nn) && s[o] == SplitNode(t, o, o) && s[|t|] == SplitNode(t, o, |t|);
    assert s[root] == SplitNode(t, o, root);
    forall i | 0 <= i < |s|
      ensures s[nn].number <= s[i].number
      ensures i != nn ==> s[i].weight >= 1
    {
      assert s[i] == SplitNode(t, o, i);
      if i < |t| {
        assert t[o].number <= t[i].number;
      }
    }
  }

  /** Splitting the NYT keeps the sibling property. */
  lemma SplitOrdered(t: Tree, root: nat, o: nat)
    requires InRange(t) && NytShape(t, root, o) && Positive(t, o) && Ordered(t)
    ensures Ordered(SplitTree(t, o))
  {
    var s := SplitTree(t, o);
    forall i, j | 0 <= i < |s| && 0 <= j < |s| && s[i].number < s[j].number
      ensures s[i].weight <= s[j].weight
    {
      assert s[i] == SplitNode(t, o, i) && s[j] == SplitNode(t, o, j);
      if i < |t| && j < |t| {
        assert t[i].weight <= t[j].weight;
      } else if j < |t| && j != o {
        assert t[j].weight >= 1;
      }
    }
  }

  /**
   * Splitting the NYT keeps every sum except, when the NYT was not the root, at its
   * parent, which still lacks the increment its child received.
   */
  lemma SplitSums(t: Tree, root: nat, o: nat)
    requires InRange(t) && Binary(t) && Links(t) && Rooted(t, root) && NytShape(t, root, o) && Sums(t)
    ensures InRange(SplitTree(t, o))
    ensures o == root ==> Sums(SplitTree(t, o))
    ensures o != root ==> SumsExcept(SplitTree(t, o), t[o].parent.value)
  {
    SplitLinks(t, o);
    var s := SplitTree(t, o);
    var p := if o == root then o else t[o].parent.value;
    assert s[|t|] == SplitNode(t, o, |t|) && s[|t| + 1] == SplitNode(t, o, |t| + 1);
    forall i | 0 <= i < |s| && (o == root || i != p)
      ensures SumAt(s, i)
    {
      assert s[i] == SplitNode(t, o, i);
      if i < |t| && i != o {
        assert SumAt(t, i);
        if Internal(t, i) {
          var l, r := t[i].left.value, t[i].right.value;
          assert t[o].parent != Some(i);
          assert s[l] == SplitNode(t, o, l) && s[r] == SplitNode(t, o, r);
        }
      }
    }
    if o != root {
      assert SumAt(t, p);
      var l, r := t[p].left.value, t[p].right.value;
      assert s[l] == SplitNode(t, o, l) && s[r] == SplitNode(t, o, r) && s[p] == SplitNode(t, o, p);
    }
  }
}
