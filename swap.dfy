/**
 * The two tree edits the update performs: swapNodes, which trades the places (and the
 * node numbers) of two nodes, and incrementWeight, as functions on the arena, with the
 * parts of the tree invariant each one keeps.
 */
module Restructure {
  import opened Wrappers
  import opened Nodes
  import opened TreeShape

  /** A child slot after a and b have traded places. */
  function SwapRef(link: Option<nat>, a: nat, b: nat): Option<nat>
  {
    if link == Some(a) then Some(b) else if link == Some(b) then Some(a) else link
  }

  /** The node at index i after a and b have traded places. */
  function SwappedNode(t: Tree, a: nat, b: nat, i: nat): Node
    requires a < |t| && b < |t| && i < |t|
  {
    t[i].(left := SwapRef(t[i].left, a, b),
          right := SwapRef(t[i].right, a, b),
          parent := if i == a then t[b].parent else if i == b then t[a].parent else t[i].parent,
          number := t[Partner(i, a, b)].number)
  }

  /**
   * swapNodes(a, b): b takes a's place in a's parent and a takes b's in b's, each
   * keeps its own weight and subtree, and the two node numbers are exchanged.
   */
  function Swapped(t: Tree, a: nat, b: nat): (s: Tree)
    requires a < |t| && b < |t|
    ensures |s| == |t|
    ensures forall i | 0 <= i < |t| :: s[i] == SwappedNode(t, a, b, i)
  {
    seq(|t|, i requires 0 <= i < |t| => SwappedNode(t, a, b, i))
  }

  /** What a swap needs to leave a tree: two distinct non-root nodes, neither the
      other's parent, each outnumbering the other's children. */
  ghost predicate SwapOk(t: Tree, root: nat, a: nat, b: nat)
    requires a < |t| && b < |t|
  {
    a != b && a != root && b != root &&
    t[a].parent != Some(b) && t[b].parent != Some(a) &&
    (forall i | 0 <= i < |t| && t[i].parent == Some(a) :: t[i].number < t[b].number) &&
    (forall i | 0 <= i < |t| && t[i].parent == Some(b) :: t[i].number < t[a].number)
  }

  /** The swap permutes indices: what sits at a now carries b's number, and so on. */
  function Partner(i: nat, a: nat, b: nat): nat
  {
    if i == a then b else if i == b then a else i
  }

  lemma SwappedNumbers(t: Tree, a: nat, b: nat)
    requires a < |t| && b < |t|
    ensures forall i | 0 <= i < |t| :: Swapped(t, a, b)[i].number == t[Partner(i, a, b)].number
    ensures forall i | 0 <= i < |t| :: Swapped(t, a, b)[i].weight == t[i].weight
    ensures forall i | 0 <= i < |t| :: Swapped(t, a, b)[i].IsLeaf() == t[i].IsLeaf()
    ensures forall i | 0 <= i < |t| :: Internal(Swapped(t, a, b), i) == Internal(t, i)
  {
    var s := Swapped(t, a, b);
    forall i | 0 <= i < |t|
      ensures s[i].number == t[Partner(i, a, b)].number && s[i].weight == t[i].weight
      ensures s[i].IsLeaf() == t[i].IsLeaf() && Internal(s, i) == Internal(t, i)
    {
      assert s[i] == SwappedNode(t, a, b, i);
    }
  }

  lemma SwapInRange(t: Tree, a: nat, b: nat)
    requires InRange(t) && a < |t| && b < |t|
    ensures InRange(Swapped(t, a, b))
  {
    var s := Swapped(t, a, b);
    forall i | 0 <= i < |s|
      ensures LinkIn(s[i].left, |s|) && LinkIn(s[i].right, |s|) && LinkIn(s[i].parent, |s|)
    {
      assert s[i] == SwappedNode(t, a, b, i);
    }
  }

  lemma SwapBinary(t: Tree, a: nat, b: nat)
    requires Binary(t) && a < |t| && b < |t|
    ensures Binary(Swapped(t, a, b))
  {
    var s := Swapped(t, a, b);
    forall i | 0 <= i < |s|
      ensures s[i].left.Some? == s[i].right.Some? && (s[i].left.Some? ==> s[i].left != s[i].right)
    {
      assert s[i] == SwappedNode(t, a, b, i);
    }
  }

  lemma SwapLinks(t: Tree, root: nat, a: nat, b: nat)
    requires Struct(t, root) && a < |t| && b < |t| && SwapOk(t, root, a, b)
    ensures Links(Swapped(t, a, b))
  {
    var s := Swapped(t, a, b);
    forall p, c | 0 <= p < |s| && 0 <= c < |s|
      ensures s[c].parent == Some(p) <==> (s[p].left == Some(c) || s[p].right == Some(c))
    {
      assert s[p] == SwappedNode(t, a, b, p);
      assert s[c] == SwappedNode(t, a, b, c);
      var c' := Partner(c, a, b);
      assert s[p].left == Some(c) <==> t[p].left == Some(c');
      assert s[p].right == Some(c) <==> t[p].right == Some(c');
      assert s[c].parent == t[c'].parent;
    }
  }

  lemma SwapRooted(t: Tree, root: nat, a: nat, b: nat)
    requires Rooted(t, root) && a < |t| && b < |t| && a != root && b != root
    ensures Rooted(Swapped(t, a, b), root)
  {
    var s := Swapped(t, a, b);
    assert s[root] == SwappedNode(t, a, b, root);
    forall i | 0 <= i < |s| && i != root
      ensures s[i].parent.Some?
    {
      assert s[i] == SwappedNode(t, a, b, i);
    }
  }

  lemma SwapNumbered(t: Tree, root: nat, a: nat, b: nat)
    requires InRange(t) && root < |t| && Numbered(t, root) && a < |t| && b < |t| && SwapOk(t, root, a, b)
    ensures InRange(Swapped(t, a, b)) && Numbered(Swapped(t, a, b), root)
  {
    SwapInRange(t, a, b);
    SwapDistinct(t, root, a, b);
    SwapParentAbove(t, root, a, b);
  }

  lemma SwapDistinct(t: Tree, root: nat, a: nat, b: nat)
    requires InRange(t) && root < |t| && Numbered(t, root) && a < |t| && b < |t| && a != root && b != root
    ensures forall i, j | 0 <= i < |t| && 0 <= j < |t| && i != j :: Swapped(t, a, b)[i].number != Swapped(t, a, b)[j].number
    ensures forall i | 0 <= i < |t| :: Swapped(t, a, b)[i].number <= Swapped(t, a, b)[root].number
  {
    var s := Swapped(t, a, b);
    SwappedNumbers(t, a, b);
    forall i, j | 0 <= i < |s| && 0 <= j < |s| && i != j
      ensures s[i].number != s[j].number
    {
      assert Partner(i, a, b) != Partner(j, a, b);
    }
  }

  lemma SwapParentAbove(t: Tree, root: nat, a: nat, b: nat)
    requires InRange(t) && root < |t| && Numbered(t, root) && a < |t| && b < |t| && SwapOk(t, root, a, b)
    ensures forall p, c | 0 <= p < |t| && 0 <= c < |t| && Swapped(t, a, b)[c].parent == Some(p) ::
              Swapped(t, a, b)[c].number < Swapped(t, a, b)[p].number
  {
    var s := Swapped(t, a, b);
    forall p, c | 0 <= p < |s| && 0 <= c < |s| && s[c].parent == Some(p)
      ensures s[c].number < s[p].number
    {
      assert s[c] == SwappedNode(t, a, b, c);
      assert s[p] == SwappedNode(t, a, b, p);
      if c == a {
        assert t[b].parent == Some(p) && p != a && p != b;
      } else if c == b {
        assert t[a].parent == Some(p) && p != a && p != b;
      } else {
        assert t[c].parent == Some(p);
      }
    }
  }

  /** A swap that SwapOk admits keeps the tree a numbered strict binary tree. */
  lemma SwapKeepsStruct(t: Tree, root: nat, a: nat, b: nat)
    requires Struct(t, root) && a < |t| && b < |t| && SwapOk(t, root, a, b)
    ensures Struct(Swapped(t, a, b), root)
  {
    SwapInRange(t, a, b);
    SwapBinary(t, a, b);
    SwapLinks(t, root, a, b);
    SwapRooted(t, root, a, b);
    SwapNumbered(t, root, a, b);
  }

  /** Trading two nodes of equal weight changes no sum of children. */
  lemma SwapKeepsSums(t: Tree, a: nat, b: nat, n: nat)
    requires InRange(t) && Binary(t) && a < |t| && b < |t| && n < |t|
    requires t[a].weight == t[b].weight
    requires SumsExcept(t, n)
    ensures InRange(Swapped(t, a, b)) && SumsExcept(Swapped(t, a, b), n)
  {
    var s := Swapped(t, a, b);
    SwapInRange(t, a, b);
    forall i | 0 <= i < |s| && Internal(s, i)
      ensures Internal(t, i) && ChildSum(s, i) == ChildSum(t, i) && s[i].weight == t[i].weight
    {
      assert s[i] == SwappedNode(t, a, b, i);
      var l, r := t[i].left.value, t[i].right.value;
      assert s[Partner(l, a, b)] == SwappedNode(t, a, b, Partner(l, a, b));
      assert s[Partner(r, a, b)] == SwappedNode(t, a, b, Partner(r, a, b));
    }
    forall i | 0 <= i < |s| && i != n
      ensures SumAt(s, i)
    {
      assert SumAt(t, i);
    }
    assert s[n] == SwappedNode(t, a, b, n);
  }

  /** Trading two nodes of equal weight keeps the sibling property. */
  lemma SwapKeepsOrdered(t: Tree, a: nat, b: nat)
    requires a < |t| && b < |t| && t[a].weight == t[b].weight && Ordered(t)
    ensures Ordered(Swapped(t, a, b))
  {
    var s := Swapped(t, a, b);
    SwappedNumbers(t, a, b);
    forall i, j | 0 <= i < |s| && 0 <= j < |s| && s[i].number < s[j].number
      ensures s[i].weight <= s[j].weight
    {
      var i', j' := Partner(i, a, b), Partner(j, a, b);
      assert t[i'].number < t[j'].number;
      assert s[i].weight == t[i'].weight && s[j].weight == t[j'].weight;
    }
  }

  /** A swap away from the NYT and its parent keeps the NYT's neighbourhood. */
  lemma SwapKeepsNyt(t: Tree, root: nat, nyt: nat, a: nat, b: nat)
    requires InRange(t) && NytShape(t, root, nyt) && Positive(t, nyt)
    requires a < |t| && b < |t| && a != nyt && b != nyt && a != root && b != root
    requires nyt != root ==> t[nyt].parent.value != a && t[nyt].parent.value != b
    ensures InRange(Swapped(t, a, b))
    ensures NytShape(Swapped(t, a, b), root, nyt) && Positive(Swapped(t, a, b), nyt)
  {
    var s := Swapped(t, a, b);
    SwapInRange(t, a, b);
    SwappedNumbers(t, a, b);
    assert s[nyt] == SwappedNode(t, a, b, nyt);
    assert s[root] == SwappedNode(t, a, b, root);
    forall i | 0 <= i < |s|
      ensures s[nyt].number <= s[i].number
    {
      assert t[nyt].number <= t[Partner(i, a, b)].number;
    }
    if nyt != root {
      var p := t[nyt].parent.value;
      var q := t[p].right.value;
      assert s[p] == SwappedNode(t, a, b, p);
      assert s[p].right == Some(Partner(q, a, b));
      assert s[Partner(q, a, b)].number == t[q].number;
    }
  }
}
