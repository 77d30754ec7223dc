/**
 * The shape of the adaptive Huffman tree held in an arena, and the invariant that
 * encoder and decoder keep between two symbols: a strict binary tree whose node
 * numbers grow towards the root, whose internal nodes weigh the sum of their children,
 * whose weights never decrease as node numbers grow (the sibling property), and
 * whose NYT leaf is the lightest, lowest-numbered node.
 */
module TreeShape {
  import opened Wrappers
  import opened Nodes

  type Tree = seq<Node>

  ghost predicate InRange(t: Tree)
  {
    forall i | 0 <= i < |t| :: LinkIn(t[i].left, |t|) && LinkIn(t[i].right, |t|) && LinkIn(t[i].parent, |t|)
  }

  /** Internal nodes have two distinct children; leaves have none. */
  ghost predicate Binary(t: Tree)
  {
    forall i | 0 <= i < |t| :: t[i].left.Some? == t[i].right.Some? && (t[i].left.Some? ==> t[i].left != t[i].right)
  }

  /** A node points back at a parent exactly when that parent holds it in a child slot. */
  ghost predicate Links(t: Tree)
  {
    forall p, c | 0 <= p < |t| && 0 <= c < |t| ::
      t[c].parent == Some(p) <==> (t[p].left == Some(c) || t[p].right == Some(c))
  }

  /** The root is the only parentless node. */
  ghost predicate Rooted(t: Tree, root: nat)
  {
    root < |t| && t[root].parent.None? && forall i | 0 <= i < |t| && i != root :: t[i].parent.Some?
  }

  /** Node numbers are distinct, grow from child to parent, and are largest at the root. */
  ghost predicate Numbered(t: Tree, root: nat)
    requires InRange(t) && root < |t|
  {
    (forall i, j | 0 <= i < |t| && 0 <= j < |t| && i != j :: t[i].number != t[j].number) &&
    (forall p, c | 0 <= p < |t| && 0 <= c < |t| && t[c].parent == Some(p) :: t[c].number < t[p].number) &&
    (forall i | 0 <= i < |t| :: t[i].number <= t[root].number)
  }

  ghost predicate Struct(t: Tree, root: nat)
  {
    InRange(t) && Binary(t) && Links(t) && Rooted(t, root) && Numbered(t, root)
  }

  /** The weight of the children of an internal node. */
  ghost function ChildSum(t: Tree, i: nat): nat
    requires InRange(t) && i < |t| && t[i].left.Some? && t[i].right.Some?
  {
    t[t[i].left.value].weight + t[t[i].right.value].weight
  }

  ghost predicate Internal(t: Tree, i: nat)
    requires i < |t|
  {
    t[i].left.Some? && t[i].right.Some?
  }

  /** An internal node weighs the sum of its two children. */
  ghost predicate SumAt(t: Tree, i: nat)
    requires InRange(t) && i < |t|
  {
    Internal(t, i) ==> t[i].weight == ChildSum(t, i)
  }

  ghost predicate Sums(t: Tree)
    requires InRange(t)
  {
    forall i | 0 <= i < |t| :: SumAt(t, i)
  }

  /** As Sums, except that the cursor `n` still lacks the increment its child received. */
  ghost predicate SumsExcept(t: Tree, n: nat)
    requires InRange(t) && n < |t|
  {
    (forall i | 0 <= i < |t| && i != n :: SumAt(t, i)) &&
    (Internal(t, n) ==> t[n].weight + 1 == ChildSum(t, n))
  }

  /**
   * The NYT leaf has weight 0 and the lowest number; unless it is the root, it is the
   * left child of a node numbered two above it whose right child is numbered one above it.
   * A root other than the NYT is internal.
   */
  ghost predicate NytShape(t: Tree, root: nat, nyt: nat)
    requires InRange(t)
  {
    nyt < |t| && root < |t| && t[nyt].IsLeaf() && t[nyt].weight == 0 &&
    (forall i | 0 <= i < |t| :: t[nyt].number <= t[i].number) &&
    (nyt != root ==>
       t[nyt].parent.Some? &&
       var p := t[nyt].parent.value;
       t[p].left == Some(nyt) && t[p].number == t[nyt].number + 2 &&
       t[p].right.Some? && t[t[p].right.value].number == t[nyt].number + 1 &&
       !t[root].IsLeaf())
  }

  /** Every node but the NYT has been counted at least once. */
  ghost predicate Positive(t: Tree, nyt: nat)
  {
    forall i | 0 <= i < |t| && i != nyt :: t[i].weight >= 1
  }

  /** The sibling property: weights never decrease as node numbers grow. */
  ghost predicate Ordered(t: Tree)
  {
    forall i, j | 0 <= i < |t| && 0 <= j < |t| && t[i].number < t[j].number :: t[i].weight <= t[j].weight
  }

  /** No other non-root node of `n`'s weight has a higher number. */
  ghost predicate TopOfBlock(t: Tree, root: nat, n: nat)
    requires n < |t|
  {
    forall j | 0 <= j < |t| && j != root && t[j].weight == t[n].weight :: t[j].number <= t[n].number
  }

  /**
   * The sibling property while climbing: the cursor `n` may be one lighter than a node
   * below it, and then it is the top of its weight block.
   */
  ghost predicate OrderedBut(t: Tree, root: nat, n: nat)
    requires n < |t|
  {
    (forall i, j | 0 <= i < |t| && 0 <= j < |t| && t[i].number < t[j].number ::
       t[i].weight <= t[j].weight + (if j == n then 1 else 0)) &&
    ((forall i | 0 <= i < |t| && t[i].number < t[n].number :: t[i].weight <= t[n].weight) ||
     TopOfBlock(t, root, n))
  }

  /** The invariant kept between two symbols. */
  ghost predicate TreeInv(t: Tree, root: nat, nyt: nat)
  {
    Struct(t, root) && NytShape(t, root, nyt) && Positive(t, nyt) && Sums(t) && Ordered(t)
  }

  /**
   * The invariant at the head of the climb, with cursor `n`: numbered above the NYT's
   * sibling, and the top of its block whenever it is the NYT's parent.
   */
  ghost predicate ClimbInv(t: Tree, root: nat, nyt: nat, n: nat)
  {
    Struct(t, root) && NytShape(t, root, nyt) && Positive(t, nyt) &&
    n < |t| && n != nyt && t[nyt].number + 2 <= t[n].number &&
    SumsExcept(t, n) && OrderedBut(t, root, n) &&
    (t[nyt].parent == Some(n) ==> TopOfBlock(t, root, n))
  }

  /**
   * isLeaf in a linked strict binary tree: a node is a leaf exactly when no node names it
   * as parent, and an internal node has two children of its own.
   */
  lemma LeafIffChildless(t: Tree, x: nat)
    requires InRange(t) && Binary(t) && Links(t) && x < |t|
    ensures t[x].IsLeaf() <==> forall c | 0 <= c < |t| :: t[c].parent != Some(x)
    ensures !t[x].IsLeaf() ==> t[t[x].left.value].parent == Some(x) && t[t[x].right.value].parent == Some(x)
  {
    if !t[x].IsLeaf() {
      var l := t[x].left.value;
      assert t[l].parent == Some(x);
    }
  }

  /** Two arenas with the same links and numbers, whatever their weights. */
  ghost predicate SameShape(t: Tree, s: Tree)
  {
    |s| == |t| &&
    forall i | 0 <= i < |t| ::
      s[i].left == t[i].left && s[i].right == t[i].right && s[i].parent == t[i].parent && s[i].number == t[i].number
  }

  lemma ShapeLinks(t: Tree, s: Tree)
    requires InRange(t) && Binary(t) && Links(t) && SameShape(t, s)
    ensures InRange(s) && Binary(s) && Links(s)
  {
    forall i | 0 <= i < |s|
      ensures LinkIn(s[i].left, |s|) && LinkIn(s[i].right, |s|) && LinkIn(s[i].parent, |s|)
    {
    }
  }

  lemma ShapeNumbered(t: Tree, s: Tree, root: nat)
    requires InRange(t) && Rooted(t, root) && Numbered(t, root) && SameShape(t, s) && InRange(s)
    ensures Rooted(s, root) && Numbered(s, root)
  {
  }

  /** Changing weights only keeps the tree a numbered strict binary tree. */
  lemma ShapeStruct(t: Tree, s: Tree, root: nat)
    requires Struct(t, root) && SameShape(t, s)
    ensures Struct(s, root)
  {
    ShapeLinks(t, s);
    ShapeNumbered(t, s, root);
  }

  /** Changing weights only, and not the NYT's, keeps the NYT's neighbourhood. */
  lemma ShapeNyt(t: Tree, s: Tree, root: nat, nyt: nat)
    requires InRange(t) && NytShape(t, root, nyt) && SameShape(t, s) && InRange(s)
    requires s[nyt].weight == t[nyt].weight
    ensures NytShape(s, root, nyt)
  {
  }
}
