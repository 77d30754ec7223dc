/**
 * A vertex of the adaptive code tree. Nodes live in an arena and refer to each other
 * by arena index: a child slot or the parent back-reference is an `Option<nat>`.
 * The methods of the arena are the methods of a node, the node being named by its index.
 */
module Nodes {
  import opened Wrappers

  datatype Node = Node(left: Option<nat>, right: Option<nat>, parent: Option<nat>, weight: nat, number: int)
  {
    /** isLeaf: both child slots are empty. */
    predicate IsLeaf()
    {
      left.None? && right.None?
    }
  }

  /** A link is absent or points inside an arena of `size` nodes. */
  predicate LinkIn(link: Option<nat>, size: nat)
  {
    link.Some? ==> link.value < size
  }

  /** The arena after incrementWeight(x): node x one heavier, every other node as it was. */
  function Incremented(t: seq<Node>, x: nat): (s: seq<Node>)
    requires x < |t|
    ensures |s| == |t|
  {
    t[x := t[x].(weight := t[x].weight + 1)]
  }

  /** Every node ever created, indexed by creation order. */
  class Arena {
    var nodes: seq<Node>

    /** Every child slot and parent reference points at a node of this arena. */
    ghost predicate Linked()
      reads this
    {
      forall i | 0 <= i < |nodes| ::
        LinkIn(nodes[i].left, |nodes|) && LinkIn(nodes[i].right, |nodes|) && LinkIn(nodes[i].parent, |nodes|)
    }

    constructor ()
      ensures nodes == [] && Linked()
    {
      nodes := [];
    }

    /** `new Node(nodeNumber)`: no parent, no children, weight 0, the given node number. */
    method NewNode(number: int) returns (x: nat)
      requires Linked()
      modifies this
      ensures x == |old(nodes)| && Linked()
      ensures nodes == old(nodes) + [Node(None, None, None, 0, number)]
    {
      x := |nodes|;
      nodes := nodes + [Node(None, None, None, 0, number)];
    }

    /** isLeftChild: false for a parentless node, else whether the parent's left slot holds it. */
    predicate IsLeftChild(x: nat)
      reads this
      requires x < |nodes| && LinkIn(nodes[x].parent, |nodes|)
    {
      nodes[x].parent.Some? && nodes[nodes[x].parent.value].left == Some(x)
    }

    /** isRightChild: false for a parentless node, else whether the parent's right slot holds it. */
    predicate IsRightChild(x: nat)
      reads this
      requires x < |nodes| && LinkIn(nodes[x].parent, |nodes|)
    {
      nodes[x].parent.Some? && nodes[nodes[x].parent.value].right == Some(x)
    }

    /**
     * setLeft into an empty left slot: refuses (the source throws) a candidate that
     * already has a parent; otherwise the candidate fills the slot and points back at `p`.
     */
    method SetLeft(p: nat, c: nat) returns (ok: bool)
      requires p < |nodes| && c < |nodes| && Linked() && nodes[p].left.None?
      modifies this
      ensures Linked()
      ensures ok == old(nodes[c].parent.None?)
      ensures ok ==> var t := old(nodes)[c := old(nodes[c]).(parent := Some(p))];
                     nodes == t[p := t[p].(left := Some(c))]
      ensures !ok ==> nodes == old(nodes)
    {
      if nodes[c].parent.Some? {
        return false;
      }
      nodes := nodes[c := nodes[c].(parent := Some(p))];
      nodes := nodes[p := nodes[p].(left := Some(c))];
      return true;
    }

    /**
     * setRight into an empty right slot: refuses (the source throws) a candidate that
     * already has a parent; otherwise the candidate fills the slot and points back at `p`.
     */
    method SetRight(p: nat, c: nat) returns (ok: bool)
      requires p < |nodes| && c < |nodes| && Linked() && nodes[p].right.None?
      modifies this
      ensures Linked()
      ensures ok == old(nodes[c].parent.None?)
      ensures ok ==> var t := old(nodes)[c := old(nodes[c]).(parent := Some(p))];
                     nodes == t[p := t[p].(right := Some(c))]
      ensures !ok ==> nodes == old(nodes)
    {
      if nodes[c].parent.Some? {
        return false;
      }
      nodes := nodes[c := nodes[c].(parent := Some(p))];
      nodes := nodes[p := nodes[p].(right := Some(c))];
      return true;
    }

    /** detachLeft: empties the left slot, clears the former child's parent and returns it. */
    method DetachLeft(p: nat) returns (c: nat)
      requires p < |nodes| && Linked() && nodes[p].left.Some?
      modifies this
      ensures Linked()
      ensures c == old(nodes[p].left.value)
      ensures var t := old(nodes)[p := old(nodes[p]).(left := None)];
              nodes == t[c := t[c].(parent := None)]
    {
      c := nodes[p].left.value;
      nodes := nodes[p := nodes[p].(left := None)];
      nodes := nodes[c := nodes[c].(parent := None)];
    }

    /** detachRight: empties the right slot, clears the former child's parent and returns it. */
    method DetachRight(p: nat) returns (c: nat)
      requires p < |nodes| && Linked() && nodes[p].right.Some?
      modifies this
      ensures Linked()
      ensures c == old(nodes[p].right.value)
      ensures var t := old(nodes)[p := old(nodes[p]).(right := None)];
              nodes == t[c := t[c].(parent := None)]
    {
      c := nodes[p].right.value;
      nodes := nodes[p := nodes[p].(right := None)];
      nodes := nodes[c := nodes[c].(parent := None)];
    }

    /**
     * detachFromParent: nothing happens to a parentless node; otherwise the parent's
     * slot that holds `x` is emptied and `x` loses its parent.
     */
    method DetachFromParent(x: nat)
      requires x < |nodes| && Linked()
      requires nodes[x].parent.Some? ==>
                 var p := nodes[x].parent.value;
                 nodes[p].left == Some(x) || nodes[p].right == Some(x)
      modifies this
      ensures Linked()
      ensures old(nodes[x].parent.None?) ==> nodes == old(nodes)
      ensures old(nodes[x].parent.Some?) ==>
                var p := old(nodes[x].parent.value);
                var t := if old(nodes[p].left) == Some(x) then old(nodes)[p := old(nodes[p]).(left := None)]
                         else old(nodes)[p := old(nodes[p]).(right := None)];
                nodes == t[x := t[x].(parent := None)]
    {
      if nodes[x].parent.None? {
        return;
      }
      var p := nodes[x].parent.value;
      if nodes[p].left == Some(x) {
        var _ := DetachLeft(p);
      } else {
        var _ := DetachRight(p);
      }
    }

    /** incrementWeight: the weight goes up by one and nothing else changes. */
    method IncrementWeight(x: nat)
      requires x < |nodes| && Linked()
      modifies this
      ensures Linked()
      ensures nodes == Incremented(old(nodes), x)
    {
      nodes := nodes[x := nodes[x].(weight := nodes[x].weight + 1)];
    }

    /** setNodeNumber: only the node number changes. */
    method SetNodeNumber(x: nat, number: int)
      requires x < |nodes| && Linked()
      modifies this
      ensures Linked()
      ensures nodes == old(nodes)[x := old(nodes[x]).(number := number)]
    {
      nodes := nodes[x := nodes[x].(number := number)];
    }
  }
}
