/**
 * AdaptiveHuffmanModel as a class over the node arena: the alphabet and its constants
 * are fixed at construction; root, notYetTransmitted (`nyt`), the two registries and the
 * arena are the state its methods update in place. Each method is specified by the
 * function on the model's value (`Model()`) that the pure modules define and reason about.
 */
module Model {
  import opened Wrappers
  import opened Bits
  import opened Nodes
  import opened TreeShape
  import opened Restructure
  import opened Climbing
  import opened Split
  import opened Entry
  import opened DefaultCode
  import opened ModelState
  import opened Coding
  import opened Codec

  /** The constructor's loop: each letter to its position, position by position, so a repeated letter keeps its last one. */
  method BuildIndexes(symbols: seq<char>) returns (indexes: map<char, nat>)
    ensures indexes == IndexesOf(symbols)
  {
    indexes := map[];
    for i := 0 to |symbols|
      invariant indexes == IndexesOf(symbols[..i])
    {
      assert symbols[..i + 1][..i] == symbols[..i];
      indexes := indexes[symbols[i] := i];
    }
    assert symbols[..|symbols|] == symbols;
  }

  class AdaptiveHuffmanModel {
    const alphabet: seq<char>
    const e: nat
    const r: nat
    const alphabetIndexes: map<char, nat>
    /** The `nodes` list; a node's position in it is its name. */
    var arena: Arena
    var root: nat
    var nyt: nat
    var transmitted: map<char, nat>
    var charByNode: map<nat, char>

    /** The alphabet part of the model, fixed for its lifetime. */
    function Letters(): Alphabet
    {
      Alphabet(alphabet, alphabetIndexes, e, r)
    }

    /** The model's current value. */
    ghost function Model(): State
      reads this, arena
    {
      State(arena.nodes, root, nyt, transmitted, charByNode)
    }

    /** A well-formed alphabet and a model in use with it, in a linked arena. */
    ghost predicate Valid()
      reads this, arena
    {
      WellFormed(Letters()) && InUse(Letters(), Model()) && arena.Linked()
    }

    /**
     * The constructor: e and r from the alphabet's size, the index map built position by
     * position (a repeated letter keeps its last position), then reset.
     */
    constructor (symbols: seq<char>)
      requires |symbols| >= 1
      ensures Letters() == MakeAlphabet(symbols) && Model() == ModelState.Reset(|symbols|)
      ensures Distinct(symbols) ==> Valid()
    {
      var e0 := Log2Floor(|symbols|);
      alphabet := symbols;
      e := e0;
      r := |symbols| - Pow2(e0);
      var indexes := BuildIndexes(symbols);
      alphabetIndexes := indexes;
      arena := new Arena();
      new;
      Reset();
    }

    /** reset: a fresh arena whose one node is root and NYT, numbered 2|alphabet| - 1; no symbol transmitted. */
    method Reset()
      modifies this
      ensures Model() == ModelState.Reset(|alphabet|) && fresh(arena)
      ensures WellFormed(Letters()) ==> Valid()
    {
      arena := new Arena();
      var x := arena.NewNode(2 * |alphabet| - 1);
      nyt := x;
      root := nyt;
      transmitted := map[];
      charByNode := map[];
      assert Model() == ModelState.Reset(|alphabet|);
    }

    /**
     * splitNYT(c): the NYT gets a fresh NYT numbered two below it as left child and a fresh
     * leaf for c numbered one below it as right child; the old NYT and the leaf weigh one
     * more, c is registered with the leaf, and the old NYT is returned. The leaf takes its
     * place in the node list before the new NYT, as in the source's `nodes.add` order.
     */
    method SplitNYT(c: char) returns (o: nat)
      requires arena.Linked() && nyt < |arena.nodes| && arena.nodes[nyt].IsLeaf()
      modifies this, arena
      ensures arena == old(arena) && arena.Linked() && o == old(nyt)
      ensures Model() == SplitState(old(Model()), c)
    {
      ghost var t := arena.nodes;
      var k := arena.nodes[nyt].number;
      var ext := arena.NewNode(k - 1);
      var newNyt := arena.NewNode(k - 2);
      var ok := arena.SetLeft(nyt, newNyt);
      ok := arena.SetRight(nyt, ext);
      o := nyt;
      nyt := newNyt;
      arena.IncrementWeight(o);
      arena.IncrementWeight(ext);
      transmitted := transmitted[c := ext];
      charByNode := charByNode[ext := c];
      forall i | 0 <= i < |t| + 2
        ensures arena.nodes[i] == SplitNode(t, o, i)
      {
      }
    }

    /** findMaximumNodeInBlock(w): the highest-numbered non-root node of weight w, if any. */
    method FindMaximumNodeInBlock(w: nat) returns (m: Option<nat>)
      ensures m == MaxInBlock(arena.nodes, root, w, false)
    {
      m := None;
      for i := 0 to |arena.nodes|
        invariant m == MaxInPrefix(arena.nodes, root, w, false, i)
      {
        var n := arena.nodes[i];
        if i != root {
          if m.None? && n.weight == w {
            m := Some(i);
          } else if n.weight == w {
            if arena.nodes[m.value].number < n.number {
              m := Some(i);
            }
          }
        }
      }
    }

    /** findMaximumLeafInBlock(w): the highest-numbered non-root leaf of weight w, if any. */
    method FindMaximumLeafInBlock(w: nat) returns (m: Option<nat>)
      ensures m == MaxInBlock(arena.nodes, root, w, true)
    {
      m := None;
      for i := 0 to |arena.nodes|
        invariant m == MaxInPrefix(arena.nodes, root, w, true, i)
      {
        var n := arena.nodes[i];
        if i != root && n.IsLeaf() {
          if m.None? && n.weight == w {
            m := Some(i);
          } else if n.weight == w {
            if arena.nodes[m.value].number < n.number {
              m := Some(i);
            }
          }
        }
      }
    }

    /**
     * update(c): rejected (`false`; the source throws) for a character outside the
     * alphabet. Otherwise a first occurrence splits the NYT, and the update is over when
     * the NYT was the root; the NYT's sibling is first swapped to the top of its block of
     * leaves and incremented; then, from the node reached, each node up to the root is
     * swapped to the top of its weight block and incremented, and the root last. The new
     * state is the one the update function gives.
     */
    method Update(c: char) returns (ok: bool)
      requires Valid()
      modifies this, arena
      ensures arena == old(arena) && Valid()
      ensures ok == (c in alphabetIndexes)
      ensures ModelState.Update(old(Model()), alphabetIndexes, c) == if ok then Some(Model()) else None
      ensures !ok ==> Model() == old(Model())
    {
      if c !in alphabetIndexes {
        return false;
      }
      ok := true;
      ghost var s := Model();
      var n, done := StartUpdate(c);
      if !done {
        ClimbFrom(n);
      }
      UpdatedInUse(Letters(), s, Model(), c);
    }

    /**
     * The part of update before its loop: a first occurrence splits the NYT (and when the
     * NYT was the root, `done` says the update is over), the NYT's sibling is swapped to
     * the top of its block of leaves and incremented; the cursor returned is where the
     * loop starts, and the climb from it completes the update function's step.
     */
    method StartUpdate(c: char) returns (n: nat, done: bool)
      requires Valid() && c in alphabetIndexes
      modifies this, arena
      ensures arena == old(arena) && arena.Linked()
      ensures done ==> ModelState.Update(old(Model()), alphabetIndexes, c) == Some(Model())
      ensures !done ==> ClimbInv(arena.nodes, root, nyt, n)
      ensures !done ==> ModelState.Update(old(Model()), alphabetIndexes, c) == Some(WithClimb(Model(), n))
    {
      ghost var s := Model();
      done := false;
      if c !in transmitted {
        NewSymbolPlan(s, alphabetIndexes, c);
        var o := SplitNYT(c);
        if o == root {
          return o, true;
        }
        n := arena.nodes[o].parent.value;
      } else {
        n := transmitted[c];
        if arena.nodes[n].parent == arena.nodes[nyt].parent {
          SiblingPlan(s, alphabetIndexes, c);
          var h := FindMaximumLeafInBlock(arena.nodes[n].weight);
          LeafTopFine(s.nodes, root, n, h);
          n := SwapAndIncrement(n, h);
        } else {
          LeafPlan(s, alphabetIndexes, c);
        }
      }
    }

    /**
     * One turn of update's loop once the partner h has been searched for: the cursor n
     * is swapped with h when h is another node, then incremented; the node returned is
     * the cursor's parent after the swap.
     */
    method SwapAndIncrement(n: nat, h: Option<nat>) returns (m: nat)
      requires arena.Linked() && Binary(arena.nodes) && Links(arena.nodes) && n < |arena.nodes|
      requires SwapReady(arena.nodes, n, h)
      modifies arena
      ensures arena.Linked() && Some(m) == Exchanged(old(arena.nodes), n, h)[n].parent
      ensures arena.nodes == Incremented(Exchanged(old(arena.nodes), n, h), n) && unchanged(this)
    {
      ghost var t := arena.nodes;
      if h.Some? && h.value != n {
        SwapNodes(n, h.value);
        assert arena.nodes[n] == SwappedNode(t, n, h.value, n);
      }
      m := arena.nodes[n].parent.value;
      arena.IncrementWeight(n);
    }

    /**
     * One turn of update's loop for a cursor n below the root: the highest-numbered node
     * of n's weight is looked up, n is swapped with it when it is another node, then n is
     * incremented; the node returned is n's new parent, from which the climb goes on to
     * the same end, and which is numbered above n.
     */
    method ClimbStep(n: nat) returns (m: nat)
      requires arena.Linked() && ClimbInv(arena.nodes, root, nyt, n) && n != root
      modifies arena
      ensures arena.Linked() && arena.nodes == Step(old(arena.nodes), root, n)
      ensures Some(m) == arena.nodes[n].parent && unchanged(this)
    {
      ghost var t := arena.nodes;
      var h := FindMaximumNodeInBlock(arena.nodes[n].weight);
      NodeTopFine(t, root, nyt, n, h);
      m := SwapAndIncrement(n, h);
    }

    /**
     * The loop of update from cursor n: while the cursor is not the root it is swapped
     * with the highest-numbered node of its weight, if that is another node, incremented,
     * and replaced by its parent; the root is incremented last.
     */
    method ClimbFrom(n: nat)
      requires arena.Linked() && ClimbInv(arena.nodes, root, nyt, n)
      modifies arena
      ensures arena.Linked() && arena.nodes == Climb(old(arena.nodes), root, nyt, n)
      ensures Model() == WithClimb(old(Model()), n) && unchanged(this)
    {
      ghost var target := Climb(arena.nodes, root, nyt, n);
      var cur: nat := n;
      while cur != root
        invariant arena.Linked() && ClimbInv(arena.nodes, root, nyt, cur)
        invariant Climb(arena.nodes, root, nyt, cur) == target
        decreases arena.nodes[root].number - arena.nodes[cur].number
      {
        ghost var t := arena.nodes;
        ghost var c := cur;
        cur := ClimbStep(cur);
        StepOn(t, root, nyt, c);
      }
      ClimbAtRoot(arena.nodes, root, nyt);
      arena.IncrementWeight(root);
    }

    /**
     * swapNodes(a, b): both are detached, b is put in a's former slot and a in b's, and
     * the two node numbers are exchanged. The two must have parents and neither may be
     * the other's parent.
     */
    method SwapNodes(a: nat, b: nat)
      requires arena.Linked() && Binary(arena.nodes) && Links(arena.nodes)
      requires a < |arena.nodes| && b < |arena.nodes| && a != b
      requires arena.nodes[a].parent.Some? && arena.nodes[b].parent.Some?
      requires arena.nodes[a].parent != Some(b) && arena.nodes[b].parent != Some(a)
      requires arena.nodes[a].parent != Some(a) && arena.nodes[b].parent != Some(b)
      modifies arena
      ensures arena.Linked() && arena.nodes == Swapped(old(arena.nodes), a, b) && unchanged(this)
    {
      ghost var t := arena.nodes;
      var pa := arena.nodes[a].parent.value;
      var pb := arena.nodes[b].parent.value;
      var aWasLeft := arena.IsLeftChild(a);
      var bWasLeft := arena.IsLeftChild(b);
      SwapPlan(t, a, b);
      arena.DetachFromParent(a);
      assert arena.nodes == Detach(t, a);
      arena.DetachFromParent(b);
      assert arena.nodes == Detach(Detach(t, a), b);
      var ok: bool;
      if aWasLeft {
        ok := arena.SetLeft(pa, b);
      } else {
        ok := arena.SetRight(pa, b);
      }
      assert arena.nodes == Attach(Detach(Detach(t, a), b), pa, b, aWasLeft);
      if bWasLeft {
        ok := arena.SetLeft(pb, a);
      } else {
        ok := arena.SetRight(pb, a);
      }
      assert arena.nodes == Attach(Attach(Detach(Detach(t, a), b), pa, b, aWasLeft), pb, a, bWasLeft);
      var temp := arena.nodes[a].number;
      arena.SetNodeNumber(a, arena.nodes[b].number);
      arena.SetNodeNumber(b, temp);
    }

    /**
     * getCode(c): `None` (the source throws) for a character neither transmitted nor in
     * the alphabet. Otherwise it starts from c's leaf with the empty code, or from the NYT
     * with c's default code, and climbs to the root, setting the bit above the code so far
     * whenever the node it leaves is a right child.
     */
    method GetCode(c: char) returns (p: Option<CodePair>)
      requires Valid()
      ensures p == Coding.GetCode(Model(), alphabetIndexes, |alphabet|, e, r, c)
    {
      var n: nat;
      var d: CodePair;
      if c in transmitted {
        n, d := transmitted[c], CodePair(0, 0);
        NoBits(PathTo(arena.nodes, root, n));
      } else {
        var dc := GetDefaultCode(alphabetIndexes, |alphabet|, e, r, c);
        if dc.None? {
          return None;
        }
        n, d := nyt, dc.value;
      }
      var code := ClimbToRoot(n, d);
      p := Some(code);
    }

    /**
     * One turn of encode: write c's code, then update(c). `None` (the source throws) for
     * a character outside the alphabet, before anything is written or updated.
     */
    method EncodeChar(c: char) returns (code: Option<seq<bool>>)
      requires Valid()
      modifies this, arena
      ensures arena == old(arena) && Valid()
      ensures EncodeSymbol(Letters(), old(Model()), c) == if code.None? then None else Some((code.value, Model()))
      ensures code.None? ==> Model() == old(Model())
    {
      var p := GetCode(c);
      if p.None? {
        return None;
      }
      var ok := Update(c);
      code := Some(CodeBits(p.value));
    }

    /**
     * encode(input): each character's code in turn, the model updated after each, then the
     * code of the end-of-input character (the alphabet's last) and its update; closing the
     * output pads the bits to a whole number of bytes. `None` (the source throws) when a
     * character is outside the alphabet.
     */
    method Encode(input: seq<char>) returns (out: Option<seq<bool>>)
      requires Valid()
      modifies this, arena
      ensures arena == old(arena) && Valid()
      ensures Codec.Encode(Letters(), old(Model()), input) == if out.None? then None else Some((out.value, Model()))
    {
      ghost var all := input + [Eof(Letters())];
      ghost var goal := EncodeAll(Letters(), Model(), all);
      EncodeByLoop(Letters(), Model(), input);
      var bits: seq<bool> := [];
      var i := 0;
      while i < |input|
        invariant i <= |input| && arena == old(arena) && Valid()
        invariant goal == Joined(bits, EncodeAll(Letters(), Model(), all[i..]))
      {
        ghost var m0 := Model();
        SuffixStep(input, Eof(Letters()), i);
        EncodeAllStep(Letters(), m0, all[i..], bits);
        var code := EncodeChar(input[i]);
        if code.None? {
          assert goal.None?;
          return None;
        }
        ghost var m1 := Model();
        assert goal == Joined(bits + code.value, EncodeAll(Letters(), m1, all[i + 1..]));
        bits := bits + code.value;
        i := i + 1;
      }
      ghost var m0 := Model();
      SuffixStep(input, Eof(Letters()), i);
      EncodeAllStep(Letters(), m0, all[i..], bits);
      IndexOfSymbol(Letters(), |alphabet| - 1);
      var code := EncodeChar(Eof(Letters()));
      ghost var m1 := Model();
      assert goal == Joined(bits + code.value, EncodeAll(Letters(), m1, []));
      bits := bits + code.value;
      NilRight(bits);
      assert goal == Some((bits, m1));
      out := Some(Padded(bits));
    }

    /**
     * decode(bits): from the root, each bit read moves the cursor to the left (0) or right
     * (1) child. At a leaf the character is resolved: at the NYT by reading a default code,
     * elsewhere from charByNode. The end-of-input character ends decoding; any other is
     * output and the model updated, and the cursor goes back to the root. Decoding also
     * ends when the bits run out (read returns -1), and, where the source would fail,
     * when they run out inside a default code. The characters output, the model updated
     * by each of them.
     */
    method Decode(bits: seq<bool>) returns (output: seq<char>)
      requires Valid()
      modifies this, arena
      ensures arena == old(arena) && Valid()
      ensures Codec.Decode(Letters(), old(Model()), bits) == (output, Model())
    {
      ghost var goal := Codec.Decode(Letters(), Model(), bits);
      output := [];
      var cur: nat := root;
      var i: nat := 0;
      ghost var start: nat := 0;
      var bit: int := 0;
      AtRoot(arena.nodes, root, bits, 0);
      assert bits[0..] == bits;
      while bit != -1
        invariant arena == old(arena) && Valid()
        invariant start <= i <= |bits| && cur < |arena.nodes| && -1 <= bit <= 1
        invariant bit != -1 ==> At(arena.nodes, root, cur, bits, start, i)
        invariant bit != -1 ==> goal == Then(output, Codec.Decode(Letters(), Model(), bits[start..]))
        invariant bit == -1 ==> goal == (output, Model())
        decreases |bits| - i, bit + 1
      {
        InUseShape(Letters(), Model());
        if arena.nodes[cur].IsLeaf() {
          AtLeaf(arena.nodes, root, cur, bits, start, i);
          var c, j := DecodeLeaf(bits, cur, i, start);
          if c.None? {
            ThenNil(output, Model());
            return;
          }
          ThenCons(output, c.value, Codec.Decode(Letters(), Model(), bits[j..]));
          output := output + [c.value];
          cur, i, start := root, j, j;
          InUseShape(Letters(), Model());
          AtRoot(arena.nodes, root, bits, i);
        }
        bit, cur, i := ReadStep(bits, cur, i, start);
        if bit == -1 {
          ThenNil(output, Model());
        }
      }
    }

    /**
     * decode's step down the tree from the internal node cur: read one bit and move to the
     * left child on 0, to the right one otherwise. The bit is -1 when the bits have run
     * out, and decoding then stops with the model as it is.
     */
    method ReadStep(bits: seq<bool>, cur: nat, i: nat, ghost start: nat) returns (bit: int, next: nat, j: nat)
      requires Valid() && InRange(arena.nodes) && Binary(arena.nodes) && root < |arena.nodes|
      requires start <= i <= |bits| && cur < |arena.nodes| && !arena.nodes[cur].IsLeaf()
      requires At(arena.nodes, root, cur, bits, start, i)
      ensures next < |arena.nodes| && i <= j <= |bits|
      ensures bit == -1 <==> i == |bits|
      ensures bit != -1 ==> bit == BitValue(bits[i]) && j == i + 1 && At(arena.nodes, root, next, bits, start, j)
      ensures bit == -1 ==> j == i && Codec.Decode(Letters(), Model(), bits[start..]) == ([], Model())
    {
      if i < |bits| {
        bit := BitValue(bits[i]);
        AtChild(arena.nodes, root, cur, bits, start, i);
        j := i + 1;
      } else {
        bit := -1;
        AtEnd(Letters(), Model(), cur, bits, start);
        j := i;
      }
      if bit == 0 {
        next := arena.nodes[cur].left.value;
      } else {
        next := arena.nodes[cur].right.value;
      }
    }

    /**
     * decode at the leaf cur, reached over bits[start..i]: its character is resolved; the
     * end-of-input character, or bits running out inside a default code, stop decoding
     * (`None`), any other character is output and the model updated, and decoding goes on
     * from position j.
     */
    method DecodeLeaf(bits: seq<bool>, cur: nat, i: nat, ghost start: nat) returns (c: Option<char>, j: nat)
      requires Valid() && start <= i <= |bits| && cur < |arena.nodes| && arena.nodes[cur].IsLeaf()
      requires Descend(arena.nodes, root, bits[start..]).Some? && Descend(arena.nodes, root, bits[start..]).value.0 == cur
      requires Descend(arena.nodes, root, bits[start..]).value.1 == i - start
      modifies this, arena
      ensures arena == old(arena) && Valid() && i <= j <= |bits|
      ensures c.None? ==> Codec.Decode(Letters(), old(Model()), bits[start..]) == ([], Model())
      ensures c.Some? ==> !arena.nodes[root].IsLeaf()
      ensures c.Some? ==>
                var more := Codec.Decode(Letters(), Model(), bits[j..]);
                Codec.Decode(Letters(), old(Model()), bits[start..]) == ([c.value] + more.0, more.1)
    {
      ghost var m := Model();
      var resolved;
      resolved, j := ResolveSymbol(bits, cur, i);
      if resolved.None? || resolved.value == Eof(Letters()) {
        LeafStop(Letters(), m, bits, start, i, cur);
        return None, j;
      }
      LeafGo(Letters(), m, bits, start, i, cur, resolved.value, j);
      var ok := Update(resolved.value);
      UpdatedRootInternal(m, Model(), resolved.value);
      c := resolved;
    }

    /**
     * decode at a leaf, reading on from position i: the NYT's character is the alphabet
     * letter whose default code follows, any other leaf's is the one charByNode gives it.
     * `None` when the bits run out inside the default code; the character and the position
     * after it otherwise.
     */
    method ResolveSymbol(bits: seq<bool>, cur: nat, i: nat) returns (c: Option<char>, j: nat)
      requires Valid() && i <= |bits| && cur < |arena.nodes| && arena.nodes[cur].IsLeaf()
      ensures i <= j <= |bits|
      ensures c.None? <==> Resolve(Letters(), Model(), cur, bits[i..]).None?
      ensures c.Some? ==> Resolve(Letters(), Model(), cur, bits[i..]).value.0 == c.value
      ensures c.Some? ==> Resolve(Letters(), Model(), cur, bits[i..]).value.1 == j - i
    {
      if cur != nyt {
        return Some(charByNode[cur]), i;
      }
      var b;
      b, j := ReadIndex(bits, i);
      if b.None? {
        return None, j;
      }
      ReadDefaultInRange(bits[i..], |alphabet|, e, r);
      c := Some(alphabet[b.value]);
    }

    /**
     * decode's NYT branch: read e bits as b; if b < r read one more bit and take 2b + bit,
     * otherwise take b + r. `None` when the bits run out first. Reading starts at i and
     * ends at j.
     */
    method ReadIndex(bits: seq<bool>, i: nat) returns (b: Option<nat>, j: nat)
      requires i <= |bits|
      ensures i <= j <= |bits|
      ensures b.None? <==> ReadDefault(bits[i..], e, r).None?
      ensures b.Some? ==> ReadDefault(bits[i..], e, r).value.0 == b.value
      ensures b.Some? ==> ReadDefault(bits[i..], e, r).value.1 == j - i
    {
      if |bits| - i < e {
        return None, i;
      }
      assert bits[i..][..e] == bits[i..i + e];
      var v := FromBits(bits[i..i + e]);
      j := i + e;
      if v < r {
        if j == |bits| {
          return None, j;
        }
        b := Some(2 * v + BitValue(bits[j]));
        j := j + 1;
      } else {
        b := Some(v + r);
      }
    }

    /** getCode's loop from n with the pair d: the path from the root to n placed above d. */
    method ClimbToRoot(n: nat, d: CodePair) returns (p: CodePair)
      requires Struct(arena.nodes, root) && n < |arena.nodes| && d.code < Pow2(d.length)
      ensures p == PrefixCode(PathTo(arena.nodes, root, n), d)
    {
      ghost var t := arena.nodes;
      var cur: nat := n;
      p := d;
      ghost var goal := PrefixCode(PathTo(t, root, n), d);
      while cur != root
        invariant cur < |t| && p.code < Pow2(p.length)
        invariant PrefixCode(PathTo(t, root, cur), p) == goal
        decreases t[root].number - t[cur].number
      {
        ClimbCode(t, root, cur, p);
        var right := arena.IsRightChild(cur);
        // a right step sets the bit just above the code so far, a left step leaves it clear
        p := Prepended(p, right);
        cur := arena.nodes[cur].parent.value;
      }
      NoBits(PathTo(t, root, root));
    }
  }

  /** encode's result is what its loop writes, padded, and the model the loop ends with. */
  lemma EncodeByLoop(a: Alphabet, s: State, cs: seq<char>)
    requires WellFormed(a) && InUse(a, s)
    ensures var all := EncodeAll(a, s, cs + [Eof(a)]);
      Encode(a, s, cs) == if all.None? then None else Some((Padded(all.value.0), all.value.1))
  {
  }

  /**
   * isLeftChild / isRightChild on a well-formed tree: the root is neither, and every
   * other node is exactly one of the two.
   */
  lemma ChildSides(arena: Arena, root: nat, x: nat)
    requires Struct(arena.nodes, root) && x < |arena.nodes|
    ensures x == root ==> !arena.IsLeftChild(x) && !arena.IsRightChild(x)
    ensures x != root ==> arena.IsLeftChild(x) != arena.IsRightChild(x)
  {
    if x != root {
      var p := arena.nodes[x].parent.value;
      assert arena.nodes[p].left == Some(x) || arena.nodes[p].right == Some(x);
    }
  }

  /** The suffix of cs + [x] from position i starts with the character at i and goes on from i + 1. */
  lemma SuffixStep(cs: seq<char>, x: char, i: nat)
    requires i <= |cs|
    ensures (cs + [x])[i..] != [] && (cs + [x])[i..][1..] == (cs + [x])[i + 1..]
    ensures (cs + [x])[i..][0] == if i < |cs| then cs[i] else x
    ensures i == |cs| ==> (cs + [x])[i + 1..] == []
  {
  }

  /** detachFromParent on a node x with a parent: the slot holding x is emptied, then x loses its parent. */
  function Detach(t: Tree, x: nat): Tree
    requires x < |t| && t[x].parent.Some? && t[x].parent.value < |t|
  {
    var p := t[x].parent.value;
    var u := if t[p].left == Some(x) then t[p := t[p].(left := None)] else t[p := t[p].(right := None)];
    u[x := u[x].(parent := None)]
  }

  /** setLeft / setRight of c into p. */
  function Attach(t: Tree, p: nat, c: nat, left: bool): Tree
    requires p < |t| && c < |t|
  {
    var u := t[c := t[c].(parent := Some(p))];
    if left then u[p := u[p].(left := Some(c))] else u[p := u[p].(right := Some(c))]
  }

  /** The two node numbers traded. */
  function Renumber(t: Tree, a: nat, b: nat): Tree
    requires a < |t| && b < |t|
  {
    var temp := t[a].number;
    var u := t[a := t[a].(number := t[b].number)];
    u[b := u[b].(number := temp)]
  }

  /** A child slot with a dropped: emptied if it held a. */
  function Drop(link: Option<nat>, a: nat): Option<nat>
  {
    if link == Some(a) then None else link
  }

  /** The tree with x cut loose from its parent: no slot holds x and x has no parent. */
  function Loose(t: Tree, x: nat): (u: Tree)
    ensures |u| == |t|
  {
    seq(|t|, i requires 0 <= i < |t| =>
      t[i].(left := Drop(t[i].left, x), right := Drop(t[i].right, x), parent := if i == x then None else t[i].parent))
  }

  /** x sits in exactly one slot of p and in no slot of any other node. */
  ghost predicate HeldOnlyBy(t: Tree, x: nat, p: nat)
    requires p < |t|
  {
    (t[p].left == Some(x) <==> t[p].right != Some(x)) &&
    forall i | 0 <= i < |t| && i != p :: t[i].left != Some(x) && t[i].right != Some(x)
  }

  /** detachFromParent on a node held only by its parent cuts exactly that node loose. */
  lemma DetachIsLoose(t: Tree, x: nat)
    requires x < |t| && t[x].parent.Some? && t[x].parent.value < |t| && t[x].parent != Some(x)
    requires HeldOnlyBy(t, x, t[x].parent.value)
    ensures Detach(t, x) == Loose(t, x)
  {
    var d, u := Detach(t, x), Loose(t, x);
    forall i | 0 <= i < |t|
      ensures d[i] == u[i]
    {
    }
  }

  /** In a linked binary tree every node with a parent is held by it alone. */
  lemma LinkedHeld(t: Tree, x: nat)
    requires InRange(t) && Binary(t) && Links(t) && x < |t| && t[x].parent.Some?
    ensures t[x].parent.value < |t| && HeldOnlyBy(t, x, t[x].parent.value)
  {
    var p := t[x].parent.value;
    assert LinkIn(t[x].parent, |t|);
    forall i | 0 <= i < |t| && i != p
      ensures t[i].left != Some(x) && t[i].right != Some(x)
    {
      assert t[x].parent != Some(i);
    }
  }

  /**
   * swapNodes's edits, in order, land on the swapped tree, and each finds what it needs:
   * b still under its parent after a is detached, and the slots to fill empty.
   */
  lemma SwapPlan(t: Tree, a: nat, b: nat)
    requires InRange(t) && Binary(t) && Links(t) && a < |t| && b < |t| && a != b
    requires t[a].parent.Some? && t[b].parent.Some? && t[a].parent != Some(b) && t[b].parent != Some(a)
    requires t[a].parent != Some(a) && t[b].parent != Some(b)
    ensures var pa, pb := t[a].parent.value, t[b].parent.value;
      var aLeft, bLeft := t[pa].left == Some(a), t[pb].left == Some(b);
      var t1 := Detach(t, a);
      t1[b].parent == Some(pb) && (t1[pb].left == Some(b) || t1[pb].right == Some(b)) &&
      (t1[pb].left == Some(b)) == bLeft &&
      var t2 := Detach(t1, b);
      (if aLeft then t2[pa].left.None? else t2[pa].right.None?) &&
      var t3 := Attach(t2, pa, b, aLeft);
      (if bLeft then t3[pb].left.None? else t3[pb].right.None?) &&
      Renumber(Attach(t3, pb, a, bLeft), a, b) == Swapped(t, a, b)
  {
    var pa, pb := t[a].parent.value, t[b].parent.value;
    var aLeft, bLeft := t[pa].left == Some(a), t[pb].left == Some(b);
    LinkedHeld(t, a);
    LinkedHeld(t, b);
    DetachIsLoose(t, a);
    var t1 := Loose(t, a);
    assert t1[b] == t[b].(left := Drop(t[b].left, a), right := Drop(t[b].right, a));
    assert t1[pb].left == Drop(t[pb].left, a) && t1[pb].right == Drop(t[pb].right, a);
    forall i | 0 <= i < |t| && i != pb
      ensures t1[i].left != Some(b) && t1[i].right != Some(b)
    {
    }
    DetachIsLoose(t1, b);
    SwapRewire(t, a, b);
  }

  /** Cutting a and then b loose empties every slot that held either and clears both parents. */
  lemma LooseBoth(t: Tree, a: nat, b: nat)
    ensures forall i | 0 <= i < |t| ::
      Loose(Loose(t, a), b)[i] == t[i].(left := Drop(Drop(t[i].left, a), b), right := Drop(Drop(t[i].right, a), b),
                                        parent := if i == a || i == b then None else t[i].parent)
  {
  }

  /** Filling the emptied slots crosswise and trading the numbers yields the swapped tree. */
  lemma SwapRewire(t: Tree, a: nat, b: nat)
    requires InRange(t) && Binary(t) && Links(t) && a < |t| && b < |t| && a != b
    requires t[a].parent.Some? && t[b].parent.Some? && t[a].parent != Some(b) && t[b].parent != Some(a)
    requires t[a].parent != Some(a) && t[b].parent != Some(b)
    ensures var pa, pb := t[a].parent.value, t[b].parent.value;
      var aLeft, bLeft := t[pa].left == Some(a), t[pb].left == Some(b);
      var t2 := Loose(Loose(t, a), b);
      (if aLeft then t2[pa].left.None? else t2[pa].right.None?) &&
      var t3 := Attach(t2, pa, b, aLeft);
      (if bLeft then t3[pb].left.None? else t3[pb].right.None?) &&
      Renumber(Attach(t3, pb, a, bLeft), a, b) == Swapped(t, a, b)
  {
    var pa, pb := t[a].parent.value, t[b].parent.value;
    var aLeft, bLeft := t[pa].left == Some(a), t[pb].left == Some(b);
    LinkedHeld(t, a);
    LinkedHeld(t, b);
    var t2 := Loose(Loose(t, a), b);
    LooseBoth(t, a, b);
    var t3 := Attach(t2, pa, b, aLeft);
    var t4 := Attach(t3, pb, a, bLeft);
    var u := Renumber(t4, a, b);
    forall i | 0 <= i < |t|
      ensures u[i] == SwappedNode(t, a, b, i)
    {
      if i == pa || i == pb {
      } else if i == a || i == b {
      } else {
        assert t[i].left != Some(a) && t[i].left != Some(b) && t[i].right != Some(a) && t[i].right != Some(b);
      }
    }
  }

  /** A first occurrence: the split, and below the root the climb from the old NYT's parent. */
  lemma NewSymbolPlan(s: State, idx: map<char, nat>, c: char)
    requires Valid(s) && c in idx && c !in s.transmitted
    ensures s.nyt == s.root ==> ModelState.Update(s, idx, c) == Some(SplitState(s, c))
    ensures s.nyt != s.root ==> s.nodes[s.nyt].parent.Some? && s.nodes[s.nyt].parent.value < |s.nodes|
    ensures s.nyt != s.root ==>
      var s1, p := SplitState(s, c), s.nodes[s.nyt].parent.value;
      ClimbInv(s1.nodes, s1.root, s1.nyt, p) &&
      ModelState.Update(s, idx, c) == Some(s1.(nodes := Climb(s1.nodes, s1.root, s1.nyt, p)))
  {
    if s.nyt != s.root {
      SplitReady(s, c);
    }
  }

  /** The NYT's sibling: swap to the top of its block of leaves, increment, climb from its parent. */
  lemma SiblingPlan(s: State, idx: map<char, nat>, c: char)
    requires Valid(s) && c in idx && c in s.transmitted
    requires s.nodes[s.transmitted[c]].parent == s.nodes[s.nyt].parent
    ensures var n := s.transmitted[c];
      var t1 := SwapToTop(s.nodes, s.root, n, true);
      t1[n].parent.Some? &&
      var t2, m := Incremented(t1, n), t1[n].parent.value;
      ClimbInv(t2, s.root, s.nyt, m) &&
      ModelState.Update(s, idx, c) == Some(s.(nodes := Climb(t2, s.root, s.nyt, m)))
  {
    var n := s.transmitted[c];
    assert s.nyt != s.root;
    SiblingEntry(s.nodes, s.root, s.nyt, n);
  }

  /** Any other transmitted symbol: climb from its leaf. */
  lemma LeafPlan(s: State, idx: map<char, nat>, c: char)
    requires Valid(s) && c in idx && c in s.transmitted
    requires s.nodes[s.transmitted[c]].parent != s.nodes[s.nyt].parent
    ensures ClimbInv(s.nodes, s.root, s.nyt, s.transmitted[c])
    ensures ModelState.Update(s, idx, c) == Some(s.(nodes := Climb(s.nodes, s.root, s.nyt, s.transmitted[c])))
  {
    LeafEntry(s.nodes, s.root, s.nyt, s.transmitted[c]);
  }

  /** Two nodes a swap may trade meet what swapNodes needs of them. */
  lemma SwapFine(t: Tree, root: nat, a: nat, b: nat)
    requires Struct(t, root) && a < |t| && b < |t| && SwapOk(t, root, a, b)
    ensures t[a].parent.Some? && t[b].parent.Some?
    ensures t[a].parent != Some(a) && t[b].parent != Some(b)
  {
    assert LinkIn(t[a].parent, |t|) && LinkIn(t[b].parent, |t|);
  }

  /** The tree after the swap half of a step with partner h: swapped when h is another node. */
  function Exchanged(t: Tree, n: nat, h: Option<nat>): Tree
    requires n < |t| && (h.Some? ==> h.value < |t|)
  {
    if h.Some? && h.value != n then Swapped(t, n, h.value) else t
  }

  /** What swapNodes needs of the cursor n and a partner h, and a parent for n afterwards. */
  ghost predicate SwapReady(t: Tree, n: nat, h: Option<nat>)
    requires n < |t|
  {
    if h.Some? && h.value != n then
      h.value < |t| && t[n].parent.Some? && t[h.value].parent.Some? &&
      t[n].parent != Some(h.value) && t[h.value].parent != Some(n) &&
      t[n].parent != Some(n) && t[h.value].parent != Some(h.value)
    else
      (h.Some? ==> h.value < |t|) && t[n].parent.Some?
  }

  /** One turn of the climb leaves the rest of it to finish the same way, from a cursor numbered higher up. */
  lemma StepOn(t: Tree, root: nat, nyt: nat, n: nat)
    requires ClimbInv(t, root, nyt, n) && n != root
    ensures var s := Step(t, root, n);
      s[n].parent.Some? && s[n].parent.value < |s| &&
      ClimbInv(s, root, nyt, s[n].parent.value) &&
      Climb(s, root, nyt, s[n].parent.value) == Climb(t, root, nyt, n) &&
      s[root].number == t[root].number && t[n].number < s[s[n].parent.value].number
  {
    StepKeepsClimb(t, root, nyt, n);
  }

  /** A state whose node list the climb from n has replaced. */
  ghost function WithClimb(p: State, n: nat): State
    requires ClimbInv(p.nodes, p.root, p.nyt, n)
  {
    p.(nodes := Climb(p.nodes, p.root, p.nyt, n))
  }

  /** At the root the climb is the root's increment. */
  lemma ClimbAtRoot(t: Tree, root: nat, nyt: nat)
    requires ClimbInv(t, root, nyt, root)
    ensures Climb(t, root, nyt, root) == Incremented(t, root)
  {
  }

  /** The leaf search's answer is a partner swapNodes accepts, and it decides the swap half. */
  lemma LeafTopFine(t: Tree, root: nat, n: nat, h: Option<nat>)
    requires Struct(t, root) && n < |t| && n != root && t[n].IsLeaf()
    requires h == MaxInBlock(t, root, t[n].weight, true)
    ensures Binary(t) && Links(t) && SwapReady(t, n, h) && Exchanged(t, n, h) == SwapToTop(t, root, n, true)
  {
    assert LinkIn(t[n].parent, |t|);
    if h.Some? && h.value != n {
      LeafSwapOk(t, root, n, h.value);
      SwapFine(t, root, n, h.value);
    }
  }

  /** The node search's answer is a partner swapNodes accepts, and it decides the swap half. */
  lemma NodeTopFine(t: Tree, root: nat, nyt: nat, n: nat, h: Option<nat>)
    requires ClimbInv(t, root, nyt, n) && n != root
    requires h == MaxInBlock(t, root, t[n].weight, false)
    ensures Binary(t) && Links(t) && SwapReady(t, n, h) && Exchanged(t, n, h) == SwapToTop(t, root, n, false)
    ensures Incremented(Exchanged(t, n, h), n) == Step(t, root, n)
    ensures Step(t, root, n)[n].parent == Exchanged(t, n, h)[n].parent
  {
    assert LinkIn(t[n].parent, |t|);
    if h.Some? && h.value != n {
      assert Candidate(t, root, t[n].weight, false, n);
      assert t[n].number < t[h.value].number;
      SwapAllowed(t, root, nyt, n, h.value);
      SwapFine(t, root, n, h.value);
    }
  }
}
