/**
 * Codes read off the tree: getCode climbs from a symbol's leaf (or from the NYT, after the
 * symbol's default code) to the root, and the decoder descends from the root one bit per
 * internal node, 0 to the left and 1 to the right, until it stands on a leaf.
 */
module Coding {
  import opened Wrappers
  import opened Bits
  import opened Nodes
  import opened TreeShape
  import opened DefaultCode
  import opened ModelState

  /** The value form of `Nodes.Arena.IsRightChild` (isRightChild), over a node list: n has a parent whose right slot holds n. */
  predicate IsRight(t: Tree, n: nat)
    requires InRange(t) && n < |t|
  {
    t[n].parent.Some? && t[t[n].parent.value].right == Some(n)
  }

  /** The branch bits from the root down to n: true for each step into a right slot. */
  function PathTo(t: Tree, root: nat, n: nat): (path: seq<bool>)
    requires Struct(t, root) && n < |t|
    ensures path == [] <==> n == root
    ensures |path| <= t[root].number - t[n].number
    decreases t[root].number - t[n].number
  {
    if n == root then [] else PathTo(t, root, t[n].parent.value) + [IsRight(t, n)]
  }

  /** One step of the climb: n's path is its parent's path and the side n hangs on. */
  lemma PathStep(t: Tree, root: nat, n: nat)
    requires Struct(t, root) && n < |t| && n != root
    ensures t[n].parent.Some? && t[n].parent.value < |t|
    ensures PathTo(t, root, n) == PathTo(t, root, t[n].parent.value) + [IsRight(t, n)]
    ensures FromBits(PathTo(t, root, n)) == 2 * FromBits(PathTo(t, root, t[n].parent.value)) + BitValue(IsRight(t, n))
  {
    var path := PathTo(t, root, n);
    assert path[..|path| - 1] == PathTo(t, root, t[n].parent.value);
  }

  /**
   * getCode as a value: `None` (the source throws) for a symbol neither transmitted nor in
   * the alphabet. A transmitted symbol's code is the path to its leaf; any other symbol's
   * is the path to the NYT followed by its default code, which occupies the low bits.
   */
  function GetCode(s: State, alphabetIndexes: map<char, nat>, size: nat, e: nat, r: nat, c: char): (p: Option<CodePair>)
    requires Valid(s) && Parameters(size, e, r)
    requires forall x :: x in alphabetIndexes ==> alphabetIndexes[x] < size
    ensures p.None? <==> c !in s.transmitted && c !in alphabetIndexes
    ensures p.Some? ==> p.value.code < Pow2(p.value.length)
    ensures p.Some? && c in s.transmitted ==> CodeBits(p.value) == PathTo(s.nodes, s.root, s.transmitted[c])
    ensures p.Some? && c !in s.transmitted ==>
              GetDefaultCode(alphabetIndexes, size, e, r, c).Some? &&
              CodeBits(p.value) == PathTo(s.nodes, s.root, s.nyt) + CodeBits(GetDefaultCode(alphabetIndexes, size, e, r, c).value)
  {
    if c in s.transmitted then
      var path := PathTo(s.nodes, s.root, s.transmitted[c]);
      NoBits(path);
      Some(PrefixCode(path, CodePair(0, 0)))
    else
      var dc := GetDefaultCode(alphabetIndexes, size, e, r, c);
      if dc.None? then None
      else
        Some(PrefixCode(PathTo(s.nodes, s.root, s.nyt), dc.value))
  }

  /** The number whose low m bits are lo and whose higher bits are hi. */
  function Above(hi: nat, lo: nat, m: nat): nat
  {
    lo + Pow2(m) * hi
  }

  /**
   * The code pair getCode builds by climbing from a node whose path from the root is
   * `path`, starting from the pair d: each step up places one more bit above the others.
   */
  function PrefixCode(path: seq<bool>, d: CodePair): (p: CodePair)
    requires d.code < Pow2(d.length)
    ensures p.code < Pow2(p.length) && CodeBits(p) == path + CodeBits(d)
  {
    AppendCode(path, d.code, d.length);
    CodePair(Above(FromBits(path), d.code, d.length), |path| + d.length)
  }

  /** The path's bits placed above a code of m bits write out as the path followed by that code. */
  lemma AppendCode(path: seq<bool>, lo: nat, m: nat)
    requires lo < Pow2(m)
    ensures Above(FromBits(path), lo, m) < Pow2(|path| + m)
    ensures ToBits(Above(FromBits(path), lo, m), |path| + m) == path + ToBits(lo, m)
  {
    ToBitsConcat(FromBits(path), |path|, lo, m);
    ToFromBits(path);
    CodeBound(FromBits(path), |path|, lo, m);
  }

  /** The pair getCode holds after one step up from n: n's side placed above the code so far. */
  function Prepended(d: CodePair, b: bool): (q: CodePair)
    requires d.code < Pow2(d.length)
    ensures q.code < Pow2(q.length) && CodeBits(q) == [b] + CodeBits(d)
  {
    AppendCode([b], d.code, d.length);
    assert FromBits([b]) == BitValue(b);
    if b then CodePair(d.code + Pow2(d.length), d.length + 1) else CodePair(d.code, d.length + 1)
  }

  /**
   * One turn of getCode's loop: from n with pair d, or from n's parent with n's side
   * placed above d, the climb ends with the same pair.
   */
  lemma ClimbCode(t: Tree, root: nat, n: nat, d: CodePair)
    requires Struct(t, root) && n < |t| && n != root && d.code < Pow2(d.length)
    ensures t[n].parent.Some? && t[n].parent.value < |t|
    ensures t[n].number < t[t[n].parent.value].number <= t[root].number
    ensures PrefixCode(PathTo(t, root, n), d) == PrefixCode(PathTo(t, root, t[n].parent.value), Prepended(d, IsRight(t, n)))
  {
    PathStep(t, root, n);
    PrefixCodeSnoc(PathTo(t, root, t[n].parent.value), IsRight(t, n), d);
  }

  /** Placing a path ending in b above d is placing the path without b above b's bit placed above d. */
  lemma PrefixCodeSnoc(up: seq<bool>, b: bool, d: CodePair)
    requires d.code < Pow2(d.length)
    ensures PrefixCode(up + [b], d) == PrefixCode(up, Prepended(d, b))
  {
    var x := PrefixCode(up + [b], d);
    var y := PrefixCode(up, Prepended(d, b));
    assert (up + [b]) + CodeBits(d) == up + ([b] + CodeBits(d));
    FromToBits(x.code, x.length);
    FromToBits(y.code, y.length);
  }

  /** A number of k bits above one of m bits fits in k + m bits. */
  lemma CodeBound(hi: nat, k: nat, lo: nat, m: nat)
    requires hi < Pow2(k) && lo < Pow2(m)
    ensures lo + Pow2(m) * hi < Pow2(k + m)
  {
    Pow2Add(k, m);
    MulLe(Pow2(m), hi + 1, Pow2(k));
  }

  // Sequence or arithmetic fact, not a claim about the model: stated apart to keep proof cost down.
  lemma MulLe(a: nat, b: nat, c: nat)
    requires b <= c
    ensures a * b <= a * c
  {
  }

  /** Shifts the number of bits consumed by a descent. */
  function After(res: Option<(nat, nat)>, k: nat): Option<(nat, nat)>
  {
    if res.None? then None else Some((res.value.0, res.value.1 + k))
  }

  lemma AfterAfter(res: Option<(nat, nat)>, j: nat, k: nat)
    ensures After(After(res, j), k) == After(res, j + k)
  {
  }

  /**
   * The decoder's descent from m: the leaf reached by following the bits and how many bits
   * that took, or `None` when the bits run out first.
   */
  function Descend(t: Tree, m: nat, bits: seq<bool>): (res: Option<(nat, nat)>)
    requires InRange(t) && Binary(t) && m < |t|
    ensures res.Some? ==> res.value.0 < |t| && t[res.value.0].IsLeaf() && res.value.1 <= |bits|
    ensures res.Some? && !t[m].IsLeaf() ==> res.value.1 >= 1
    ensures t[m].IsLeaf() ==> res == Some((m, 0))
    decreases |bits|
  {
    if t[m].IsLeaf() then Some((m, 0))
    else if bits == [] then None
    else
      var child := if bits[0] then t[m].right.value else t[m].left.value;
      After(Descend(t, child, bits[1..]), 1)
  }

  /** One step down from an internal node p into the child the first bit names. */
  lemma DescendStep(t: Tree, p: nat, n: nat, b: bool, rest: seq<bool>)
    requires InRange(t) && Binary(t) && p < |t| && n < |t|
    requires (if b then t[p].right else t[p].left) == Some(n)
    ensures Descend(t, p, [b] + rest) == After(Descend(t, n, rest), 1)
  {
    assert ([b] + rest)[1..] == rest;
  }

  /** Reaching p after `up` and then stepping to its child n is reaching n after `up + [b]`. */
  lemma DescendCompose(t: Tree, root: nat, p: nat, n: nat, b: bool, up: seq<bool>, rest: seq<bool>)
    requires InRange(t) && Binary(t) && root < |t| && p < |t| && n < |t|
    requires (if b then t[p].right else t[p].left) == Some(n)
    requires Descend(t, root, up + ([b] + rest)) == After(Descend(t, p, [b] + rest), |up|)
    ensures Descend(t, root, (up + [b]) + rest) == After(Descend(t, n, rest), |up + [b]|)
  {
    assert (up + [b]) + rest == up + ([b] + rest);
    DescendStep(t, p, n, b, rest);
    AfterAfter(Descend(t, n, rest), 1, |up|);
  }

  /** Following the path to n from the root lands on n, whatever bits come next. */
  lemma {:induction false} DescendPath(t: Tree, root: nat, n: nat, rest: seq<bool>)
    requires Struct(t, root) && n < |t|
    ensures Descend(t, root, PathTo(t, root, n) + rest) == After(Descend(t, n, rest), |PathTo(t, root, n)|)
    decreases t[root].number - t[n].number
  {
    if n != root {
      PathStep(t, root, n);
      var p := t[n].parent.value;
      var b := IsRight(t, n);
      var up := PathTo(t, root, p);
      AppendAssoc(up, b, rest);
      DescendPath(t, root, p, [b] + rest);
      assert t[p].left == Some(n) || t[p].right == Some(n);
      DescendCompose(t, root, p, n, b, up, rest);
    } else {
      assert PathTo(t, root, n) + rest == rest;
      assert After(Descend(t, n, rest), 0) == Descend(t, n, rest);
    }
  }

  /** The decoder finds each leaf at the end of its path. */
  lemma DescendToLeaf(t: Tree, root: nat, n: nat, rest: seq<bool>)
    requires Struct(t, root) && n < |t| && t[n].IsLeaf()
    ensures Descend(t, root, PathTo(t, root, n) + rest) == Some((n, |PathTo(t, root, n)|))
  {
    DescendPath(t, root, n, rest);
  }

  /** The leaves' paths form a prefix-free code: no leaf's path begins another's. */
  lemma LeafPathsPrefixFree(t: Tree, root: nat, a: nat, b: nat)
    requires Struct(t, root) && a < |t| && b < |t| && t[a].IsLeaf() && t[b].IsLeaf()
    requires PathTo(t, root, a) <= PathTo(t, root, b)
    ensures a == b
  {
    var pa, pb := PathTo(t, root, a), PathTo(t, root, b);
    var tail := pb[|pa|..];
    PrefixSplit(pa, pb);
    DescendToLeaf(t, root, a, tail);
    assert Descend(t, root, pb) == Some((a, |pa|));
    assert pb + [] == pb;
    DescendToLeaf(t, root, b, []);
    assert Descend(t, root, pb) == Some((b, |pb|));
  }

  lemma PrefixSplit(pa: seq<bool>, pb: seq<bool>)
    requires pa <= pb
    ensures pa + pb[|pa|..] == pb
  {
  }

  // Sequence or arithmetic fact, not a claim about the model: stated apart to keep proof cost down.
  lemma AppendAssoc(a: seq<bool>, b: bool, rest: seq<bool>)
    ensures (a + [b]) + rest == a + ([b] + rest)
  {
  }

  lemma NoBits(a: seq<bool>)
    ensures a + CodeBits(CodePair(0, 0)) == a
  {
    assert CodeBits(CodePair(0, 0)) == [];
  }
}
