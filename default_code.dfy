/**
 * Default codes for symbols that have not been transmitted yet: a phased-in binary
 * code over an alphabet of size 2^e + r, in which the first 2r indices get e + 1 bits
 * and the others e bits, and the decoder's NYT branch, which reads such a code back.
 */
module DefaultCode {
  import opened Wrappers
  import opened Bits

  /** A code and its length in bits; the code sits in the low `length` bits. */
  datatype CodePair = CodePair(code: nat, length: nat)

  /** The e of `size = 2^e + r`: floor(log2(size)), computed on integers. */
  function Log2Floor(size: nat): (e: nat)
    requires size >= 1
    ensures Pow2(e) <= size < Pow2(e + 1)
  {
    if size == 1 then 0 else 1 + Log2Floor(size / 2)
  }

  /** The constants e and r kept by the model for an alphabet of `size` symbols. */
  predicate Parameters(size: nat, e: nat, r: nat)
  {
    size >= 1 && e == Log2Floor(size) && r + Pow2(e) == size
  }

  lemma ParametersBound(size: nat, e: nat, r: nat)
    requires Parameters(size, e, r)
    ensures r < Pow2(e) && 2 * r < Pow2(e + 1) && Pow2(e + 1) == 2 * Pow2(e)
  {
  }

  /** The default code of the symbol at alphabet position `index`. */
  function DefaultCodeOf(index: nat, e: nat, r: nat): (p: CodePair)
  {
    if index < 2 * r then CodePair(index, e + 1) else CodePair(index - r, e)
  }

  /** The bits a code pair is written as. */
  function CodeBits(p: CodePair): seq<bool>
  {
    ToBits(p.code, p.length)
  }

  /** Every default code fits in its length. */
  lemma DefaultCodeFits(index: nat, size: nat, e: nat, r: nat)
    requires Parameters(size, e, r) && index < size
    ensures DefaultCodeOf(index, e, r).code < Pow2(DefaultCodeOf(index, e, r).length)
  {
    ParametersBound(size, e, r);
  }

  /**
   * getDefaultCode: `None` (the source throws) for a character outside the alphabet;
   * otherwise the code of its position, which fits in its length: e + 1 bits for the
   * first 2r positions, e bits for the others.
   */
  function GetDefaultCode(alphabetIndexes: map<char, nat>, size: nat, e: nat, r: nat, c: char): (p: Option<CodePair>)
    requires Parameters(size, e, r)
    requires forall x :: x in alphabetIndexes ==> alphabetIndexes[x] < size
    ensures p.None? <==> c !in alphabetIndexes
    ensures p.Some? ==> p.value == DefaultCodeOf(alphabetIndexes[c], e, r)
    ensures p.Some? ==> p.value.code < Pow2(p.value.length)
    ensures p.Some? ==> (p.value.length == e + 1 <==> alphabetIndexes[c] < 2 * r)
    ensures p.Some? ==> p.value.length == e || p.value.length == e + 1
  {
    if c !in alphabetIndexes then None
    else
      var index := alphabetIndexes[c];
      ParametersBound(size, e, r);
      Some(DefaultCodeOf(index, e, r))
  }

  /**
   * The decoder's NYT branch on a bit sequence: read e bits as b; if b < r read one
   * more bit and take 2b + bit, otherwise take b + r. Returns the alphabet position
   * and the number of bits consumed, or `None` when the bits run out.
   */
  function ReadDefault(bits: seq<bool>, e: nat, r: nat): (res: Option<(nat, nat)>)
    ensures res.Some? ==> res.value.1 <= |bits|
  {
    if |bits| < e then None
    else
      var b := FromBits(bits[..e]);
      if b < r then
        if |bits| < e + 1 then None else Some((2 * b + BitValue(bits[e]), e + 1))
      else Some((b + r, e))
  }

  /** Whatever the NYT branch reads is a position inside the alphabet. */
  lemma ReadDefaultInRange(bits: seq<bool>, size: nat, e: nat, r: nat)
    requires Parameters(size, e, r)
    ensures ReadDefault(bits, e, r).Some? ==> ReadDefault(bits, e, r).value.0 < size
  {
    if |bits| >= e {
      var b := FromBits(bits[..e]);
      assert b < Pow2(e);
    }
  }

  /** The NYT branch recovers the position from the bits of its default code, whatever follows. */
  lemma DefaultCodeRoundTrip(index: nat, size: nat, e: nat, r: nat, rest: seq<bool>)
    requires Parameters(size, e, r) && index < size
    ensures DefaultCodeOf(index, e, r).code < Pow2(DefaultCodeOf(index, e, r).length)
    ensures ReadDefault(ToBits(DefaultCodeOf(index, e, r).code, DefaultCodeOf(index, e, r).length) + rest, e, r)
            == Some((index, DefaultCodeOf(index, e, r).length))
  {
    ParametersBound(size, e, r);
    var p := DefaultCodeOf(index, e, r);
    var bits := ToBits(p.code, p.length) + rest;
    ToBitsLength(p.code, p.length);
    if index < 2 * r {
      assert ToBits(index, e + 1) == ToBits(index / 2, e) + [index % 2 == 1];
      assert bits[..e] == ToBits(index / 2, e);
      FromToBits(index / 2, e);
      assert bits[e] == (index % 2 == 1);
    } else {
      assert bits[..e] == ToBits(index - r, e);
      FromToBits(index - r, e);
    }
  }

  /** The default codes are injective and prefix-free over the alphabet. */
  lemma DefaultCodePrefixFree(i: nat, j: nat, size: nat, e: nat, r: nat)
    requires Parameters(size, e, r) && i < size && j < size
    requires ToBits(DefaultCodeOf(i, e, r).code, DefaultCodeOf(i, e, r).length)
             <= ToBits(DefaultCodeOf(j, e, r).code, DefaultCodeOf(j, e, r).length)
    ensures i == j
  {
    var pi, pj := DefaultCodeOf(i, e, r), DefaultCodeOf(j, e, r);
    var bi, bj := ToBits(pi.code, pi.length), ToBits(pj.code, pj.length);
    ToBitsLength(pi.code, pi.length);
    DefaultCodeRoundTrip(i, size, e, r, []);
    DefaultCodeRoundTrip(j, size, e, r, []);
    assert bj + [] == bj;
    assert bj == bi + bj[|bi|..];
    DefaultCodeRoundTrip(i, size, e, r, bj[|bi|..]);
    assert ReadDefault(bj, e, r) == Some((i, pi.length));
  }
}
