/**
 * The codec on in-memory sequences: encode writes, for every character of the input
 * and then for the end-of-input character (the last letter of the alphabet), the code
 * getCode gives and updates the model; decode walks the tree from the root one bit at a
 * time, resolves the leaf it reaches (reading a default code at the NYT), stops at the
 * end-of-input character and otherwise outputs the character and updates the model.
 */
module Codec {
  import opened Wrappers
  import opened Bits
  import opened Nodes
  import opened TreeShape
  import opened DefaultCode
  import opened ModelState
  import opened Coding

  /**
   * The model's fixed part: the alphabet, its index map (alphabetIndexes) and the
   * constants e and r of `|symbols| = 2^e + r`.
   */
  datatype Alphabet = Alphabet(symbols: seq<char>, indexes: map<char, nat>, e: nat, r: nat)

  /** The index map the constructor builds: each letter to its position, a later position overwriting an earlier one. */
  function IndexesOf(symbols: seq<char>): (m: map<char, nat>)
    ensures forall c :: c in m <==> c in symbols
    ensures forall c | c in m :: m[c] < |symbols| && symbols[m[c]] == c
    ensures forall c | c in m :: forall j | m[c] < j < |symbols| :: symbols[j] != c
  {
    if symbols == [] then map[]
    else
      var init := symbols[..|symbols| - 1];
      IndexesOf(init)[symbols[|symbols| - 1] := |symbols| - 1]
  }

  predicate Distinct(symbols: seq<char>)
  {
    forall i, j | 0 <= i < j < |symbols| :: symbols[i] != symbols[j]
  }

  /** The alphabet the constructor builds from a non-empty list of distinct letters. */
  function MakeAlphabet(symbols: seq<char>): (a: Alphabet)
    requires |symbols| >= 1
    ensures Distinct(symbols) ==> WellFormed(a)
    ensures a.symbols == symbols && Parameters(|symbols|, a.e, a.r)
  {
    var e := Log2Floor(|symbols|);
    Alphabet(symbols, IndexesOf(symbols), e, |symbols| - Pow2(e))
  }

  /** A non-empty alphabet of distinct letters, its exact index map and its default-code constants. */
  ghost predicate WellFormed(a: Alphabet)
  {
    |a.symbols| >= 1 && Parameters(|a.symbols|, a.e, a.r) && Distinct(a.symbols) &&
    (forall c :: c in a.indexes <==> c in a.symbols) &&
    (forall c | c in a.indexes :: a.indexes[c] < |a.symbols| && a.symbols[a.indexes[c]] == c)
  }

  /** With distinct letters the index map inverts the list. */
  lemma IndexOfSymbol(a: Alphabet, i: nat)
    requires WellFormed(a) && i < |a.symbols|
    ensures a.symbols[i] in a.indexes && a.indexes[a.symbols[i]] == i
  {
    var j := a.indexes[a.symbols[i]];
    assert a.symbols[j] == a.symbols[i];
  }

  /** The end-of-input character: the last letter of the alphabet. */
  function Eof(a: Alphabet): char
    requires |a.symbols| >= 1
  {
    a.symbols[|a.symbols| - 1]
  }

  /** A model in use with alphabet a: valid, and every transmitted character is a letter of a. */
  ghost predicate InUse(a: Alphabet, s: State)
  {
    Valid(s) && forall c | c in s.transmitted :: c in a.indexes
  }

  /** The tree of a model in use: links in range, strict binary, root and NYT among its nodes. */
  lemma InUseShape(a: Alphabet, s: State)
    requires InUse(a, s)
    ensures InRange(s.nodes) && Binary(s.nodes) && s.root < |s.nodes| && s.nyt < |s.nodes|
  {
  }

  /** After an update the root has been counted at least once, so it is no longer the NYT and not a leaf. */
  lemma UpdatedRootInternal(s: State, r: State, c: char)
    requires Updated(s, r, c)
    ensures r.root < |r.nodes| && !r.nodes[r.root].IsLeaf()
  {
    assert r.nodes[r.root].weight >= 1;
  }

  /** An update with a letter keeps the model in use. */
  lemma UpdatedInUse(a: Alphabet, s: State, r: State, c: char)
    requires InUse(a, s) && Updated(s, r, c) && c in a.indexes
    ensures InUse(a, r)
  {
    assert r.transmitted.Keys == s.transmitted.Keys + {c};
  }

  /**
   * One step of encode: the code of c and the model after update(c); `None` for a
   * character outside the alphabet, which getCode or update rejects.
   */
  function EncodeSymbol(a: Alphabet, s: State, c: char): (res: Option<(seq<bool>, State)>)
    requires WellFormed(a) && InUse(a, s)
    ensures res.None? <==> c !in a.indexes
    ensures res.Some? ==> Updated(s, res.value.1, c) && InUse(a, res.value.1)
  {
    match GetCode(s, a.indexes, |a.symbols|, a.e, a.r, c)
    case None => None
    case Some(p) =>
      match Update(s, a.indexes, c)
      case None => None
      case Some(s1) =>
        UpdatedInUse(a, s, s1, c);
        Some((CodeBits(p), s1))
  }

  /**
   * One step of decode: descend from the root along the bits to a leaf and resolve it,
   * reading a default code at the NYT. The character and the number of bits used, or
   * `None` when the bits run out first.
   */
  function DecodeSymbol(a: Alphabet, s: State, bits: seq<bool>): (res: Option<(char, nat)>)
    requires WellFormed(a) && InUse(a, s)
    ensures res.Some? ==> res.value.1 <= |bits| && res.value.0 in a.indexes
    ensures res.Some? && !s.nodes[s.root].IsLeaf() ==> res.value.1 >= 1
  {
    match Descend(s.nodes, s.root, bits)
    case None => None
    case Some((leaf, k)) =>
      if leaf == s.nyt then
        ReadDefaultInRange(bits[k..], |a.symbols|, a.e, a.r);
        match ReadDefault(bits[k..], a.e, a.r)
        case None => None
        case Some((b, k2)) =>
          IndexOfSymbol(a, b);
          Some((a.symbols[b], k + k2))
      else
        Some((s.charByNode[leaf], k))
  }

  /**
   * decode at a leaf, given the bits after it: the NYT's character is the letter whose
   * default code comes next, any other leaf's is its own character and uses no bits.
   */
  function Resolve(a: Alphabet, s: State, leaf: nat, tail: seq<bool>): (res: Option<(char, nat)>)
    requires WellFormed(a) && InUse(a, s) && leaf < |s.nodes| && s.nodes[leaf].IsLeaf()
    ensures res.Some? ==> res.value.1 <= |tail| && res.value.0 in a.indexes
    ensures leaf != s.nyt ==> res.Some? && res.value.1 == 0
  {
    if leaf == s.nyt then
      ReadDefaultInRange(tail, |a.symbols|, a.e, a.r);
      match ReadDefault(tail, a.e, a.r)
      case None => None
      case Some((b, k2)) =>
        IndexOfSymbol(a, b);
        Some((a.symbols[b], k2))
    else
      Some((s.charByNode[leaf], 0))
  }

  /** d decodes what r resolves, with k more bits in front. */
  predicate Agrees(d: Option<(char, nat)>, r: Option<(char, nat)>, k: nat)
  {
    (d.None? <==> r.None?) && (r.Some? ==> d.value.0 == r.value.0 && d.value.1 == k + r.value.1)
  }

  /** The descent from the root over bits[start..] ends at leaf after i - start bits: decoding one symbol from there is resolving that leaf on bits[i..]. */
  lemma ResolveAt(a: Alphabet, s: State, bits: seq<bool>, start: nat, i: nat, leaf: nat)
    requires WellFormed(a) && InUse(a, s) && start <= i <= |bits| && leaf < |s.nodes| && s.nodes[leaf].IsLeaf()
    requires Descend(s.nodes, s.root, bits[start..]).Some? && Descend(s.nodes, s.root, bits[start..]).value.0 == leaf
    requires Descend(s.nodes, s.root, bits[start..]).value.1 == i - start
    ensures Agrees(DecodeSymbol(a, s, bits[start..]), Resolve(a, s, leaf, bits[i..]), i - start)
  {
    ResolveAfter(a, s, bits[start..], i - start, bits[start..][i - start..], leaf);
    SliceOfSlice(bits, start, i);
  }

  /** The descent from the root over rest ends at leaf after k bits, and tail is what follows them: decoding one symbol from rest is resolving that leaf on tail. */
  lemma ResolveAfter(a: Alphabet, s: State, rest: seq<bool>, k: nat, tail: seq<bool>, leaf: nat)
    requires WellFormed(a) && InUse(a, s) && k <= |rest| && rest[k..] == tail
    requires leaf < |s.nodes| && s.nodes[leaf].IsLeaf()
    requires Descend(s.nodes, s.root, rest).Some? && Descend(s.nodes, s.root, rest).value.0 == leaf
    requires Descend(s.nodes, s.root, rest).value.1 == k
    ensures Agrees(DecodeSymbol(a, s, rest), Resolve(a, s, leaf, tail), k)
  {
  }

  /** No symbol can be decoded: the decoder stops, its model as it was. */
  lemma DecodeNothing(a: Alphabet, s: State, bits: seq<bool>)
    requires WellFormed(a) && InUse(a, s) && DecodeSymbol(a, s, bits).None?
    ensures Decode(a, s, bits) == ([], s)
  {
  }

  /** Decoding the code of a letter, whatever bits follow it, yields the letter and uses exactly its code. */
  lemma DecodeEncodeSymbol(a: Alphabet, s: State, c: char, rest: seq<bool>)
    requires WellFormed(a) && InUse(a, s) && c in a.indexes
    ensures EncodeSymbol(a, s, c).Some?
    ensures DecodeSymbol(a, s, EncodeSymbol(a, s, c).value.0 + rest) == Some((c, |EncodeSymbol(a, s, c).value.0|))
  {
    var p := GetCode(s, a.indexes, |a.symbols|, a.e, a.r, c).value;
    var code := CodeBits(p);
    assert EncodeSymbol(a, s, c).value.0 == code;
    if c in s.transmitted {
      SeenSymbol(a, s, c, rest);
    } else {
      NewSymbol(a, s, c, rest);
    }
  }

  /** A transmitted letter's code is the path to its leaf, which the decoder follows back to the letter. */
  lemma SeenSymbol(a: Alphabet, s: State, c: char, rest: seq<bool>)
    requires WellFormed(a) && InUse(a, s) && c in a.indexes && c in s.transmitted
    ensures GetCode(s, a.indexes, |a.symbols|, a.e, a.r, c).Some?
    ensures var code := CodeBits(GetCode(s, a.indexes, |a.symbols|, a.e, a.r, c).value);
      DecodeSymbol(a, s, code + rest) == Some((c, |code|))
  {
    var n := s.transmitted[c];
    var path := PathTo(s.nodes, s.root, n);
    DescendToLeaf(s.nodes, s.root, n, rest);
    assert s.charByNode[n] == c;
  }

  /** A new letter's code is the path to the NYT and its default code, which the NYT branch reads back. */
  lemma NewSymbol(a: Alphabet, s: State, c: char, rest: seq<bool>)
    requires WellFormed(a) && InUse(a, s) && c in a.indexes && c !in s.transmitted
    ensures GetCode(s, a.indexes, |a.symbols|, a.e, a.r, c).Some?
    ensures var code := CodeBits(GetCode(s, a.indexes, |a.symbols|, a.e, a.r, c).value);
      DecodeSymbol(a, s, code + rest) == Some((c, |code|))
  {
    var index := a.indexes[c];
    var dc := DefaultCodeOf(index, a.e, a.r);
    var cb := CodeBits(dc);
    var pn := PathTo(s.nodes, s.root, s.nyt);
    var code := CodeBits(GetCode(s, a.indexes, |a.symbols|, a.e, a.r, c).value);
    assert code == pn + cb;
    var bits := code + rest;
    SplitAfter(pn, cb, rest);
    DescendToLeaf(s.nodes, s.root, s.nyt, cb + rest);
    assert Descend(s.nodes, s.root, bits) == Some((s.nyt, |pn|));
    DefaultCodeRoundTrip(index, |a.symbols|, a.e, a.r, rest);
    assert ReadDefault(bits[|pn|..], a.e, a.r) == Some((index, dc.length));
    ToBitsLength(dc.code, dc.length);
    DecodeAtNyt(a, s, bits, |pn|, index, dc.length);
    var res := DecodeSymbol(a, s, bits).value;
    assert res.0 == c && res.1 == |code|;
  }

  /** The decoder at the NYT: what the NYT branch reads after the path names the letter. */
  lemma DecodeAtNyt(a: Alphabet, s: State, bits: seq<bool>, k: nat, b: nat, k2: nat)
    requires WellFormed(a) && InUse(a, s)
    requires Descend(s.nodes, s.root, bits) == Some((s.nyt, k)) && k <= |bits|
    requires ReadDefault(bits[k..], a.e, a.r) == Some((b, k2))
    ensures b < |a.symbols| && DecodeSymbol(a, s, bits).Some?
    ensures DecodeSymbol(a, s, bits).value.0 == a.symbols[b] && DecodeSymbol(a, s, bits).value.1 == k + k2
  {
    ReadDefaultInRange(bits[k..], |a.symbols|, a.e, a.r);
  }

  // Sequence or arithmetic fact, not a claim about the model: stated apart to keep proof cost down.
  lemma SplitAfter(p: seq<bool>, q: seq<bool>, rest: seq<bool>)
    ensures (p + q) + rest == p + (q + rest)
    ensures ((p + q) + rest)[|p|..] == q + rest
    ensures |p + q| == |p| + |q|
  {
  }

  /** Every character of cs is a letter of the alphabet. */
  predicate Letters(a: Alphabet, cs: seq<char>)
  {
    forall i | 0 <= i < |cs| :: cs[i] in a.indexes
  }

  /** Every character of cs is a letter and none is the end-of-input character. */
  predicate Plain(a: Alphabet, cs: seq<char>)
    requires |a.symbols| >= 1
  {
    forall i | 0 <= i < |cs| :: cs[i] in a.indexes && cs[i] != Eof(a)
  }

  lemma PlainCons(a: Alphabet, c: char, cs: seq<char>)
    requires |a.symbols| >= 1 && c in a.indexes && c != Eof(a) && Plain(a, cs)
    ensures Plain(a, [c] + cs)
  {
  }

  /**
   * encode's loop: the codes of the characters of cs one after the other, each taken from
   * the model as updated by the characters before it; `None` once a character is rejected.
   */
  function EncodeAll(a: Alphabet, s: State, cs: seq<char>): (res: Option<(seq<bool>, State)>)
    requires WellFormed(a) && InUse(a, s)
    ensures res.Some? ==> InUse(a, res.value.1)
    decreases |cs|
  {
    if cs == [] then Some(([], s))
    else
      var step := EncodeSymbol(a, s, cs[0]);
      if step.None? then None
      else
        var more := EncodeAll(a, step.value.1, cs[1..]);
        if more.None? then None else Some((step.value.0 + more.value.0, more.value.1))
  }

  /**
   * encode: the loop over cs, then the code of the end-of-input character (with its
   * update), the whole padded with zero bits to a byte boundary when the stream closes.
   */
  function Encode(a: Alphabet, s: State, cs: seq<char>): (res: Option<(seq<bool>, State)>)
    requires WellFormed(a) && InUse(a, s)
    ensures res.Some? ==> |res.value.0| % 8 == 0 && InUse(a, res.value.1)
  {
    match EncodeAll(a, s, cs + [Eof(a)])
    case None => None
    case Some((bits, s2)) => Some((Padded(bits), s2))
  }

  /**
   * decode's loop: resolve a character from the bits; stop when the bits run out or at
   * the end-of-input character, otherwise output it, update the model and go on with the
   * rest. The characters output and the final model.
   */
  function Decode(a: Alphabet, s: State, bits: seq<bool>): (res: (seq<char>, State))
    requires WellFormed(a) && InUse(a, s)
    ensures InUse(a, res.1) && Plain(a, res.0)
    decreases |bits|, if s.nodes[s.root].IsLeaf() then 1 else 0
  {
    match DecodeSymbol(a, s, bits)
    case None => ([], s)
    case Some((c, k)) =>
      if c == Eof(a) then ([], s)
      else
        var s1 := Update(s, a.indexes, c).value;
        UpdatedRootInternal(s, s1, c);
        UpdatedInUse(a, s, s1, c);
        var more := Decode(a, s1, bits[k..]);
        PlainCons(a, c, more.0);
        ([c] + more.0, more.1)
  }

  /** encode's loop rejects exactly the inputs holding a character outside the alphabet. */
  lemma {:induction false} EncodeAllDefined(a: Alphabet, s: State, cs: seq<char>)
    requires WellFormed(a) && InUse(a, s)
    ensures EncodeAll(a, s, cs).Some? <==> Letters(a, cs)
    decreases |cs|
  {
    if cs != [] {
      LettersCons(a, cs);
      EncodeAllSome(a, s, cs);
      var step := EncodeSymbol(a, s, cs[0]);
      if step.Some? {
        EncodeAllDefined(a, step.value.1, cs[1..]);
      }
    }
  }

  lemma EncodeAllSome(a: Alphabet, s: State, cs: seq<char>)
    requires WellFormed(a) && InUse(a, s) && cs != []
    ensures EncodeAll(a, s, cs).Some? <==>
              EncodeSymbol(a, s, cs[0]).Some? && EncodeAll(a, EncodeSymbol(a, s, cs[0]).value.1, cs[1..]).Some?
  {
  }

  lemma LettersCons(a: Alphabet, cs: seq<char>)
    requires cs != []
    ensures Letters(a, cs) <==> cs[0] in a.indexes && Letters(a, cs[1..])
  {
    if cs[0] in a.indexes && Letters(a, cs[1..]) {
      forall i | 0 <= i < |cs|
        ensures cs[i] in a.indexes
      {
        if i > 0 {
          assert cs[i] == cs[1..][i - 1];
        }
      }
    }
  }

  /** encode accepts exactly the inputs made of letters (the end-of-input character is one). */
  lemma EncodeDefined(a: Alphabet, s: State, cs: seq<char>)
    requires WellFormed(a) && InUse(a, s)
    ensures Encode(a, s, cs).Some? <==> Letters(a, cs)
  {
    EncodeAllDefined(a, s, cs + [Eof(a)]);
    IndexOfSymbol(a, |a.symbols| - 1);
    LettersSnoc(a, cs, Eof(a));
  }

  lemma LettersSnoc(a: Alphabet, cs: seq<char>, c: char)
    requires c in a.indexes
    ensures Letters(a, cs + [c]) <==> Letters(a, cs)
  {
    if Letters(a, cs + [c]) {
      forall i | 0 <= i < |cs|
        ensures cs[i] in a.indexes
      {
        assert cs[i] == (cs + [c])[i];
      }
    }
  }

  /** The bits written so far in front of what the rest of encode's loop writes. */
  function Joined(bits: seq<bool>, more: Option<(seq<bool>, State)>): (res: Option<(seq<bool>, State)>)
    ensures res.None? <==> more.None?
    ensures res.Some? ==> |res.value.0| == |bits| + |more.value.0|
    ensures res.Some? ==> res.value.0[..|bits|] == bits && res.value.0[|bits|..] == more.value.0
  {
    if more.None? then None else Some((bits + more.value.0, more.value.1))
  }

  /**
   * One turn of encode's loop: a rejected first character rejects the whole input;
   * otherwise its code joins the bits written so far and the loop goes on from the
   * updated model with the rest.
   */
  lemma EncodeAllStep(a: Alphabet, s: State, cs: seq<char>, bits: seq<bool>)
    requires WellFormed(a) && InUse(a, s) && cs != []
    ensures EncodeSymbol(a, s, cs[0]).None? ==> EncodeAll(a, s, cs).None?
    ensures EncodeSymbol(a, s, cs[0]).Some? ==>
              Joined(bits, EncodeAll(a, s, cs)) ==
              Joined(bits + EncodeSymbol(a, s, cs[0]).value.0, EncodeAll(a, EncodeSymbol(a, s, cs[0]).value.1, cs[1..]))
  {
    if cs[0] in a.indexes {
      HeadTail(cs);
      EncodeAllCons(a, s, cs[0], cs[1..]);
      var step := EncodeSymbol(a, s, cs[0]).value;
      JoinedAfter(bits, step.0, EncodeAll(a, step.1, cs[1..]));
    }
  }

  /** Joining bits to code p followed by more is joining bits + p to more. */
  lemma JoinedAfter(bits: seq<bool>, p: seq<bool>, more: Option<(seq<bool>, State)>)
    ensures Joined(bits, if more.None? then None else Some((p + more.value.0, more.value.1))) == Joined(bits + p, more)
  {
    if more.Some? {
      SplitAfter(bits, p, more.value.0);
    }
  }

  /** The first step of encode's loop over a non-empty input. */
  lemma EncodeAllCons(a: Alphabet, s: State, c: char, cs: seq<char>)
    requires WellFormed(a) && InUse(a, s) && c in a.indexes
    ensures EncodeSymbol(a, s, c).Some?
    ensures EncodeAll(a, s, [c] + cs) ==
              var step := EncodeSymbol(a, s, c).value;
              var more := EncodeAll(a, step.1, cs);
              if more.None? then None else Some((step.0 + more.value.0, more.value.1))
  {
    assert ([c] + cs)[0] == c && ([c] + cs)[1..] == cs;
  }

  /**
   * Decoding what encode's loop writes for a plain input followed by the end-of-input
   * character gives back the input, whatever bits follow, and leaves the decoder's model
   * where the encoder's stood before it coded the end-of-input character.
   */
  lemma {:induction false} DecodeEncodeAll(a: Alphabet, s: State, cs: seq<char>, rest: seq<bool>)
    requires WellFormed(a) && InUse(a, s) && Plain(a, cs)
    ensures EncodeAll(a, s, cs).Some? && EncodeAll(a, s, cs + [Eof(a)]).Some?
    ensures Decode(a, s, EncodeAll(a, s, cs + [Eof(a)]).value.0 + rest) == (cs, EncodeAll(a, s, cs).value.1)
    decreases |cs|
  {
    if cs == [] {
      assert cs + [Eof(a)] == [Eof(a)];
      DecodeEof(a, s, rest);
    } else {
      var c, tail := cs[0], cs[1..];
      PlainTail(a, cs);
      ConsSnoc(cs, Eof(a));
      var s1 := EncodeSymbol(a, s, c).value.1;
      DecodeEncodeAll(a, s1, tail, rest);
      DecodeEncodeCons(a, s, c, tail, rest);
    }
  }

  /** The end-of-input character's code alone decodes to nothing, the model untouched. */
  lemma DecodeEof(a: Alphabet, s: State, rest: seq<bool>)
    requires WellFormed(a) && InUse(a, s)
    ensures EncodeAll(a, s, []).Some? && EncodeAll(a, s, [Eof(a)]).Some?
    ensures Decode(a, s, EncodeAll(a, s, [Eof(a)]).value.0 + rest) == ([], EncodeAll(a, s, []).value.1)
  {
    IndexOfSymbol(a, |a.symbols| - 1);
    NilRight([Eof(a)]);
    EncodeAllCons(a, s, Eof(a), []);
    var code := EncodeSymbol(a, s, Eof(a)).value.0;
    NilRight(code);
    DecodeEncodeSymbol(a, s, Eof(a), rest);
    DecodeStop(a, s, code + rest, |code|);
  }

  // Sequence or arithmetic fact, not a claim about the model: stated apart to keep proof cost down.
  lemma NilRight<T>(xs: seq<T>)
    ensures xs + [] == xs
  {
  }

  /** decode's loop ends at the end-of-input character without updating the model. */
  lemma DecodeStop(a: Alphabet, s: State, bits: seq<bool>, k: nat)
    requires WellFormed(a) && InUse(a, s)
    requires DecodeSymbol(a, s, bits) == Some((Eof(a), k))
    ensures Decode(a, s, bits) == ([], s)
  {
  }

  /** A plain letter in front: its code decodes to it and the rest of the run goes on from its update. */
  lemma DecodeEncodeCons(a: Alphabet, s: State, c: char, tail: seq<char>, rest: seq<bool>)
    requires WellFormed(a) && InUse(a, s) && c in a.indexes && c != Eof(a)
    requires EncodeSymbol(a, s, c).Some?
    requires var s1 := EncodeSymbol(a, s, c).value.1;
      EncodeAll(a, s1, tail).Some? && EncodeAll(a, s1, tail + [Eof(a)]).Some? &&
      Decode(a, s1, EncodeAll(a, s1, tail + [Eof(a)]).value.0 + rest) == (tail, EncodeAll(a, s1, tail).value.1)
    ensures EncodeAll(a, s, [c] + tail).Some? && EncodeAll(a, s, [c] + (tail + [Eof(a)])).Some?
    ensures Decode(a, s, EncodeAll(a, s, [c] + (tail + [Eof(a)])).value.0 + rest) ==
              ([c] + tail, EncodeAll(a, s, [c] + tail).value.1)
  {
    EncodeAllCons(a, s, c, tail);
    EncodeAllCons(a, s, c, tail + [Eof(a)]);
    var code := EncodeSymbol(a, s, c).value.0;
    var s1 := EncodeSymbol(a, s, c).value.1;
    var more := EncodeAll(a, s1, tail + [Eof(a)]).value.0;
    SplitAfter(code, more, rest);
    DecodeEncodeSymbol(a, s, c, more + rest);
    DecodeStep(a, s, (code + more) + rest, c, |code|);
  }

  lemma PlainTail(a: Alphabet, cs: seq<char>)
    requires |a.symbols| >= 1 && cs != [] && Plain(a, cs)
    ensures cs[0] in a.indexes && cs[0] != Eof(a) && Plain(a, cs[1..])
  {
    assert forall i | 0 <= i < |cs| - 1 :: cs[1..][i] == cs[i + 1];
  }

  lemma ConsSnoc<T>(cs: seq<T>, x: T)
    requires cs != []
    ensures cs == [cs[0]] + cs[1..] && cs + [x] == [cs[0]] + (cs[1..] + [x])
  {
  }

  /**
   * decode's cursor: having read bits[start..i] since it last stood at the root, the
   * decoder stands at cur, and the descent from the root over bits[start..] is the
   * descent from cur over bits[i..].
   */
  ghost predicate At(t: Tree, root: nat, cur: nat, bits: seq<bool>, start: nat, i: nat)
    requires InRange(t) && Binary(t) && root < |t| && cur < |t| && start <= i <= |bits|
  {
    Descend(t, root, bits[start..]) == After(Descend(t, cur, bits[i..]), i - start)
  }

  /** The cursor is reset to the root at position i. */
  lemma AtRoot(t: Tree, root: nat, bits: seq<bool>, i: nat)
    requires InRange(t) && Binary(t) && root < |t| && i <= |bits|
    ensures At(t, root, root, bits, i, i)
  {
  }

  /** Reading bit i at an internal node moves the cursor to the child it names. */
  lemma AtChild(t: Tree, root: nat, cur: nat, bits: seq<bool>, start: nat, i: nat)
    requires InRange(t) && Binary(t) && root < |t| && cur < |t| && start <= i < |bits|
    requires !t[cur].IsLeaf() && At(t, root, cur, bits, start, i)
    ensures t[cur].left.Some? && t[cur].right.Some?
    ensures var child := if bits[i] then t[cur].right.value else t[cur].left.value;
      child < |t| && At(t, root, child, bits, start, i + 1)
  {
    var child := if bits[i] then t[cur].right.value else t[cur].left.value;
    assert bits[i..] == [bits[i]] + bits[i + 1..];
    DescendStep(t, cur, child, bits[i], bits[i + 1..]);
    AfterAfter(Descend(t, child, bits[i + 1..]), 1, i - start);
  }

  /** A cursor at a leaf: the descent from the root has reached it after i - start bits. */
  lemma AtLeaf(t: Tree, root: nat, cur: nat, bits: seq<bool>, start: nat, i: nat)
    requires InRange(t) && Binary(t) && root < |t| && cur < |t| && start <= i <= |bits|
    requires t[cur].IsLeaf() && At(t, root, cur, bits, start, i)
    ensures Descend(t, root, bits[start..]).Some? && Descend(t, root, bits[start..]).value.0 == cur
    ensures Descend(t, root, bits[start..]).value.1 == i - start
  {
  }

  /** The bits run out at an internal node: the decoder stops, its model as it was. */
  lemma AtEnd(a: Alphabet, s: State, cur: nat, bits: seq<bool>, start: nat)
    requires WellFormed(a) && InUse(a, s) && cur < |s.nodes| && start <= |bits|
    requires !s.nodes[cur].IsLeaf() && At(s.nodes, s.root, cur, bits, start, |bits|)
    ensures Decode(a, s, bits[start..]) == ([], s)
  {
    assert bits[|bits|..] == [];
  }

  /** decode at the leaf reached over bits[start..i] stops, its model as it was, when the leaf cannot be resolved or resolves to the end-of-input character. */
  lemma LeafStop(a: Alphabet, s: State, bits: seq<bool>, start: nat, i: nat, leaf: nat)
    requires WellFormed(a) && InUse(a, s) && start <= i <= |bits| && leaf < |s.nodes| && s.nodes[leaf].IsLeaf()
    requires Descend(s.nodes, s.root, bits[start..]).Some? && Descend(s.nodes, s.root, bits[start..]).value.0 == leaf
    requires Descend(s.nodes, s.root, bits[start..]).value.1 == i - start
    requires Resolve(a, s, leaf, bits[i..]).None? || Resolve(a, s, leaf, bits[i..]).value.0 == Eof(a)
    ensures Decode(a, s, bits[start..]) == ([], s)
  {
    ResolveAt(a, s, bits, start, i, leaf);
    var res := Resolve(a, s, leaf, bits[i..]);
    if res.None? {
      DecodeNothing(a, s, bits[start..]);
    } else {
      DecodeNext(a, s, bits, start, i + res.value.1, res.value.0);
    }
  }

  /**
   * decode at the leaf reached over bits[start..i], which resolves to the letter c using
   * the bits up to j: c is output and decoding goes on from j with the updated model.
   */
  lemma LeafGo(a: Alphabet, s: State, bits: seq<bool>, start: nat, i: nat, leaf: nat, c: char, j: nat)
    requires WellFormed(a) && InUse(a, s) && start <= i <= j <= |bits| && leaf < |s.nodes| && s.nodes[leaf].IsLeaf()
    requires Descend(s.nodes, s.root, bits[start..]).Some? && Descend(s.nodes, s.root, bits[start..]).value.0 == leaf
    requires Descend(s.nodes, s.root, bits[start..]).value.1 == i - start
    requires Resolve(a, s, leaf, bits[i..]).Some? && Resolve(a, s, leaf, bits[i..]).value.0 == c
    requires Resolve(a, s, leaf, bits[i..]).value.1 == j - i && c != Eof(a)
    ensures c in a.indexes && Update(s, a.indexes, c).Some? && InUse(a, Update(s, a.indexes, c).value)
    ensures var more := Decode(a, Update(s, a.indexes, c).value, bits[j..]);
      Decode(a, s, bits[start..]) == ([c] + more.0, more.1)
  {
    ResolveAt(a, s, bits, start, i, leaf);
    DecodeNext(a, s, bits, start, j, c);
  }

  /**
   * The character c resolved from bits[start..j]: the end-of-input character stops the
   * decoder; any other is output, the model updated, and decoding goes on from j.
   */
  lemma DecodeNext(a: Alphabet, s: State, bits: seq<bool>, start: nat, j: nat, c: char)
    requires WellFormed(a) && InUse(a, s) && start <= j <= |bits|
    requires DecodeSymbol(a, s, bits[start..]).Some?
    requires DecodeSymbol(a, s, bits[start..]).value.0 == c && DecodeSymbol(a, s, bits[start..]).value.1 == j - start
    ensures c == Eof(a) ==> Decode(a, s, bits[start..]) == ([], s)
    ensures c != Eof(a) ==> c in a.indexes && Update(s, a.indexes, c).Some? && InUse(a, Update(s, a.indexes, c).value)
    ensures c != Eof(a) ==>
              var more := Decode(a, Update(s, a.indexes, c).value, bits[j..]);
              Decode(a, s, bits[start..]) == ([c] + more.0, more.1)
  {
    if c == Eof(a) {
      DecodeStop(a, s, bits[start..], j - start);
    } else {
      DecodeStep(a, s, bits[start..], c, j - start);
      SliceOfSlice(bits, start, j);
    }
  }

  // Sequence or arithmetic fact, not a claim about the model: stated apart to keep proof cost down.
  lemma SliceOfSlice(bits: seq<bool>, start: nat, j: nat)
    requires start <= j <= |bits|
    ensures bits[start..][j - start..] == bits[j..]
  {
  }

  /** What decode has output so far in front of what the rest of its loop outputs. */
  function Then(output: seq<char>, more: (seq<char>, State)): (res: (seq<char>, State))
    ensures |res.0| == |output| + |more.0| && res.0[..|output|] == output && res.1 == more.1
  {
    (output + more.0, more.1)
  }

  /** Outputting c moves it from the rest of the loop's output to what has been output. */
  lemma ThenCons(output: seq<char>, c: char, more: (seq<char>, State))
    ensures Then(output, ([c] + more.0, more.1)) == Then(output + [c], more)
  {
    assert output + ([c] + more.0) == (output + [c]) + more.0;
  }

  /** Nothing more to output: what has been output is all. */
  lemma ThenNil(output: seq<char>, s: State)
    ensures Then(output, ([], s)) == (output, s)
  {
    assert output + [] == output;
  }

  /** One step of decode's loop when the next character resolved is a plain letter c. */
  lemma DecodeStep(a: Alphabet, s: State, bits: seq<bool>, c: char, k: nat)
    requires WellFormed(a) && InUse(a, s)
    requires DecodeSymbol(a, s, bits) == Some((c, k)) && c != Eof(a)
    ensures c in a.indexes && k <= |bits| && Update(s, a.indexes, c).Some?
    ensures InUse(a, Update(s, a.indexes, c).value)
    ensures Decode(a, s, bits) ==
              var more := Decode(a, Update(s, a.indexes, c).value, bits[k..]);
              ([c] + more.0, more.1)
  {
    UpdatedInUse(a, s, Update(s, a.indexes, c).value, c);
  }

  /**
   * The codec's round trip: decoding encode's padded output gives back every plain input,
   * the decoder stopping at the end-of-input character before the padding.
   */
  lemma RoundTrip(a: Alphabet, s: State, cs: seq<char>)
    requires WellFormed(a) && InUse(a, s) && Plain(a, cs)
    ensures Encode(a, s, cs).Some? && EncodeAll(a, s, cs).Some?
    ensures Decode(a, s, Encode(a, s, cs).value.0) == (cs, EncodeAll(a, s, cs).value.1)
  {
    DecodeEncodeAll(a, s, cs, []);
    var bits := EncodeAll(a, s, cs + [Eof(a)]).value.0;
    PadSplit(bits);
    DecodeEncodeAll(a, s, cs, Padded(bits)[|bits|..]);
    assert Encode(a, s, cs).value.0 == Padded(bits);
  }

  /** encode's loop over cs and one more character: the loop over cs, then that character's step. */
  lemma {:induction false} EncodeAllSnoc(a: Alphabet, s: State, cs: seq<char>, x: char)
    requires WellFormed(a) && InUse(a, s) && EncodeAll(a, s, cs).Some? && x in a.indexes
    ensures EncodeSymbol(a, EncodeAll(a, s, cs).value.1, x).Some? && EncodeAll(a, s, cs + [x]).Some?
    ensures EncodeAll(a, s, cs + [x]).value.0 ==
              EncodeAll(a, s, cs).value.0 + EncodeSymbol(a, EncodeAll(a, s, cs).value.1, x).value.0
    ensures EncodeAll(a, s, cs + [x]).value.1 == EncodeSymbol(a, EncodeAll(a, s, cs).value.1, x).value.1
    decreases |cs|
  {
    if cs == [] {
      EncodeAllNil(a, s, cs);
      SnocEmpty(cs, x);
      EncodeAllOne(a, s, x);
    } else {
      var c, tail := cs[0], cs[1..];
      ConsSplit(cs, x);
      EncodeAllSome(a, s, cs);
      EncodeAllCons(a, s, c, tail);
      EncodeAllCons(a, s, c, tail + [x]);
      var s1 := EncodeSymbol(a, s, c).value;
      EncodeAllSnoc(a, s1.1, tail, x);
      var more := EncodeAll(a, s1.1, tail).value;
      var step := EncodeSymbol(a, more.1, x).value;
      AppendAssocBits(s1.0, more.0, step.0);
    }
  }

  /** encode's loop over a single letter is that letter's step. */
  lemma EncodeAllOne(a: Alphabet, s: State, x: char)
    requires WellFormed(a) && InUse(a, s) && x in a.indexes
    ensures EncodeSymbol(a, s, x).Some? && EncodeAll(a, s, [x]).Some?
    ensures EncodeAll(a, s, [x]).value.0 == [] + EncodeSymbol(a, s, x).value.0
    ensures EncodeAll(a, s, [x]).value.1 == EncodeSymbol(a, s, x).value.1
  {
    EncodeAllCons(a, s, x, []);
    SnocEmpty([], x);
    NilRight(EncodeSymbol(a, s, x).value.0);
    NilLeft(EncodeSymbol(a, s, x).value.0);
  }

  lemma EncodeAllNil(a: Alphabet, s: State, cs: seq<char>)
    requires WellFormed(a) && InUse(a, s) && cs == []
    ensures EncodeAll(a, s, cs) == Some(([], s))
  {
  }

  // Sequence or arithmetic fact, not a claim about the model: stated apart to keep proof cost down.
  lemma ConsSplit(cs: seq<char>, x: char)
    requires cs != []
    ensures cs == [cs[0]] + cs[1..] && cs + [x] == [cs[0]] + (cs[1..] + [x])
  {
  }

  // Sequence or arithmetic fact, not a claim about the model: stated apart to keep proof cost down.
  lemma HeadTail(cs: seq<char>)
    requires cs != []
    ensures cs == [cs[0]] + cs[1..]
  {
  }

  // Sequence or arithmetic fact, not a claim about the model: stated apart to keep proof cost down.
  lemma SnocEmpty(cs: seq<char>, x: char)
    requires cs == []
    ensures cs + [x] == [x] && [x] + cs == [x]
  {
  }

  // Sequence or arithmetic fact, not a claim about the model: stated apart to keep proof cost down.
  lemma NilLeft<T>(xs: seq<T>)
    ensures [] + xs == xs
  {
  }

  // Sequence or arithmetic fact, not a claim about the model: stated apart to keep proof cost down.
  lemma AppendAssocBits(p: seq<bool>, q: seq<bool>, r: seq<bool>)
    ensures p + (q + r) == (p + q) + r
  {
  }

  /** The model after one step of encode is the model update gives. */
  lemma EncodeSymbolUpdate(a: Alphabet, s: State, c: char)
    requires WellFormed(a) && InUse(a, s) && c in a.indexes
    ensures EncodeSymbol(a, s, c).Some? && Update(s, a.indexes, c) == Some(EncodeSymbol(a, s, c).value.1)
  {
  }

  /**
   * After a round trip the two models differ by the end-of-input character: the encoder
   * updated with it and the decoder stopped before doing so. Updating the decoder's final
   * model with end-of-input gives the encoder's, so a pair reused for a second stream
   * without reset no longer agrees unless the decoder makes up that update.
   */
  lemma EncoderAhead(a: Alphabet, s: State, cs: seq<char>)
    requires WellFormed(a) && InUse(a, s) && Plain(a, cs)
    ensures Encode(a, s, cs).Some?
    ensures Update(Decode(a, s, Encode(a, s, cs).value.0).1, a.indexes, Eof(a)) == Some(Encode(a, s, cs).value.1)
  {
    RoundTrip(a, s, cs);
    IndexOfSymbol(a, |a.symbols| - 1);
    EncodeAllSnoc(a, s, cs, Eof(a));
    var before := EncodeAll(a, s, cs).value.1;
    EncodeSymbolUpdate(a, before, Eof(a));
  }

  lemma PadSplit(bits: seq<bool>)
    ensures Padded(bits) == bits + Padded(bits)[|bits|..]
  {
    var r := Padded(bits);
    assert r == r[..|bits|] + r[|bits|..];
  }

  /** Two fresh models over the same alphabet: the decoder's recovers what the encoder's encoded. */
  lemma FreshRoundTrip(symbols: seq<char>, cs: seq<char>)
    requires |symbols| >= 1 && Distinct(symbols) && Plain(MakeAlphabet(symbols), cs)
    ensures var a := MakeAlphabet(symbols);
      Encode(a, Reset(|symbols|), cs).Some? &&
      Decode(a, Reset(|symbols|), Encode(a, Reset(|symbols|), cs).value.0).0 == cs
  {
    RoundTrip(MakeAlphabet(symbols), Reset(|symbols|), cs);
  }
}

