/**
 * The bit-stream contract the codec relies on: `write(length, value)` appends the
 * `length` low bits of `value`, most significant first; `read(n)` returns the next
 * `n` bits as an unsigned number, most significant first; closing the writer pads
 * the last partial byte with zero bits.
 */
module Bits {

  function Pow2(k: nat): (p: nat)
    ensures p >= 1
  {
    if k == 0 then 1 else 2 * Pow2(k - 1)
  }

  lemma {:induction false} Pow2Add(a: nat, b: nat)
    ensures Pow2(a + b) == Pow2(a) * Pow2(b)
  {
    if a > 0 {
      Pow2Add(a - 1, b);
    }
  }

  lemma {:induction false} Pow2Monotone(a: nat, b: nat)
    requires a <= b
    ensures Pow2(a) <= Pow2(b)
  {
    if a < b {
      Pow2Monotone(a, b - 1);
    }
  }

  function BitValue(b: bool): nat
  {
    if b then 1 else 0
  }

  /** The `len` least-significant bits of `code`, most significant first (what `write` emits). */
  function ToBits(code: nat, len: nat): (bits: seq<bool>)
  {
    if len == 0 then [] else ToBits(code / 2, len - 1) + [code % 2 == 1]
  }

  /** The unsigned number whose bits, most significant first, are `bits` (what `read` returns). */
  function FromBits(bits: seq<bool>): (v: nat)
    ensures v < Pow2(|bits|)
  {
    if bits == [] then 0 else 2 * FromBits(bits[..|bits| - 1]) + BitValue(bits[|bits| - 1])
  }

  lemma {:induction false} ToBitsLength(code: nat, len: nat)
    ensures |ToBits(code, len)| == len
  {
    if len > 0 {
      ToBitsLength(code / 2, len - 1);
    }
  }

  /** Reading back what was written yields the value, for any value that fits. */
  lemma {:induction false} FromToBits(code: nat, len: nat)
    requires code < Pow2(len)
    ensures |ToBits(code, len)| == len
    ensures FromBits(ToBits(code, len)) == code
  {
    ToBitsLength(code, len);
    if len > 0 {
      FromToBits(code / 2, len - 1);
      var bits := ToBits(code, len);
      assert bits[..len - 1] == ToBits(code / 2, len - 1);
    }
  }

  /** Writing back the value of a bit sequence on as many bits gives the sequence. */
  lemma {:induction false} ToFromBits(bits: seq<bool>)
    ensures ToBits(FromBits(bits), |bits|) == bits
  {
    if bits != [] {
      var init := bits[..|bits| - 1];
      ToFromBits(init);
      var v := FromBits(bits);
      assert v / 2 == FromBits(init) && (v % 2 == 1) == bits[|bits| - 1];
      assert bits == init + [bits[|bits| - 1]];
    }
  }

  /** Writing `hi` on `k` bits and then `lo` on `m` bits is writing `hi * 2^m + lo` on `k + m` bits. */
  lemma {:induction false} ToBitsConcat(hi: nat, k: nat, lo: nat, m: nat)
    requires lo < Pow2(m)
    ensures ToBits(lo + Pow2(m) * hi, k + m) == ToBits(hi, k) + ToBits(lo, m)
  {
    if m == 0 {
      assert lo + Pow2(m) * hi == hi;
      assert ToBits(lo, m) == [];
      assert ToBits(hi, k) + [] == ToBits(hi, k);
    } else {
      var v := lo + Pow2(m) * hi;
      var x := lo / 2 + Pow2(m - 1) * hi;
      assert v == 2 * x + lo % 2 by {
        assert Pow2(m) * hi == 2 * (Pow2(m - 1) * hi);
      }
      assert v / 2 == x && v % 2 == lo % 2;
      ToBitsConcat(hi, k, lo / 2, m - 1);
      assert ToBits(v, k + m) == ToBits(x, k + m - 1) + [lo % 2 == 1];
      assert ToBits(lo, m) == ToBits(lo / 2, m - 1) + [lo % 2 == 1];
    }
  }

  /** Closing a bit writer: zero bits up to the next byte boundary. */
  function Padded(bits: seq<bool>): (r: seq<bool>)
    ensures |r| % 8 == 0 && |bits| <= |r| < |bits| + 8
    ensures r[..|bits|] == bits
    ensures forall i :: |bits| <= i < |r| ==> !r[i]
  {
    bits + seq((8 - |bits| % 8) % 8, _ => false)
  }
}
