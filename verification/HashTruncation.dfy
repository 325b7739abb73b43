/** From a digest to the scalar that the parties sign. */
module HashTruncation {
  import opened Basics
  import opened Digits

  /** The number of bits of n, as `big.Int.BitLen`. */
  function BitLen(n: nat): nat { |Minimal(2, n)| }

  /** The bits of n > 0 are the exponent of the power of two next above it; zero has none. */
  lemma BitLenExactly(n: nat)
    ensures n > 0 ==> BitLen(n) > 0 && Pow(2, BitLen(n) - 1) <= n
    ensures n < Pow(2, BitLen(n))
    ensures n == 0 ==> BitLen(n) == 0
  {
    MinimalLength(2, n, BitLen(n));
    MinimalLength(2, n, 0);
    if n > 0 {
      MinimalLength(2, n, BitLen(n) - 1);
    }
  }

  /** That exponent is determined by n. */
  lemma BitLenIs(n: nat, bits: nat)
    requires bits > 0 && Pow(2, bits - 1) <= n < Pow(2, bits)
    ensures BitLen(n) == bits
  {
    MinimalLength(2, n, bits);
    MinimalLength(2, n, bits - 1);
  }

  /** The bit string of a byte string. */
  function Bits(hash: seq<byte>): seq<int> {
    if hash == [] then [] else Bits(hash[..|hash| - 1]) + Fixed(2, hash[|hash| - 1], 8)
  }

  /** bits2int of section 2.3.2 of RFC 6979: the leftmost `qlen` bits, or all of them. */
  function Bits2Int(hash: seq<byte>, qlen: nat): int {
    var bits := Bits(hash);
    Value(2, if qlen < |bits| then bits[..qlen] else bits)
  }

  lemma {:induction false} BitsLength(hash: seq<byte>)
    ensures |Bits(hash)| == 8 * |hash| && InBase(2, Bits(hash)) && InBase(256, hash)
  {
    if hash != [] {
      BitsLength(hash[..|hash| - 1]);
    }
  }

  /** The bit string and the byte string denote the same number. */
  lemma {:induction false} BitsValue(hash: seq<byte>)
    ensures Value(2, Bits(hash)) == Value(256, hash)
  {
    if hash != [] {
      var init, last := hash[..|hash| - 1], hash[|hash| - 1];
      BitsValue(init);
      PowTwoEight();
      ValueAppend(2, Bits(init), Fixed(2, last, 8));
      FixedValue(2, last, 8);
    }
  }

  lemma PowTwoEight()
    ensures Pow(2, 8) == 256
  {
    assert Pow(2, 4) == 16;
    PowAdd(2, 4, 4);
  }

  lemma {:induction false} BitsPrefix(hash: seq<byte>, n: nat)
    requires n <= |hash|
    ensures 8 * n <= |Bits(hash)| && Bits(hash[..n]) == Bits(hash)[..8 * n]
    decreases |hash|
  {
    BitsLength(hash);
    hide Fixed, InBase;
    if n == |hash| {
      assert hash[..n] == hash;
    } else {
      var init := hash[..|hash| - 1];
      BitsLength(init);
      BitsPrefix(init, n);
      assert init[..n] == hash[..n];
      assert Bits(hash)[..8 * |init|] == Bits(init);
    }
  }

  /** The scalar is below 2^qlen. */
  lemma Bits2IntBound(hash: seq<byte>, qlen: nat)
    ensures 0 <= Bits2Int(hash, qlen) < Pow(2, qlen)
  {
    BitsLength(hash);
    var bits := Bits(hash);
    var kept := if qlen < |bits| then bits[..qlen] else bits;
    ValueBound(2, kept);
    PowMonotone(2, |kept|, qlen);
  }

  /** A digest that is no longer than the order is taken whole. */
  lemma Bits2IntShort(hash: seq<byte>, qlen: nat)
    requires 8 * |hash| <= qlen
    ensures Bits2Int(hash, qlen) == Value(256, hash)
  {
    BitsLength(hash);
    BitsValue(hash);
  }

  /** Cutting to whole bytes and then shifting is taking the leftmost bits in one step. */
  lemma CutThenShift(hash: seq<byte>, keep: nat, qlen: nat, excess: nat)
    requires keep <= |hash| && 8 * keep == qlen + excess
    ensures Pow(2, excess) > 0
    ensures Value(256, hash[..keep]) / Pow(2, excess) == Bits2Int(hash, qlen)
  {
    hide Pow, Value, Bits, Bits2Int;
    PowPositive(2, excess);
    var bits := Bits(hash[..keep]);
    BitsLength(hash[..keep]);
    ValuePrefix(2, bits, qlen);
    BitsValue(hash[..keep]);
    LeftmostBits(hash, keep, qlen);
  }

  /** The leftmost bits do not depend on bytes beyond them. */
  lemma LeftmostBits(hash: seq<byte>, keep: nat, qlen: nat)
    requires keep <= |hash| && qlen <= 8 * keep
    ensures qlen <= |Bits(hash[..keep])|
    ensures Value(2, Bits(hash[..keep])[..qlen]) == Bits2Int(hash, qlen)
  {
    BitsLength(hash);
    BitsPrefix(hash, keep);
    assert Bits(hash)[..8 * keep][..qlen] == Bits(hash)[..qlen];
    if qlen == |Bits(hash)| {
      assert Bits(hash)[..qlen] == Bits(hash);
    }
  }

  /** The digest as a scalar for a curve of order `order`. */
  method HashToInt(hash: seq<byte>, order: nat) returns (ret: int)
    ensures ret == Bits2Int(hash, BitLen(order))
    ensures 0 <= ret < Pow(2, BitLen(order))
    ensures 8 * |hash| <= BitLen(order) ==> ret == Value(256, hash)
    ensures 8 * |hash| > BitLen(order) ==>
              && Pow(2, 8 * |hash| - BitLen(order)) > 0
              && ret == Value(256, hash) / Pow(2, 8 * |hash| - BitLen(order))
    ensures |hash| == 32 && Pow(2, 255) <= order < Pow(2, 256) ==> ret == Value(256, hash)
  {
    var orderBits := BitLen(order);
    var orderBytes := (orderBits + 7) / 8;
    var cut := hash;
    if |cut| > orderBytes {
      cut := cut[..orderBytes];
    }
    assert cut == hash[..|cut|];
    ret := Value(256, cut);
    var excess := |cut| * 8 - orderBits;
    if excess > 0 {
      CutThenShift(hash, |cut|, orderBits, excess);
      ret := ret / Pow(2, excess);
    } else if |cut| < |hash| {
      CutThenShift(hash, |cut|, orderBits, 0);
      assert Pow(2, 0) == 1;
    } else {
      Bits2IntShort(hash, orderBits);
    }
    Bits2IntBound(hash, orderBits);
    ScalarOf(hash, order);
  }

  /** The scalar in terms of the whole digest's value. */
  lemma ScalarOf(hash: seq<byte>, order: nat)
    ensures var qlen := BitLen(order);
            && (8 * |hash| <= qlen ==> Bits2Int(hash, qlen) == Value(256, hash))
            && (8 * |hash| > qlen ==>
                  && Pow(2, 8 * |hash| - qlen) > 0
                  && Bits2Int(hash, qlen) == Value(256, hash) / Pow(2, 8 * |hash| - qlen))
    ensures |hash| == 32 && Pow(2, 255) <= order < Pow(2, 256) ==> BitLen(order) == 256
  {
    hide Bits2Int, Value, Pow, BitLen;
    var qlen := BitLen(order);
    if 8 * |hash| <= qlen {
      Bits2IntShort(hash, qlen);
    } else {
      CutThenShift(hash, |hash|, qlen, 8 * |hash| - qlen);
      assert hash[..|hash|] == hash;
    }
    if Pow(2, 255) <= order < Pow(2, 256) {
      BitLenIs(order, 256);
    }
  }
}
