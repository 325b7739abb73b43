/** Positional notation, most significant digit first.

    Base 256 is the reading that `big.Int.SetBytes` and `big.Int.Bytes` give a byte string,
    base 2 is the bit string of RFC 6979, and base 10 is what `%d` prints. */
module Digits {

  function Pow(b: nat, e: nat): nat { if e == 0 then 1 else b * Pow(b, e - 1) }

  /** Every digit of `s` is a digit of base `b`. */
  predicate InBase(b: nat, s: seq<int>) { forall i | 0 <= i < |s| :: 0 <= s[i] < b }

  /** The number that `s` denotes. */
  function Value(b: nat, s: seq<int>): int {
    if s == [] then 0 else Value(b, s[..|s| - 1]) * b + s[|s| - 1]
  }

  /** The last `n` digits of `x`, zero padded on the left. */
  function Fixed(b: nat, x: nat, n: nat): (s: seq<int>)
    requires b > 1
    ensures |s| == n && InBase(b, s)
    decreases n
  {
    if n == 0 then [] else DivMod(b, x); Fixed(b, x / b, n - 1) + [x % b]
  }

  /** The digits of `x` without leading zeros; zero is the empty string. */
  function Minimal(b: nat, x: nat): (s: seq<int>)
    requires b > 1
    ensures InBase(b, s)
    decreases x
  {
    if x == 0 then [] else QuotientShrinks(b, x); Minimal(b, x / b) + [x % b]
  }

  function Zeros(n: nat): seq<int> { seq(n, _ => 0) }

  // ----- arithmetic of one digit

  lemma MulMonotone(x: int, y: int, b: nat)
    requires x <= y
    ensures x * b <= y * b
  {
    assert (y - x) * b >= 0;
  }

  lemma QuotientShrinks(b: nat, x: nat)
    requires b > 1 && x > 0
    ensures 0 <= x / b < x
  {
    DivMod(b, x);
    var q := x / b;
    if q >= x {
      MulMonotone(2, b, q);
    }
  }

  lemma DivMod(b: nat, x: int)
    requires b > 0
    ensures x == (x / b) * b + x % b && 0 <= x % b < b
    ensures x >= 0 ==> x / b >= 0
  {
  }

  /** Quotient and remainder are the only way to split a number. */
  lemma DivModUnique(b: nat, q: int, r: int)
    requires b > 0 && 0 <= r < b
    ensures (q * b + r) / b == q && (q * b + r) % b == r
  {
    var x := q * b + r;
    DivMod(b, x);
    var q', r' := x / b, x % b;
    if q' > q {
      MulMonotone(q + 1, q', b);
    } else if q' < q {
      MulMonotone(q' + 1, q, b);
    }
  }

  lemma DivLess(b: nat, x: nat, m: nat)
    requires b > 0
    ensures x / b < m <==> x < b * m
  {
    DivMod(b, x);
    var q := x / b;
    if q < m {
      MulMonotone(q + 1, m, b);
    } else {
      MulMonotone(m, q, b);
    }
    assert m * b == b * m;
  }

  /** One more digit multiplies the bound by the base. */
  lemma DigitBound(b: nat, v: nat, d: int, bound: int)
    requires 0 <= d < b && v < bound
    ensures 0 <= v * b + d < b * bound
  {
    MulMonotone(v + 1, bound, b);
    MulMonotone(0, v, b);
  }

  // ----- values

  lemma {:induction false} PowPositive(b: nat, e: nat)
    requires b > 0
    ensures Pow(b, e) > 0
  {
    if e > 0 {
      PowPositive(b, e - 1);
    }
  }

  lemma {:induction false} PowAdd(b: nat, e: nat, f: nat)
    ensures Pow(b, e + f) == Pow(b, e) * Pow(b, f)
  {
    if e > 0 {
      PowAdd(b, e - 1, f);
      assert Pow(b, e + f) == b * Pow(b, e - 1 + f);
    }
  }

  lemma {:induction false} PowMonotone(b: nat, e: nat, f: nat)
    requires b > 0 && e <= f
    ensures Pow(b, e) <= Pow(b, f)
    decreases f
  {
    if e < f {
      PowMonotone(b, e, f - 1);
      PowPositive(b, f - 1);
      MulMonotone(1, b, Pow(b, f - 1));
    }
  }

  lemma {:induction false} ValueBound(b: nat, s: seq<int>)
    requires b > 0 && InBase(b, s)
    ensures 0 <= Value(b, s) < Pow(b, |s|)
  {
    if s != [] {
      var init, last := s[..|s| - 1], s[|s| - 1];
      ValueBound(b, init);
      DigitBound(b, Value(b, init), last, Pow(b, |init|));
    }
  }

  /** Reading a fixed-width field gives back the number written, if it fits. */
  lemma {:induction false} FixedValue(b: nat, x: nat, n: nat)
    requires b > 1 && x < Pow(b, n)
    ensures Value(b, Fixed(b, x, n)) == x
    decreases n
  {
    if n > 0 {
      DivMod(b, x);
      DivLess(b, x, Pow(b, n - 1));
      var init, last := Fixed(b, x / b, n - 1), x % b;
      FixedValue(b, x / b, n - 1);
      assert Fixed(b, x, n) == init + [last];
      assert (init + [last])[..n - 1] == init;
    }
  }

  /** Two strings of one width that denote the same number are the same string. */
  lemma {:induction false} ValueInjective(b: nat, s: seq<int>, t: seq<int>)
    requires b > 0 && InBase(b, s) && InBase(b, t) && |s| == |t|
    requires Value(b, s) == Value(b, t)
    ensures s == t
  {
    if s != [] {
      var n := |s| - 1;
      DivModUnique(b, Value(b, s[..n]), s[n]);
      DivModUnique(b, Value(b, t[..n]), t[n]);
      ValueInjective(b, s[..n], t[..n]);
      assert s == s[..n] + [s[n]] && t == t[..n] + [t[n]];
    }
  }

  /** A minimal string denotes its number and starts with a nonzero digit. */
  lemma {:induction false} MinimalValue(b: nat, x: nat)
    requires b > 1
    ensures Value(b, Minimal(b, x)) == x
    ensures Minimal(b, x) == [] || Minimal(b, x)[0] != 0
    decreases x
  {
    if x > 0 {
      QuotientShrinks(b, x);
      MinimalValue(b, x / b);
      assert Minimal(b, x)[..|Minimal(b, x)| - 1] == Minimal(b, x / b);
      DivMod(b, x);
      if Minimal(b, x / b) == [] {
        assert x / b == 0;
      }
    }
  }

  /** How many digits a number needs. */
  lemma {:induction false} MinimalLength(b: nat, x: nat, n: nat)
    requires b > 1
    ensures |Minimal(b, x)| <= n <==> x < Pow(b, n)
    decreases x
  {
    if x == 0 {
      PowPositive(b, n);
    } else if n > 0 {
      QuotientShrinks(b, x);
      MinimalLength(b, x / b, n - 1);
      DivLess(b, x, Pow(b, n - 1));
    }
  }

  lemma {:induction false} ZerosValue(b: nat, n: nat, s: seq<int>)
    ensures Value(b, Zeros(n) + s) == Value(b, s)
    decreases |s| + n
  {
    if s != [] {
      ZerosValue(b, n, s[..|s| - 1]);
      assert (Zeros(n) + s)[..n + |s| - 1] == Zeros(n) + s[..|s| - 1];
    } else if n > 0 {
      ZerosValue(b, n - 1, []);
      assert (Zeros(n) + s)[..n - 1] == Zeros(n - 1) + s;
    }
  }

  lemma {:induction false} ValueAppend(b: nat, s: seq<int>, t: seq<int>)
    ensures Value(b, s + t) == Value(b, s) * Pow(b, |t|) + Value(b, t)
  {
    if t == [] {
      assert s + t == s;
    } else {
      var m := |t| - 1;
      ValueAppend(b, s, t[..m]);
      assert (s + t)[..|s| + m] == s + t[..m];
      ShiftDigit(b, Value(b, s), Pow(b, m), Value(b, t[..m]), t[m]);
    }
  }

  lemma ShiftDigit(b: int, v: int, p: int, w: int, d: int)
    ensures (v * p + w) * b + d == v * (b * p) + (w * b + d)
  {
    assert v * p * b == v * (b * p);
  }

  /** Dropping the last digits of a string is an integer division. */
  lemma ValuePrefix(b: nat, s: seq<int>, n: nat)
    requires b > 0 && InBase(b, s) && n <= |s|
    ensures Pow(b, |s| - n) > 0 && Value(b, s[..n]) == Value(b, s) / Pow(b, |s| - n)
  {
    ValueAppend(b, s[..n], s[n..]);
    assert s == s[..n] + s[n..];
    ValueBound(b, s[n..]);
    DivModUnique(Pow(b, |s| - n), Value(b, s[..n]), Value(b, s[n..]));
  }
}
