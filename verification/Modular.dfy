/** Arithmetic modulo an odd prime, as far as ECDSA recovery needs it. */
module Modular {
  import Digits

  ghost predicate Prime(n: int) {
    n > 1 && forall a | 1 < a < n :: n % a != 0
  }

  predicate DifferBy(a: int, b: int, k: int, n: int) { a == b + k * n }

  /** a and b differ by a multiple of n. */
  ghost predicate Congruent(a: int, b: int, n: int) {
    exists k :: DifferBy(a, b, k, n)
  }

  /** The quotient that witnesses a congruence. */
  lemma Witness(a: int, b: int, n: int) returns (k: int)
    requires Congruent(a, b, n)
    ensures a == b + k * n
  {
    k :| DifferBy(a, b, k, n);
  }

  lemma FromWitness(a: int, b: int, k: int, n: int)
    requires a == b + k * n
    ensures Congruent(a, b, n)
  {
    assert DifferBy(a, b, k, n);
  }

  lemma CongruentRemainder(a: int, n: int)
    requires n > 0
    ensures Congruent(a % n, a, n) && Congruent(a, a % n, n)
  {
    Digits.DivMod(n, a);
    FromWitness(a % n, a, -(a / n), n);
    FromWitness(a, a % n, a / n, n);
  }

  lemma CongruentSymmetric(a: int, b: int, n: int)
    requires Congruent(a, b, n)
    ensures Congruent(b, a, n)
  {
    var k := Witness(a, b, n);
    FromWitness(b, a, -k, n);
  }

  lemma CongruentTransitive(a: int, b: int, c: int, n: int)
    requires Congruent(a, b, n) && Congruent(b, c, n)
    ensures Congruent(a, c, n)
  {
    var k := Witness(a, b, n);
    var l := Witness(b, c, n);
    FromWitness(a, c, k + l, n);
  }

  lemma CongruentAdd(a: int, b: int, c: int, d: int, n: int)
    requires Congruent(a, b, n) && Congruent(c, d, n)
    ensures Congruent(a + c, b + d, n) && Congruent(a - c, b - d, n)
  {
    var k := Witness(a, b, n);
    var l := Witness(c, d, n);
    FromWitness(a + c, b + d, k + l, n);
    FromWitness(a - c, b - d, k - l, n);
  }

  lemma CongruentScale(a: int, b: int, c: int, n: int)
    requires Congruent(a, b, n)
    ensures Congruent(c * a, c * b, n)
  {
    var k := Witness(a, b, n);
    assert c * a == c * b + (c * k) * n;
    FromWitness(c * a, c * b, c * k, n);
  }

  lemma CongruentSmall(a: int, b: int, n: int)
    requires 0 <= a < n && 0 <= b < n && Congruent(a, b, n)
    ensures a == b
  {
    var k := Witness(a, b, n);
    if k > 0 {
      Digits.MulMonotone(1, k, n);
    } else if k < 0 {
      Digits.MulMonotone(k, -1, n);
    }
  }

  /** The inverse of `a` modulo a prime, from the quotient and remainder of n by a. */
  function Inverse(a: int, n: int): (i: int)
    requires Prime(n) && 0 < a < n
    ensures 0 <= i < n && Congruent(i * a, 1, n)
    decreases a
  {
    if a == 1 then
      FromWitness(1 * 1, 1, 0, n);
      1
    else
      Digits.DivMod(a, n);
      var i := (-(n / a) * Inverse(n % a, n)) % n;
      InverseStep(a, Inverse(n % a, n), n);
      i
  }

  lemma InverseStep(a: int, j: int, n: int)
    requires 1 < a < n && Congruent(j * (n % a), 1, n)
    ensures Congruent((-(n / a) * j) % n * a, 1, n)
  {
    var q, t := n / a, n % a;
    Digits.DivMod(a, n);
    assert (-q * j) * a == j * t + (-j) * n;
    FromWitness((-q * j) * a, j * t, -j, n);
    CongruentTransitive((-q * j) * a, j * t, 1, n);
    CongruentRemainder(-q * j, n);
    CongruentScale((-q * j) % n, -q * j, a, n);
    CongruentTransitive((-q * j) % n * a, (-q * j) * a, 1, n);
  }

  /** Modulo a prime a factor between 0 and n cancels. */
  lemma Cancel(a: int, x: int, y: int, n: int)
    requires Prime(n) && 0 < a < n && Congruent(a * x, a * y, n)
    ensures Congruent(x, y, n)
  {
    var i := Inverse(a, n);
    CongruentScale(a * x, a * y, i, n);
    Undo(i, a, x, n);
    Undo(i, a, y, n);
    CongruentSymmetric(i * (a * x), x, n);
    CongruentTransitive(x, i * (a * x), i * (a * y), n);
    CongruentTransitive(x, i * (a * y), y, n);
  }

  lemma Undo(i: int, a: int, x: int, n: int)
    requires Congruent(i * a, 1, n)
    ensures Congruent(i * (a * x), x, n)
  {
    CongruentScale(i * a, 1, x, n);
    assert x * (i * a) == i * (a * x);
  }
}
