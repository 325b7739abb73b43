/** Converting a DER threshold signature into the 65-byte form that Ethereum recovers.

    A curve point other than infinity is represented by its exponent: the point e*G of a group of
    prime order n is the number e. What the elliptic-curve library adds to that group (the
    x-coordinate, the parity of y, the address of a public key) is a parameter. */
module Signature {
  import opened Basics
  import opened Digits
  import opened Modular
  import HashTruncation

  const FIELD: nat := 32

  datatype DerSignature = DerSignature(r: int, s: int)

  datatype Conversion =
    | Converted(sig: seq<byte>)
    | MalformedDer
    | NoRecoveryId
    | Panicked

  datatype Curve = Curve(n: nat, x: nat -> int, odd: nat -> bool, address: nat -> string) {

    /** The laws of a curve group: two points share x exactly when they are equal or opposite,
        and then their y-coordinates, which add up to the odd field prime, differ in parity. */
    ghost predicate Lawful() {
      && Prime(n) && n % 2 == 1 && n < Pow(256, FIELD)
      && (forall e, f | 0 < e < n && 0 < f < n :: x(e) == x(f) <==> e == f || e == n - f)
      && (forall e | 0 < e < n :: odd(n - e) == !odd(e))
    }

    /** The point with x-coordinate r whose y has the parity of the recovery id. */
    function Lift(r: int, v: byte, from: nat): (p: Option<nat>)
      requires 0 < from <= n
      ensures p.Some? ==> from <= p.value < n && Lifts(r, v, p.value)
      ensures p.None? ==> forall e | from <= e < n :: !Lifts(r, v, e)
      decreases n - from
    {
      if from == n then None
      else if Lifts(r, v, from) then Some(from)
      else Lift(r, v, from + 1)
    }

    predicate Lifts(r: int, v: byte, e: nat) { x(e) == r && odd(e) == (v == 1) }

    /** Public key recovery, section 4.1.6 of SEC 1: r^-1 (s R - z G), refused at infinity. */
    function RecoverScalars(z: int, r: int, s: int, v: byte): Option<nat>
      requires Prime(n)
    {
      if !(0 < r < n && 0 < s < n) then None else
        match Lift(r, v, 1)
        case None => None
        case Some(e) =>
          var q := (Inverse(r, n) * (s * e - z)) % n;
          if q == 0 then None else Some(q)
    }

    /** Recovery from the wire form R || S || V of a 32-byte digest. */
    function Recover(hash: seq<byte>, sig: seq<byte>): Option<nat>
      requires Prime(n) && |sig| == 2 * FIELD + 1 && sig[2 * FIELD] < 2
    {
      if |hash| != 32 then None
      else RecoverScalars(Value(256, hash), Value(256, sig[..FIELD]),
                          Value(256, sig[FIELD..2 * FIELD]), sig[2 * FIELD])
    }

    /** d signs z with nonce k as (r, s). */
    ghost predicate Signed(z: int, r: int, s: int, d: int, k: int) {
      && 0 < d < n && 0 < k < n
      && x(k) == r
      && Congruent(s * k, z + r * d, n)
    }

    /** The point that verification computes: (z/s) G + (r/s) Q. */
    function VerificationPoint(z: int, r: int, s: int, q: int): nat
      requires Prime(n) && 0 < s < n
    {
      var w := Inverse(s, n);
      (w * z + w * r * q) % n
    }

    /** The verification equation, section 4.1.4 of SEC 1. */
    predicate Verifies(z: int, r: int, s: int, q: int)
      requires Prime(n)
    {
      && 0 < r < n && 0 < s < n
      && var e := VerificationPoint(z, r, s, q);
         e != 0 && x(e) % n == r
    }
  }

  // ----- the low half

  function LowS(s: int, n: nat): int { if s > n / 2 then n - s else s }

  /** The low form of s is the one member of 1..n/2 that is congruent to s or to its negation. */
  lemma LowSCanonical(s: int, n: nat)
    requires n % 2 == 1 && 0 < s < n
    ensures 1 <= LowS(s, n) <= n / 2
    ensures Congruent(LowS(s, n), s, n) || Congruent(LowS(s, n), -s, n)
    ensures LowS(n - s, n) == LowS(s, n) == LowS(LowS(s, n), n)
    ensures forall t | 1 <= t <= n / 2 && (Congruent(t, s, n) || Congruent(t, -s, n)) :: t == LowS(s, n)
  {
    if s > n / 2 {
      FromWitness(n - s, -s, 1, n);
    } else {
      FromWitness(s, s, 0, n);
    }
    forall t | 1 <= t <= n / 2 && (Congruent(t, s, n) || Congruent(t, -s, n))
      ensures t == LowS(s, n)
    {
      LowSUnique(s, t, n);
    }
    hide Congruent;
  }

  lemma LowSUnique(s: int, t: int, n: nat)
    requires n % 2 == 1 && 0 < s < n && 1 <= t <= n / 2
    requires Congruent(t, s, n) || Congruent(t, -s, n)
    ensures t == LowS(s, n)
  {
    hide Congruent;
    if Congruent(t, s, n) {
      CongruentSmall(t, s, n);
    } else {
      FromWitness(-s, n - s, -1, n);
      CongruentTransitive(t, -s, n - s, n);
      CongruentSmall(t, n - s, n);
    }
  }

  /** Replacing s by n - s signs the same digest with the same key and the opposite nonce. */
  lemma FlipSigned(c: Curve, z: int, r: int, s: int, d: int, k: int)
    requires c.Lawful() && c.Signed(z, r, s, d, k)
    ensures c.Signed(z, r, c.n - s, d, c.n - k)
  {
    hide Congruent, Prime;
    var n := c.n;
    Complements(n, s, k);
    CongruentTransitive((n - s) * (n - k), s * k, z + r * d, n);
  }

  lemma Complements(n: int, s: int, k: int)
    requires n > 0
    ensures Congruent((n - s) * (n - k), s * k, n)
  {
    assert (n - s) * (n - k) == s * k + (n - s - k) * n;
    FromWitness((n - s) * (n - k), s * k, n - s - k, n);
  }

  // ----- recovery inverts signing

  lemma RecoverSigner(c: Curve, z: int, r: int, s: int, d: int, k: int)
    requires c.Lawful() && 0 < r < c.n && 0 < s < c.n && c.Signed(z, r, s, d, k)
    ensures c.RecoverScalars(z, r, s, if c.odd(k) then 1 else 0) == Some(d)
  {
    hide Congruent, Inverse, Prime;
    var n := c.n;
    var v: byte := if c.odd(k) then 1 else 0;
    assert c.Lifts(r, v, k);
    assert c.Lift(r, v, 1) == Some(k);
    FromWitness(z, z, 0, n);
    CongruentAdd(s * k, z + r * d, z, z, n);
    KeyFromEquation(n, r, s * k - z, d);
  }

  /** q with r*q congruent to t is what recovery computes from t. */
  lemma KeyFromEquation(n: nat, r: int, t: int, q: int)
    requires Prime(n) && 0 < r < n && 0 <= q < n
    ensures Congruent(t, r * q, n) <==> (Inverse(r, n) * t) % n == q
  {
    var i := Inverse(r, n);
    hide Congruent, Inverse, Prime;
    CongruentRemainder(i * t, n);
    if Congruent(t, r * q, n) {
      Solution(n, r, i, t, q);
      CongruentTransitive((i * t) % n, i * t, q, n);
      CongruentSmall((i * t) % n, q, n);
    }
    if (i * t) % n == q {
      SolutionBack(n, r, i, t, q);
    }
  }

  lemma Solution(n: nat, r: int, i: int, t: int, q: int)
    requires Congruent(i * r, 1, n) && Congruent(t, r * q, n)
    ensures Congruent(i * t, q, n)
  {
    hide Congruent;
    CongruentScale(t, r * q, i, n);
    Undo(i, r, q, n);
    CongruentTransitive(i * t, i * (r * q), q, n);
  }

  lemma SolutionBack(n: nat, r: int, i: int, t: int, q: int)
    requires Congruent(i * r, 1, n) && Congruent(i * t, q, n)
    ensures Congruent(t, r * q, n)
  {
    hide Congruent;
    CongruentScale(i * t, q, r, n);
    assert r * (i * t) == i * (r * t);
    Undo(i, r, t, n);
    CongruentSymmetric(i * (r * t), t, n);
    CongruentTransitive(t, i * (r * t), r * q, n);
  }

  lemma RecoverSound(c: Curve, z: int, r: int, s: int, v: byte)
    requires c.Lawful() && c.RecoverScalars(z, r, s, v).Some?
    ensures 0 < r < c.n && 0 < s < c.n && 0 < c.RecoverScalars(z, r, s, v).value < c.n
    ensures exists k :: c.Signed(z, r, s, c.RecoverScalars(z, r, s, v).value, k)
  {
    hide Congruent, Inverse, Prime;
    var n := c.n;
    var k := c.Lift(r, v, 1).value;
    var q := c.RecoverScalars(z, r, s, v).value;
    KeyFromEquation(n, r, s * k - z, q);
    FromWitness(z, z, 0, n);
    CongruentAdd(s * k - z, r * q, z, z, n);
    assert c.Signed(z, r, s, q, k);
  }

  /** A recovered key verifies the signature it was recovered from. */
  lemma RecoveredVerifies(c: Curve, z: int, r: int, s: int, v: byte)
    requires c.Lawful() && c.RecoverScalars(z, r, s, v).Some?
    ensures c.Verifies(z, r, s, c.RecoverScalars(z, r, s, v).value)
  {
    var q := c.RecoverScalars(z, r, s, v).value;
    RecoverSound(c, z, r, s, v);
    var k :| c.Signed(z, r, s, q, k);
    SignedVerifies(c, z, r, s, q, k);
  }

  /** A signature made with q verifies under q. */
  lemma SignedVerifies(c: Curve, z: int, r: int, s: int, q: int, k: int)
    requires Prime(c.n) && 0 < r < c.n && 0 < s < c.n && c.Signed(z, r, s, q, k)
    ensures c.Verifies(z, r, s, q)
  {
    assert c.x(k) == r && 0 < k < c.n;
    PointIsNonce(c, z, r, s, q, k);
    hide Congruent, Inverse, Prime, Curve.VerificationPoint, Curve.Signed;
    DivModUnique(c.n, 0, r);
  }

  lemma PointIsNonce(c: Curve, z: int, r: int, s: int, q: int, k: int)
    requires Prime(c.n) && 0 < s < c.n && 0 < k < c.n && Congruent(s * k, z + r * q, c.n)
    ensures c.VerificationPoint(z, r, s, q) == k
  {
    CongruentSymmetric(s * k, z + r * q, c.n);
    KeyFromEquation(c.n, s, z + r * q, k);
    hide Congruent, Inverse, Prime;
    Distribute(Inverse(s, c.n), z, r, q);
  }

  lemma Distribute(w: int, z: int, r: int, q: int)
    ensures w * (z + r * q) == w * z + w * r * q
  {
    assert w * (r * q) == w * r * q;
  }

  // ----- conversion

  function Fold(ch: char): char {
    if 'A' <= ch <= 'Z' then (ch as int + 32) as char else ch
  }

  /** Equality of addresses up to letter case. An address consists of hexadecimal digits and an x, to
      which no character outside ASCII folds. */
  predicate EqualFold(a: string, b: string) {
    |a| == |b| && forall i | 0 <= i < |a| :: Fold(a[i]) == Fold(b[i])
  }

  /** Two addresses are equal up to letter case exactly when at every place they have the same character or
      one ASCII letter in its two cases. */
  lemma EqualFoldExactly(a: string, b: string)
    ensures EqualFold(a, b) <==>
              && |a| == |b|
              && forall i | 0 <= i < |a| ::
                   || a[i] == b[i]
                   || (65 <= a[i] as int <= 90 && b[i] as int == a[i] as int + 32)
                   || (65 <= b[i] as int <= 90 && a[i] as int == b[i] as int + 32)
  {
    if |a| == |b| {
      forall i | 0 <= i < |a|
        ensures Fold(a[i]) == Fold(b[i]) <==>
                  || a[i] == b[i]
                  || (65 <= a[i] as int <= 90 && b[i] as int == a[i] as int + 32)
                  || (65 <= b[i] as int <= 90 && a[i] as int == b[i] as int + 32)
      {
        FoldExactly(a[i], b[i]);
      }
    }
  }

  lemma FoldExactly(a: char, b: char)
    ensures Fold(a) == Fold(b) <==>
              || a == b
              || (65 <= a as int <= 90 && b as int == a as int + 32)
              || (65 <= b as int <= 90 && a as int == b as int + 32)
  {
    assert 'A' as int == 65 && 'Z' as int == 90;
    assert Fold(a) as int == if 65 <= a as int <= 90 then a as int + 32 else a as int;
    assert Fold(b) as int == if 65 <= b as int <= 90 then b as int + 32 else b as int;
  }

  /** A number as 32 bytes. */
  function Field(x: nat): (f: seq<byte>)
    ensures |f| == FIELD
  {
    Fixed(256, x, FIELD)
  }

  /** Both numbers fit their 32-byte fields; `Bytes` drops the sign. */
  predicate Fits(c: Curve, sig: DerSignature) {
    Abs(sig.r) < Pow(256, FIELD) && Abs(LowS(sig.s, c.n)) < Pow(256, FIELD)
  }

  function Candidate(c: Curve, sig: DerSignature, v: byte): (out: seq<byte>)
    ensures |out| == 2 * FIELD + 1 && out[2 * FIELD] == v
  {
    Field(Abs(sig.r)) + Field(Abs(LowS(sig.s, c.n))) + [v]
  }

  /** The 65 bytes recover a key whose address is the expected one. */
  predicate Matches(c: Curve, hash: seq<byte>, sig: seq<byte>, expected: string)
    requires Prime(c.n) && |sig| == 2 * FIELD + 1 && sig[2 * FIELD] < 2
  {
    var key := c.Recover(hash, sig);
    key.Some? && EqualFold(c.address(key.value), expected)
  }

  function Convert(c: Curve, der: Option<DerSignature>, hash: seq<byte>, expected: string): Conversion
    requires Prime(c.n)
  {
    if der.None? then MalformedDer
    else if !Fits(c, der.value) then Panicked
    else if Matches(c, hash, Candidate(c, der.value, 0), expected) then Converted(Candidate(c, der.value, 0))
    else if Matches(c, hash, Candidate(c, der.value, 1), expected) then Converted(Candidate(c, der.value, 1))
    else NoRecoveryId
  }

  /** Copies b to the right end of a zeroed 32-byte buffer; a longer b makes the slice bounds panic. */
  method PadTo32(b: seq<byte>) returns (p: Option<seq<byte>>)
    ensures p.Some? <==> |b| <= FIELD
    ensures p.Some? ==> 0 <= Value(256, b) && p.value == Field(Value(256, b))
  {
    if |b| > FIELD {
      return None;
    }
    var buffer := new byte[FIELD](_ => 0);
    var start := FIELD - |b|;
    for i := 0 to |b|
      invariant forall j | 0 <= j < start + i :: buffer[j] == if j < start then 0 else b[j - start]
      invariant forall j | start + i <= j < FIELD :: buffer[j] == 0
    {
      buffer[start + i] := b[i];
    }
    var out := buffer[..];
    assert out == Zeros(start) + b;
    PaddedIsField(b, out);
    return Some(out);
  }

  lemma PaddedIsField(b: seq<byte>, out: seq<byte>)
    requires |b| <= FIELD && out == Zeros(FIELD - |b|) + b
    ensures 0 <= Value(256, b) && out == Field(Value(256, b))
  {
    hide Pow, Value, Fixed;
    ZerosValue(256, FIELD - |b|, b);
    ValueBound(256, out);
    FixedValue(256, Value(256, b), FIELD);
    ValueInjective(256, out, Field(Value(256, b)));
  }

  /** The bytes of a number's absolute value, as `big.Int.Bytes`. */
  function Bytes(x: int): seq<byte> { Minimal(256, Abs(x)) }

  lemma BytesFit(x: int)
    ensures |Bytes(x)| <= FIELD <==> Abs(x) < Pow(256, FIELD)
    ensures Value(256, Bytes(x)) == Abs(x)
  {
    MinimalLength(256, Abs(x), FIELD);
    MinimalValue(256, Abs(x));
  }

  method ConvertDERToEthSignature(
      c: Curve, decode: seq<byte> -> Option<DerSignature>,
      derSig: seq<byte>, txHash: seq<byte>, expected: string)
    returns (out: Conversion)
    requires Prime(c.n)
    ensures out == Convert(c, decode(derSig), txHash, expected)
  {
    hide Curve.RecoverScalars, Curve.Recover, Value, Pow, Prime, Bytes, Field;
    var der := decode(derSig);
    if der.None? {
      return MalformedDer;
    }
    var sig := der.value;
    var halfN := c.n / 2;
    if sig.s > halfN {
      sig := sig.(s := c.n - sig.s);
    }
    BytesFit(sig.r);
    BytesFit(sig.s);
    var rPadded := PadTo32(Bytes(sig.r));
    if rPadded.None? {
      return Panicked;
    }
    var sPadded := PadTo32(Bytes(sig.s));
    if sPadded.None? {
      return Panicked;
    }
    var sigBytes := rPadded.value + sPadded.value;
    var v: byte := 0;
    while v < 2
      invariant v <= 2
      invariant v >= 1 ==> !Matches(c, txHash, Candidate(c, der.value, 0), expected)
      invariant v == 2 ==> !Matches(c, txHash, Candidate(c, der.value, 1), expected)
    {
      var candidate := sigBytes + [v];
      assert candidate == Candidate(c, der.value, v);
      var recovered := c.Recover(txHash, candidate);
      var matches := recovered.Some? && EqualFold(c.address(recovered.value), expected);
      assert matches == Matches(c, txHash, candidate, expected);
      if matches {
        return Converted(candidate);
      }
      v := v + 1;
    }
    return NoRecoveryId;
  }

  // ----- what the conversion means

  /** The two fields of a candidate decode to |r| and to the absolute value of the low form of s. */
  lemma CandidateFields(c: Curve, sig: DerSignature, v: byte)
    requires Fits(c, sig)
    ensures |Candidate(c, sig, v)| == 65 && Candidate(c, sig, v)[64] == v
    ensures Value(256, Candidate(c, sig, v)[..32]) == Abs(sig.r)
    ensures Value(256, Candidate(c, sig, v)[32..64]) == Abs(LowS(sig.s, c.n))
  {
    var out := Candidate(c, sig, v);
    FixedValue(256, Abs(sig.r), FIELD);
    FixedValue(256, Abs(LowS(sig.s, c.n)), FIELD);
    assert out[..FIELD] == Field(Abs(sig.r));
    assert out[FIELD..2 * FIELD] == Field(Abs(LowS(sig.s, c.n)));
  }

  lemma CandidateRecovers(c: Curve, sig: DerSignature, hash: seq<byte>, v: byte)
    requires Prime(c.n) && Fits(c, sig) && |hash| == 32 && v < 2
    ensures c.Recover(hash, Candidate(c, sig, v))
         == c.RecoverScalars(Value(256, hash), Abs(sig.r), Abs(LowS(sig.s, c.n)), v)
  {
    CandidateFields(c, sig, v);
  }

  /** Some key with the expected address signed the digest as (r, s). */
  ghost predicate SignedFor(c: Curve, z: int, r: int, s: int, expected: string) {
    exists d, k :: c.Signed(z, r, s, d, k) && EqualFold(c.address(d), expected)
  }

  /** For every input, the conversion succeeds exactly when the fields fit and are in range, the
      digest has 32 bytes, and some key with the expected address made the signature. */
  lemma ConvertsExactly(c: Curve, sig: DerSignature, hash: seq<byte>, expected: string)
    requires c.Lawful()
    ensures Convert(c, Some(sig), hash, expected).Converted? <==>
              && |hash| == 32
              && 0 < Abs(sig.r) < c.n && 0 < Abs(LowS(sig.s, c.n)) < c.n
              && SignedFor(c, Value(256, hash), Abs(sig.r), Abs(LowS(sig.s, c.n)), expected)
  {
    hide Convert, SignedFor, Value, Pow, Prime;
    if Convert(c, Some(sig), hash, expected).Converted? {
      ConvertedWasSigned(c, sig, hash, expected);
    }
    if && |hash| == 32 && 0 < Abs(sig.r) < c.n && 0 < Abs(LowS(sig.s, c.n)) < c.n
       && SignedFor(c, Value(256, hash), Abs(sig.r), Abs(LowS(sig.s, c.n)), expected) {
      SignedIsConverted(c, sig, hash, expected);
    }
  }

  /** Success means that one of the two candidates matches. */
  lemma ConvertedCandidate(c: Curve, sig: DerSignature, hash: seq<byte>, expected: string)
    requires Prime(c.n)
    ensures Convert(c, Some(sig), hash, expected).Converted? <==>
              && Fits(c, sig)
              && (Matches(c, hash, Candidate(c, sig, 0), expected) || Matches(c, hash, Candidate(c, sig, 1), expected))
  {
    hide Matches, Candidate, Fits, Prime;
  }

  lemma ConvertedWasSigned(c: Curve, sig: DerSignature, hash: seq<byte>, expected: string)
    requires c.Lawful() && Convert(c, Some(sig), hash, expected).Converted?
    ensures |hash| == 32 && 0 < Abs(sig.r) < c.n && 0 < Abs(LowS(sig.s, c.n)) < c.n
    ensures SignedFor(c, Value(256, hash), Abs(sig.r), Abs(LowS(sig.s, c.n)), expected)
  {
    ConvertedCandidate(c, sig, hash, expected);
    hide Convert, Curve.Signed, Curve.RecoverScalars, Candidate, Value, Pow, Prime;
    var v: byte := if Matches(c, hash, Candidate(c, sig, 0), expected) then 0 else 1;
    CandidateRecovers(c, sig, hash, v);
    RecoverSound(c, Value(256, hash), Abs(sig.r), Abs(LowS(sig.s, c.n)), v);
  }

  lemma SignedIsConverted(c: Curve, sig: DerSignature, hash: seq<byte>, expected: string)
    requires c.Lawful() && |hash| == 32 && 0 < Abs(sig.r) < c.n && 0 < Abs(LowS(sig.s, c.n)) < c.n
    requires SignedFor(c, Value(256, hash), Abs(sig.r), Abs(LowS(sig.s, c.n)), expected)
    ensures Convert(c, Some(sig), hash, expected).Converted?
  {
    var z, r, s := Value(256, hash), Abs(sig.r), Abs(LowS(sig.s, c.n));
    var d, k :| c.Signed(z, r, s, d, k) && EqualFold(c.address(d), expected);
    var v: byte := if c.odd(k) then 1 else 0;
    RecoverSigner(c, z, r, s, d, k);
    ConvertedCandidate(c, sig, hash, expected);
    hide Convert, Curve.Signed, Curve.RecoverScalars, Curve.Recover, Candidate, Prime, Value, Pow;
    CandidateRecovers(c, sig, hash, v);
    assert Matches(c, hash, Candidate(c, sig, v), expected);
  }

  /** Within range the condition is about the signature as decoded, before any flip. */
  lemma InRangeConvertsExactly(c: Curve, sig: DerSignature, hash: seq<byte>, expected: string)
    requires c.Lawful() && 0 < sig.r < c.n && 0 < sig.s < c.n && |hash| == 32
    ensures Convert(c, Some(sig), hash, expected).Converted? <==>
            SignedFor(c, Value(256, hash), sig.r, sig.s, expected)
  {
    hide SignedFor, Convert;
    var z, s := Value(256, hash), LowS(sig.s, c.n);
    LowSCanonical(sig.s, c.n);
    ConvertsExactly(c, sig, hash, expected);
    if s != sig.s {
      FlipSignedFor(c, z, sig.r, sig.s, expected);
      FlipSignedFor(c, z, sig.r, s, expected);
    }
  }

  lemma FlipSignedFor(c: Curve, z: int, r: int, s: int, expected: string)
    requires c.Lawful()
    ensures SignedFor(c, z, r, s, expected) ==> SignedFor(c, z, r, c.n - s, expected)
  {
    if SignedFor(c, z, r, s, expected) {
      var d, k :| c.Signed(z, r, s, d, k) && EqualFold(c.address(d), expected);
      FlipSigned(c, z, r, s, d, k);
    }
  }

  /** Whatever is returned recovers a key that verifies (r, S) and has the expected address. */
  lemma ConvertedIsSound(c: Curve, sig: DerSignature, hash: seq<byte>, expected: string)
    requires c.Lawful() && Convert(c, Some(sig), hash, expected).Converted?
    ensures var out := Convert(c, Some(sig), hash, expected).sig;
            && Matches(c, hash, out, expected)
            && c.Verifies(Value(256, hash), Value(256, out[..FIELD]), Value(256, out[FIELD..2 * FIELD]),
                          c.Recover(hash, out).value)
  {
    var out := Convert(c, Some(sig), hash, expected).sig;
    RecoveredVerifies(c, Value(256, hash), Value(256, out[..FIELD]),
                      Value(256, out[FIELD..2 * FIELD]), out[2 * FIELD]);
  }

  /** A valid threshold signature always converts, whether or not s has to be flipped. When no
      other key shares the address, the result recovers the signer and carries the nonce's parity,
      inverted by a flip. */
  lemma SignatureConverts(c: Curve, sig: DerSignature, hash: seq<byte>, d: int, k: int, expected: string)
    requires c.Lawful() && |hash| == 32
    requires 0 < sig.r < c.n && 0 < sig.s < c.n
    requires c.Signed(Value(256, hash), sig.r, sig.s, d, k)
    requires EqualFold(c.address(d), expected)
    ensures Convert(c, Some(sig), hash, expected).Converted?
    ensures OnlyAddressOf(c, d, expected) ==>
              && var out := Convert(c, Some(sig), hash, expected).sig;
              && c.Recover(hash, out) == Some(d)
              && out == Candidate(c, sig, if c.odd(k) != (sig.s > c.n / 2) then 1 else 0)
  {
    var z, s := Value(256, hash), LowS(sig.s, c.n);
    LowSCanonical(sig.s, c.n);
    var k' := if sig.s > c.n / 2 then c.n - k else k;
    if sig.s > c.n / 2 {
      FlipSigned(c, z, sig.r, sig.s, d, k);
    }
    LowSignatureConverts(c, sig, hash, d, k', expected);
  }

  ghost predicate OnlyAddressOf(c: Curve, d: int, expected: string) {
    forall e | 0 < e < c.n && EqualFold(c.address(e), expected) :: e == d
  }

  lemma LowSignatureConverts(c: Curve, sig: DerSignature, hash: seq<byte>, d: int, k: int, expected: string)
    requires c.Lawful() && |hash| == 32
    requires 0 < sig.r < c.n && 0 < LowS(sig.s, c.n) < c.n
    requires c.Signed(Value(256, hash), sig.r, LowS(sig.s, c.n), d, k)
    requires EqualFold(c.address(d), expected)
    ensures Convert(c, Some(sig), hash, expected).Converted?
    ensures OnlyAddressOf(c, d, expected) ==>
              && var out := Convert(c, Some(sig), hash, expected).sig;
              && c.Recover(hash, out) == Some(d)
              && out == Candidate(c, sig, if c.odd(k) then 1 else 0)
  {
    var v: byte := if c.odd(k) then 1 else 0;
    RecoverSigner(c, Value(256, hash), sig.r, LowS(sig.s, c.n), d, k);
    CandidateRecovers(c, sig, hash, v);
    if OnlyAddressOf(c, d, expected) {
      OtherIdFails(c, sig, hash, d, k, expected);
    }
    hide Curve.Signed, Curve.RecoverScalars, Curve.Recover, Candidate, Prime, Value, Pow;
  }

  lemma OtherIdFails(c: Curve, sig: DerSignature, hash: seq<byte>, d: int, k: int, expected: string)
    requires c.Lawful() && |hash| == 32 && Fits(c, sig)
    requires 0 < sig.r < c.n && 0 < LowS(sig.s, c.n) < c.n
    requires c.Signed(Value(256, hash), sig.r, LowS(sig.s, c.n), d, k)
    requires OnlyAddressOf(c, d, expected)
    ensures !Matches(c, hash, Candidate(c, sig, if c.odd(k) then 0 else 1), expected)
  {
    var v: byte := if c.odd(k) then 0 else 1;
    var z, s := Value(256, hash), LowS(sig.s, c.n);
    OtherParity(c, z, sig.r, s, d, k);
    hide Curve.Signed, Curve.RecoverScalars, Curve.Recover, Candidate, Prime, Value, Pow;
    CandidateRecovers(c, sig, hash, v);
    if c.RecoverScalars(z, sig.r, s, v).Some? {
      RecoverSound(c, z, sig.r, s, v);
    }
  }

  /** The opposite point does not recover the signer, since n is odd. */
  lemma OtherParity(c: Curve, z: int, r: int, s: int, d: int, k: int)
    requires c.Lawful() && 0 < r < c.n && 0 < s < c.n && c.Signed(z, r, s, d, k)
    ensures c.RecoverScalars(z, r, s, if c.odd(k) then 0 else 1) != Some(d)
  {
    hide Congruent, Inverse, Prime;
    var v: byte := if c.odd(k) then 0 else 1;
    if c.RecoverScalars(z, r, s, v) == Some(d) {
      var e := c.Lift(r, v, 1).value;
      KeyFromEquation(c.n, r, s * e - z, d);
      FromWitness(z, z, 0, c.n);
      CongruentAdd(s * e - z, r * d, z, z, c.n);
      CongruentSymmetric(s * k, z + r * d, c.n);
      CongruentTransitive(s * e, z + r * d, s * k, c.n);
      Cancel(s, e, k, c.n);
      CongruentSmall(e, k, c.n);
    }
  }

  /** The signature that the parties make on the truncated transaction digest converts on the
      other side, which recovers from the digest itself. */
  lemma SignedDigestConverts(c: Curve, sig: DerSignature, txHash: seq<byte>, d: int, k: int, expected: string)
    requires c.Lawful() && Pow(2, 255) <= c.n < Pow(2, 256) && |txHash| == 32
    requires 0 < sig.r < c.n && 0 < sig.s < c.n
    requires c.Signed(HashTruncation.Bits2Int(txHash, HashTruncation.BitLen(c.n)), sig.r, sig.s, d, k)
    requires EqualFold(c.address(d), expected)
    ensures Convert(c, Some(sig), txHash, expected).Converted?
  {
    HashTruncation.BitLenIs(c.n, 256);
    HashTruncation.Bits2IntShort(txHash, 256);
    SignatureConverts(c, sig, txHash, d, k, expected);
  }

  /** Whatever converts recovers a key whose address differs from the expected one in letter case only. */
  lemma ConvertedAddress(c: Curve, sig: DerSignature, hash: seq<byte>, expected: string)
    requires c.Lawful() && Convert(c, Some(sig), hash, expected).Converted?
    ensures var out := Convert(c, Some(sig), hash, expected).sig;
            && |out| == 65 && out[64] < 2
            && c.Recover(hash, out).Some?
            && var address := c.address(c.Recover(hash, out).value);
            && |address| == |expected|
            && forall i | 0 <= i < |address| ::
                 || address[i] == expected[i]
                 || (65 <= address[i] as int <= 90 && expected[i] as int == address[i] as int + 32)
                 || (65 <= expected[i] as int <= 90 && address[i] as int == expected[i] as int + 32)
    ensures var out := Convert(c, Some(sig), hash, expected).sig;
            out[64] == 1 ==>
              !(c.Recover(hash, out[..64] + [0]).Some?
                && EqualFold(c.address(c.Recover(hash, out[..64] + [0]).value), expected))
  {
    var out := Convert(c, Some(sig), hash, expected).sig;
    CandidateFields(c, sig, 0);
    CandidateFields(c, sig, 1);
    assert Matches(c, hash, out, expected);
    if out[64] == 1 {
      assert out[..64] + [0] == Candidate(c, sig, 0);
    }
    hide Convert, Candidate, Fits, EqualFold, Curve.Recover;
    EqualFoldExactly(c.address(c.Recover(hash, out).value), expected);
  }

  /** A valid signature converts for every spelling of its signer's address in lower and upper case. */
  lemma CaseVariantConverts(c: Curve, sig: DerSignature, hash: seq<byte>, d: int, k: int, expected: string)
    requires c.Lawful() && |hash| == 32 && 0 < sig.r < c.n && 0 < sig.s < c.n
    requires c.Signed(Value(256, hash), sig.r, sig.s, d, k) && |c.address(d)| == |expected|
    requires var address := c.address(d);
             forall i | 0 <= i < |address| ::
               || address[i] == expected[i]
               || (65 <= address[i] as int <= 90 && expected[i] as int == address[i] as int + 32)
               || (65 <= expected[i] as int <= 90 && address[i] as int == expected[i] as int + 32)
    ensures Convert(c, Some(sig), hash, expected).Converted?
  {
    hide Curve.Lawful, Convert, EqualFold, Value;
    EqualFoldExactly(c.address(d), expected);
    SignatureConverts(c, sig, hash, d, k, expected);
  }

  /** The errors: no decoded signature, a number that does not fit, and otherwise no recovery id. */
  lemma ErrorsExactly(c: Curve, der: Option<DerSignature>, hash: seq<byte>, expected: string)
    requires Prime(c.n)
    ensures var r := Convert(c, der, hash, expected);
            && (r.MalformedDer? <==> der.None?)
            && (r.Panicked? <==>
                  && der.Some?
                  && !(0 < der.value.r + Pow(256, 32) < 2 * Pow(256, 32)
                       && 0 < LowS(der.value.s, c.n) + Pow(256, 32) < 2 * Pow(256, 32)))
            && (r.NoRecoveryId? <==> !r.MalformedDer? && !r.Panicked? && !r.Converted?)
  {
    hide Matches, Candidate, Prime, Pow, LowS;
  }

  /** The S field of what is returned. */
  lemma ConvertedFields(c: Curve, sig: DerSignature, hash: seq<byte>, expected: string)
    requires Prime(c.n) && Convert(c, Some(sig), hash, expected).Converted?
    ensures var out := Convert(c, Some(sig), hash, expected).sig;
            |out| == 2 * FIELD + 1 && Value(256, out[FIELD..2 * FIELD]) == Abs(LowS(sig.s, c.n))
  {
    hide Matches, Candidate, Value, Prime;
    assert Fits(c, sig);
    CandidateFields(c, sig, 0);
    CandidateFields(c, sig, 1);
  }

  /** The returned S is in the low half exactly for these decoded s. */
  lemma LowSExactly(c: Curve, sig: DerSignature, hash: seq<byte>, expected: string)
    requires c.Lawful() && Convert(c, Some(sig), hash, expected).Converted?
    ensures 1 <= Value(256, Convert(c, Some(sig), hash, expected).sig[FIELD..2 * FIELD]) <= c.n / 2
       <==> -(c.n / 2) <= sig.s <= c.n + c.n / 2
  {
    var out := Convert(c, Some(sig), hash, expected).sig;
    CandidateFields(c, sig, out[2 * FIELD]);
    ConvertsExactly(c, sig, hash, expected);
  }

  /** A valid signature with a high s, decoded with -s in its place, converts and keeps the high S: the
      conversion flips only what is greater than half the order. */
  lemma HighSReturned(c: Curve, r: int, s: int, hash: seq<byte>, expected: string)
    requires c.Lawful() && |hash| == 32 && 0 < r < c.n && c.n / 2 < s < c.n
    requires SignedFor(c, Value(256, hash), r, s, expected)
    ensures var result := Convert(c, Some(DerSignature(r, -s)), hash, expected);
            result.Converted? && Value(256, result.sig[FIELD..2 * FIELD]) == s > c.n / 2
  {
    var sig := DerSignature(r, -s);
    hide Convert, SignedFor, Value, Pow, Prime;
    assert LowS(sig.s, c.n) == -s && Abs(sig.r) == r && Abs(-s) == s;
    hide *;
    ConvertsExactly(c, sig, hash, expected);
    ConvertedFields(c, sig, hash, expected);
  }

  /** The conversion panics exactly when a number needs more than 32 bytes. */
  lemma PanicsExactly(c: Curve, sig: DerSignature, hash: seq<byte>, expected: string)
    requires Prime(c.n)
    ensures Convert(c, Some(sig), hash, expected).Panicked? <==>
            |Bytes(sig.r)| > FIELD || |Bytes(LowS(sig.s, c.n))| > FIELD
  {
    BytesFit(sig.r);
    BytesFit(LowS(sig.s, c.n));
    hide Matches, Candidate, Bytes, Prime, Pow;
  }

  /** A model of the laws with seven elements, in which every key has the same address. */
  function SevenPoints(): Curve { Curve(7, e => if e <= 3 then e else 7 - e, e => e <= 3, e => "") }

  lemma SevenPointsLawful()
    ensures SevenPoints().Lawful()
  {
    assert Pow(256, 1) == 256;
    PowMonotone(256, 1, FIELD);
  }

  lemma ZeroDigest()
    ensures |Zeros(32)| == 32 && Value(256, Zeros(32)) == 0
  {
    ZerosValue(256, 32, []);
    assert Zeros(32) + [] == Zeros(32);
  }

  lemma SevenPointsSign()
    ensures SignedFor(SevenPoints(), 0, 1, 4, "")
  {
    FromWitness(4 * 1, 0 + 1 * 4, 0, 7);
    assert SevenPoints().Signed(0, 1, 4, 4, 1);
    assert EqualFold(SevenPoints().address(4), "");
  }

  /** With seven points, the key 4 and the nonce 1 sign zero as (1, 4), whose negated form keeps S at 4. */
  lemma HighSInput()
    ensures var c := SevenPoints();
            var result := Convert(c, Some(DerSignature(1, -4)), Zeros(32), "");
            c.Lawful() && result.Converted? && Value(256, result.sig[FIELD..2 * FIELD]) == 4 > c.n / 2
  {
    hide Curve.Lawful, Convert, Value, Pow, SignedFor, Prime;
    SevenPointsLawful();
    SevenPointsSign();
    ZeroDigest();
    HighSReturned(SevenPoints(), 1, 4, Zeros(32), "");
  }
}
