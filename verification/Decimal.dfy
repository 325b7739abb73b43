/** Decimal printing of integers, as `%d`. */
module Decimal {
  import opened Basics
  import opened Digits

  function Chars(digits: seq<int>): (s: string)
    requires InBase(10, digits)
    ensures |s| == |digits|
  {
    seq(|digits|, i requires 0 <= i < |digits| => ('0' as int + digits[i]) as char)
  }

  function Unsigned(n: nat): string { if n == 0 then "0" else Chars(Minimal(10, n)) }

  function Itoa(n: int): string { if n < 0 then "-" + Unsigned(-n) else Unsigned(n) }

  /** The characters of printed integers. */
  predicate NumberChar(c: char) { '0' <= c <= '9' || c == '-' }

  lemma UnsignedChars(n: nat)
    ensures Unsigned(n) != [] && forall i | 0 <= i < |Unsigned(n)| :: '0' <= Unsigned(n)[i] <= '9'
    ensures n > 0 ==> Unsigned(n)[0] != '0'
  {
    MinimalValue(10, n);
    hide Minimal;
  }

  /** A printed integer consists of digits after a minus sign that only a negative one has. */
  lemma ItoaChars(n: int)
    ensures Itoa(n) != [] && forall i | 0 <= i < |Itoa(n)| :: NumberChar(Itoa(n)[i])
    ensures Itoa(n)[0] == '-' <==> n < 0
  {
    UnsignedChars(Abs(n));
    hide Unsigned;
  }

  /** A printed integer is a minus sign, if it is negative, and the decimal digits of its absolute value,
      without a leading zero unless it is zero. */
  lemma ItoaDenotes(n: int)
    ensures n < 0 ==> Itoa(n) == "-" + Itoa(-n)
    ensures n >= 0 ==>
              && Itoa(n) != [] && (n > 0 ==> Itoa(n)[0] != '0')
              && (forall i | 0 <= i < |Itoa(n)| :: 48 <= Itoa(n)[i] as int <= 57)
              && Value(10, seq(|Itoa(n)|, i requires 0 <= i < |Itoa(n)| => Itoa(n)[i] as int - 48)) == n
  {
    if n >= 0 {
      UnsignedChars(n);
      MinimalValue(10, n);
      var digits := seq(|Itoa(n)|, i requires 0 <= i < |Itoa(n)| => Itoa(n)[i] as int - 48);
      if n == 0 {
        assert Itoa(0) == "0" && digits == [0];
      } else {
        assert digits == Minimal(10, n);
      }
    }
  }

  lemma CharsInjective(a: seq<int>, b: seq<int>)
    requires InBase(10, a) && InBase(10, b) && Chars(a) == Chars(b)
    ensures a == b
  {
    assert |a| == |Chars(a)| == |b|;
    forall i | 0 <= i < |a| ensures a[i] == b[i] {
      assert Chars(a)[i] == Chars(b)[i];
    }
  }

  lemma UnsignedInjective(a: nat, b: nat)
    requires Unsigned(a) == Unsigned(b)
    ensures a == b
  {
    hide Minimal, Chars, Value;
    MinimalValue(10, a);
    MinimalValue(10, b);
    UnsignedChars(a);
    UnsignedChars(b);
    if a > 0 && b > 0 {
      CharsInjective(Minimal(10, a), Minimal(10, b));
    }
  }

  /** Different integers print differently. */
  lemma ItoaInjective(a: int, b: int)
    requires Itoa(a) == Itoa(b)
    ensures a == b
  {
    ItoaChars(a);
    ItoaChars(b);
    hide Unsigned;
    if a < 0 {
      assert Itoa(a)[1..] == Unsigned(-a) && Itoa(b)[1..] == Unsigned(-b);
      UnsignedInjective(-a, -b);
    } else {
      UnsignedInjective(a, b);
    }
  }

  /** A printed integer ends where a character follows that it cannot contain. */
  lemma ItoaPrefix(a: int, b: int, s: string, t: string)
    requires Itoa(a) + s == Itoa(b) + t
    requires (s != [] ==> !NumberChar(s[0])) && (t != [] ==> !NumberChar(t[0]))
    ensures a == b && s == t
  {
    ItoaChars(a);
    ItoaChars(b);
    hide Itoa;
    var x, y, whole := Itoa(a), Itoa(b), Itoa(a) + s;
    assert whole[..|x|] == x && whole[..|y|] == y && whole[|x|..] == s && whole[|y|..] == t;
    assert forall i | 0 <= i < |x| :: whole[i] == x[i] && NumberChar(whole[i]);
    assert forall i | 0 <= i < |y| :: whole[i] == y[i] && NumberChar(whole[i]);
    assert |x| < |whole| ==> !NumberChar(whole[|x|]);
    assert |y| < |whole| ==> !NumberChar(whole[|y|]);
    assert |x| == |y|;
    ItoaInjective(a, b);
  }
}
