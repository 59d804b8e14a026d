/** Positional numerals: a number and its digits in some base, the most significant digit first. */
module Numerals {
  import opened Bytes

  predicate Digits(s: seq<nat>, base: nat) {
    forall i | 0 <= i < |s| :: s[i] < base
  }

  function ValueOf(s: seq<nat>, base: nat): nat {
    if s == [] then 0 else ValueOf(s[..|s| - 1], base) * base + s[|s| - 1]
  }

  /** The digits of a number, without leading zeros: none for zero. */
  function DigitsOf(n: nat, base: nat): (s: seq<nat>)
    requires base >= 2
    ensures Digits(s, base)
    ensures s == [] <==> n == 0
    ensures n > 0 ==> s[0] > 0
  {
    if n == 0 then [] else DigitsOf(n / base, base) + [n % base]
  }

  function Zeros(n: nat): (s: seq<nat>)
    ensures |s| == n && forall i | 0 <= i < n :: s[i] == 0
  {
    seq(n, _ => 0)
  }

  function LeadingZeros(s: seq<nat>): (n: nat)
    ensures n <= |s|
    ensures n < |s| ==> s[n] != 0
    ensures forall i | 0 <= i < n :: s[i] == 0
  {
    if s == [] || s[0] != 0 then 0 else 1 + LeadingZeros(s[1..])
  }

  lemma {:induction false} SplitZeros(s: seq<nat>)
    ensures s == Zeros(LeadingZeros(s)) + s[LeadingZeros(s)..]
  {
    if s != [] && s[0] == 0 {
      SplitZeros(s[1..]);
      var n := LeadingZeros(s[1..]);
      assert s == [0] + s[1..] && s[n + 1..] == s[1..][n..];
      assert Zeros(n + 1) == [0] + Zeros(n);
    }
  }

  lemma {:induction false} LeadingZerosOf(n: nat, s: seq<nat>)
    requires s == [] || s[0] != 0
    ensures LeadingZeros(Zeros(n) + s) == n
  {
    if n == 0 {
      assert Zeros(0) + s == s;
    } else {
      LeadingZerosOf(n - 1, s);
      assert (Zeros(n) + s)[1..] == Zeros(n - 1) + s;
    }
  }

  lemma {:induction false} ValueOfDigits(n: nat, base: nat)
    requires base >= 2
    ensures ValueOf(DigitsOf(n, base), base) == n
  {
    if n > 0 {
      hide ValueOf, DigitsOf;
      var q, d := n / base, n % base;
      DigitsNext(n, base);
      ValueOfDigits(q, base);
      ValueOfAppend(DigitsOf(q, base), d, base);
    }
  }

  lemma DigitsNext(n: nat, base: nat)
    requires base >= 2 && n > 0
    ensures 0 <= n / base < n && n == n / base * base + n % base
    ensures DigitsOf(n, base) == DigitsOf(n / base, base) + [n % base]
  {
    Smaller(n, base, n / base, n % base);
  }

  lemma Smaller(n: nat, base: nat, q: int, r: nat)
    requires base >= 2 && n > 0 && n == q * base + r && r < base
    ensures 0 <= q < n
  {
    MulGrows(q, base);
    MulMonotone(2, base, q);
  }

  lemma ValueOfAppend(s: seq<nat>, d: nat, base: nat)
    ensures ValueOf(s + [d], base) == ValueOf(s, base) * base + d
  {
    assert (s + [d])[..|s|] == s;
  }

  /** Leading zeros do not count. */
  lemma {:induction false} ValueOfZeros(n: nat, s: seq<nat>, base: nat)
    ensures ValueOf(Zeros(n) + s, base) == ValueOf(s, base)
  {
    if s != [] {
      assert (Zeros(n) + s)[..n + |s| - 1] == Zeros(n) + s[..|s| - 1];
      ValueOfZeros(n, s[..|s| - 1], base);
    } else if n > 0 {
      ValueOfZeros(n - 1, s, base);
      assert (Zeros(n) + s)[..n - 1] == Zeros(n - 1) + s;
    }
  }

  /** A numeral without leading zeros is the one its value is written with. */
  lemma {:induction false} DigitsOfValue(s: seq<nat>, base: nat)
    requires base >= 2 && Digits(s, base) && (s == [] || s[0] != 0)
    ensures DigitsOf(ValueOf(s, base), base) == s
  {
    if s != [] {
      var r, d := s[..|s| - 1], s[|s| - 1];
      DigitsOfValue(r, base);
      DivUnique(ValueOf(r, base) * base + d, base, ValueOf(r, base), d);
      if r == [] {
        assert ValueOf(s, base) == d;
      } else {
        MulGrows(ValueOf(r, base), base);
        assert ValueOf(r, base) > 0;
      }
      assert s == r + [d];
    }
  }

  /** Every numeral is its leading zeros and the digits of its value. */
  lemma NumeralParts(s: seq<nat>, base: nat)
    requires base >= 2 && Digits(s, base)
    ensures s == Zeros(LeadingZeros(s)) + DigitsOf(ValueOf(s, base), base)
  {
    var n := LeadingZeros(s);
    SplitZeros(s);
    ValueOfZeros(n, s[n..], base);
    DigitsOfValue(s[n..], base);
  }
}
