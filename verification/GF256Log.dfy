/** alpha generates the field: its powers below 255 are all the nonzero elements, each once. */
module GF256Log {
  import opened Bytes
  import opened GF256

  lemma {:induction false} PowerOfOne(k: nat, m: nat)
    requires Alpha(k) == ONE
    ensures Alpha(m * k) == ONE
  {
    if m > 0 {
      PowerOfOne(k, m - 1);
      AlphaAdd((m - 1) * k, k);
      OneTimes(ONE);
      assert (m - 1) * k + k == m * k;
    }
  }

  lemma AlphaPeriod(k: nat, m: nat)
    ensures Alpha(k + 255 * m) == Alpha(k)
  {
    hide Alpha, Mul;
    SomePowers();
    PowerOfOne(255, m);
    AlphaAdd(k, 255 * m);
    MulCommutes(Alpha(k), ONE);
    OneTimes(Alpha(k));
  }

  lemma AlphaMod(k: nat)
    ensures Alpha(k) == Alpha(k % 255)
  {
    AlphaPeriod(k % 255, k / 255);
  }

  /** An element whose power g is not 1 but whose power g * p is, for a prime p: only multiples of p. */
  lemma PrimeOrder(g: nat, p: nat, k: nat, s: nat)
    requires p > 0 && g * p == 255 && Alpha(g) != ONE
    requires (k * s) % p == 1
    ensures Alpha(k) != ONE
  {
    hide Alpha;
    if Alpha(k) == ONE {
      PowerOfOne(k, g * s);
      var t := (k * s) / p;
      ExponentSplit(g, p, k, s, t);
      AlphaPeriod(g, t);
    }
  }

  lemma ExponentSplit(g: nat, p: nat, k: nat, s: nat, t: nat)
    requires g * p == 255 && k * s == p * t + 1
    ensures g * s * k == g + 255 * t
  {
    assert g * s * k == g * (k * s);
    assert g * (p * t + 1) == (g * p) * t + g;
  }

  lemma InverseMod(k: nat, p: nat) returns (s: nat)
    requires p == 3 || p == 5 || p == 17
    requires k % p != 0
    ensures (k * s) % p == 1
  {
    var r, q := k % p, k / p;
    s := InverseBelow(r, p);
    var t := (r * s) / p;
    ProductSplit(k, p, q, r, s, t);
    DivUnique(k * s, p, q * s + t, 1);
  }

  lemma ProductSplit(k: nat, p: nat, q: nat, r: nat, s: nat, t: nat)
    requires k == p * q + r && r * s == p * t + 1
    ensures k * s == (q * s + t) * p + 1
  {
    assert k * s == (p * q) * s + r * s;
    assert (p * q) * s == (q * s) * p;
    assert (q * s + t) * p == (q * s) * p + t * p;
  }

  lemma InverseBelow(r: nat, p: nat) returns (s: nat)
    requires p == 3 || p == 5 || p == 17
    requires 0 < r < p
    ensures (r * s) % p == 1
  {
    if p == 3 {
      s := r;
    } else if p == 5 {
      s := if r == 2 then 3 else if r == 3 then 2 else r;
    } else {
      s := if r == 1 || r == 16 then r
           else if r == 2 then 9 else if r == 9 then 2 else if r == 3 then 6 else if r == 6 then 3
           else if r == 4 then 13 else if r == 13 then 4 else if r == 5 then 7 else if r == 7 then 5
           else if r == 8 then 15 else if r == 15 then 8 else if r == 10 then 12 else if r == 12 then 10
           else if r == 11 then 14 else 11;
    }
  }

  /** The order of alpha is 255. */
  lemma AlphaOrder(k: nat)
    ensures Alpha(k) == ONE <==> k % 255 == 0
  {
    hide Alpha;
    SomePowers();
    AlphaMod(k);
    SmallestPower();
    if Alpha(k) == ONE {
      if k % 3 != 0 { var s := InverseMod(k, 3); PrimeOrder(85, 3, k, s); }
      if k % 5 != 0 { var s := InverseMod(k, 5); PrimeOrder(51, 5, k, s); }
      if k % 17 != 0 { var s := InverseMod(k, 17); PrimeOrder(15, 17, k, s); }
      assert k % 15 == 0;
      Divides255(k);
    }
  }

  lemma SmallestPower()
    ensures Alpha(0) == ONE
  {
  }

  lemma Divides255(k: nat)
    requires k % 15 == 0 && k % 17 == 0
    ensures k % 255 == 0
  {
    var a, b := k / 15, k / 17;
    assert k == 15 * a == 17 * b;
    assert k == 255 * (8 * b - 7 * a);
  }

  lemma AlphaDistinct(i: nat, j: nat)
    requires i < j < 255
    ensures Alpha(i) != Alpha(j)
  {
    hide Alpha, Mul;
    AlphaAdd(255 - i, i);
    AlphaAdd(255 - i, j);
    AlphaOrder(255 - i + i);
    AlphaOrder(255 - i + j);
  }

  lemma AlphaInjective(i: nat, j: nat)
    requires i < 255 && j < 255 && Alpha(i) == Alpha(j)
    ensures i == j
  {
    if i < j {
      AlphaDistinct(i, j);
    } else if j < i {
      AlphaDistinct(j, i);
    }
  }

  // ----- Logarithms

  function UpTo(n: nat): (s: set<nat>)
    ensures forall x :: x in s <==> 1 <= x <= n
    ensures |s| == n
  {
    if n == 0 then {} else UpTo(n - 1) + {n}
  }

  ghost function PowersBelow(n: nat): set<nat> {
    set i: nat | i < n :: Num(Alpha(i))
  }

  lemma NumZero(a: Elem)
    ensures Num(a) == 0 <==> a == ZERO
  {
    NumInjective(ZERO, ZERO);
    if Num(a) == 0 {
      NumInjective(a, ZERO);
    }
  }

  lemma {:induction false} PowersBelowSize(n: nat)
    requires n <= 255
    ensures |PowersBelow(n)| == n
    ensures forall x :: x in PowersBelow(n) ==> 1 <= x <= 255
  {
    hide Alpha, Num;
    if n > 0 {
      PowersBelowSize(n - 1);
      assert PowersBelow(n) == PowersBelow(n - 1) + {Num(Alpha(n - 1))};
      AlphaNonzero(n - 1);
      NumZero(Alpha(n - 1));
      forall i: nat | i < n - 1 ensures Num(Alpha(i)) != Num(Alpha(n - 1)) {
        if Num(Alpha(i)) == Num(Alpha(n - 1)) {
          NumInjective(Alpha(i), Alpha(n - 1));
          AlphaInjective(i, n - 1);
        }
      }
    }
  }

  /** Every nonzero element is a power of alpha. */
  lemma AlphaOnto(a: Elem)
    requires a != ZERO
    ensures exists i: nat :: i < 255 && Alpha(i) == a
  {
    hide Alpha, Num;
    var all := UpTo(255);
    PowersBelowSize(255);
    SubsetOfSameSize(PowersBelow(255), all);
    NumZero(a);
    assert Num(a) in PowersBelow(255);
    var i: nat :| i < 255 && Num(Alpha(i)) == Num(a);
    NumInjective(Alpha(i), a);
  }

  lemma SubsetOfSameSize(s: set<nat>, t: set<nat>)
    requires s <= t && |s| == |t|
    ensures s == t
  {
    var d := t - s;
    if d == {} {
      assert s == t;
    } else {
      var x :| x in d;
      SubsetSize(s, t - {x});
    }
  }

  lemma SubsetSize(s: set<nat>, t: set<nat>)
    requires s <= t
    ensures |s| <= |t|
  {
    if x :| x in s {
      SubsetSize(s - {x}, t - {x});
    }
  }

  /** The discrete logarithm. */
  ghost function Log(a: Elem): (i: nat)
    requires a != ZERO
    ensures i < 255 && Alpha(i) == a
  {
    AlphaOnto(a);
    var i: nat :| i < 255 && Alpha(i) == a;
    i
  }

  lemma LogAlpha(i: nat)
    requires i < 255
    ensures Alpha(i) != ZERO && Log(Alpha(i)) == i
  {
    AlphaNonzero(i);
    AlphaInjective(Log(Alpha(i)), i);
  }

  lemma MulNonzero(a: Elem, b: Elem)
    requires a != ZERO && b != ZERO
    ensures Mul(a, b) != ZERO
    ensures Mul(a, b) == Alpha((Log(a) + Log(b)) % 255)
  {
    hide Alpha, Mul;
    AlphaAdd(Log(a), Log(b));
    AlphaNonzero(Log(a) + Log(b));
    AlphaMod(Log(a) + Log(b));
  }

  lemma MulZeroIff(a: Elem, b: Elem)
    ensures Mul(a, b) == ZERO <==> a == ZERO || b == ZERO
  {
    hide Mul;
    MulZero(a);
    MulZero(b);
    if a != ZERO && b != ZERO {
      MulNonzero(a, b);
    }
  }
}
