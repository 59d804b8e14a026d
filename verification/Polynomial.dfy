/** Polynomials over the field, the generator of the Reed-Solomon code, and its coefficients. */
module Polynomial {
  import opened Bytes
  import opened GF256
  import opened GF256Log

  /** Coefficients, the constant one first. */
  type Poly = seq<Elem>

  function Eval(p: Poly, b: Elem): Elem {
    if p == [] then ZERO else Add(p[0], Mul(b, Eval(p[1..], b)))
  }

  function Power(b: Elem, n: nat): Elem {
    if n == 0 then ONE else Mul(b, Power(b, n - 1))
  }

  function AddPoly(p: Poly, q: Poly): (r: Poly)
    requires |p| == |q|
    ensures |r| == |p|
  {
    seq(|p|, i requires 0 <= i < |p| => Add(p[i], q[i]))
  }

  function Scale(c: Elem, p: Poly): (r: Poly)
    ensures |r| == |p|
  {
    seq(|p|, i requires 0 <= i < |p| => Mul(c, p[i]))
  }

  lemma {:induction false} EvalAdd(p: Poly, q: Poly, b: Elem)
    requires |p| == |q|
    ensures Eval(AddPoly(p, q), b) == Add(Eval(p, b), Eval(q, b))
  {
    hide Add, Mul;
    AddLaws(ZERO, ZERO, ZERO);
    if p != [] {
      EvalAdd(p[1..], q[1..], b);
      assert AddPoly(p, q)[1..] == AddPoly(p[1..], q[1..]);
      MulDistributes(Eval(p[1..], b), Eval(q[1..], b), b);
      AddRegroups(p[0], q[0], Mul(b, Eval(p[1..], b)), Mul(b, Eval(q[1..], b)));
    }
  }

  lemma {:induction false} EvalScale(c: Elem, p: Poly, b: Elem)
    ensures Eval(Scale(c, p), b) == Mul(c, Eval(p, b))
  {
    hide Add, Mul;
    MulZero(c);
    if p != [] {
      EvalScale(c, p[1..], b);
      assert Scale(c, p)[1..] == Scale(c, p[1..]);
      MulDistributes(p[0], Mul(b, Eval(p[1..], b)), c);
      MulExchange(b, c, Eval(p[1..], b));
    }
  }

  lemma MulExchange(a: Elem, b: Elem, c: Elem)
    ensures Mul(a, Mul(b, c)) == Mul(b, Mul(a, c))
  {
    hide Mul;
    MulAssociates(a, b, c);
    MulCommutes(a, b);
    MulAssociates(b, a, c);
  }

  lemma {:induction false} EvalAppend(p: Poly, c: Elem, b: Elem)
    ensures Eval(p + [c], b) == Add(Eval(p, b), Mul(c, Power(b, |p|)))
  {
    hide Add, Mul;
    if p == [] {
      assert [c][1..] == [];
      MulZero(b);
      MulCommutes(c, ONE);
      OneTimes(c);
      AddLaws(c, ZERO, ZERO);
    } else {
      EvalAppend(p[1..], c, b);
      assert (p + [c])[1..] == p[1..] + [c];
      MulDistributes(Eval(p[1..], b), Mul(c, Power(b, |p| - 1)), b);
      MulExchange(b, c, Power(b, |p| - 1));
      AddLaws(p[0], Mul(b, Eval(p[1..], b)), Mul(c, Power(b, |p|)));
    }
  }

  lemma EvalShift(p: Poly, b: Elem)
    ensures Eval([ZERO] + p, b) == Mul(b, Eval(p, b))
  {
    hide Add, Mul;
    assert ([ZERO] + p)[1..] == p;
    AddLaws(ZERO, Mul(b, Eval(p, b)), ZERO);
    AddLaws(Mul(b, Eval(p, b)), ZERO, ZERO);
  }

  lemma EvalPadded(p: Poly, b: Elem)
    ensures Eval(p + [ZERO], b) == Eval(p, b)
  {
    hide Add, Mul;
    EvalAppend(p, ZERO, b);
    MulZero(Power(b, |p|));
    AddLaws(Eval(p, b), ZERO, ZERO);
  }

  // ----- The generator polynomial

  /** (x + r) * g. */
  function TimesRoot(g: Poly, r: Elem): (p: Poly)
    ensures |p| == |g| + 1
  {
    AddPoly([ZERO] + g, Scale(r, g) + [ZERO])
  }

  lemma EvalTimesRoot(g: Poly, r: Elem, b: Elem)
    ensures Eval(TimesRoot(g, r), b) == Mul(Add(b, r), Eval(g, b))
  {
    hide Add, Mul, Eval;
    EvalAdd([ZERO] + g, Scale(r, g) + [ZERO], b);
    EvalShift(g, b);
    EvalPadded(Scale(r, g), b);
    EvalScale(r, g, b);
    MulDistributes(b, r, Eval(g, b));
  }

  /** Root i of the code. */
  function Root(fcr: nat, prim: nat, i: nat): Elem {
    Alpha((fcr + i) * prim)
  }

  /** The product of the first n factors (x + root). */
  function Generator(fcr: nat, prim: nat, n: nat): (g: Poly)
    ensures |g| == n + 1
  {
    if n == 0 then [ONE] else TimesRoot(Generator(fcr, prim, n - 1), Root(fcr, prim, n - 1))
  }

  /** The generator vanishes at every root. */
  lemma {:induction false} GeneratorVanishes(fcr: nat, prim: nat, n: nat, i: nat)
    requires i < n
    ensures Eval(Generator(fcr, prim, n), Root(fcr, prim, i)) == ZERO
  {
    hide Add, Mul, Eval, TimesRoot;
    var g, r := Generator(fcr, prim, n - 1), Root(fcr, prim, n - 1);
    EvalTimesRoot(g, r, Root(fcr, prim, i));
    if i == n - 1 {
      AddLaws(r, r, r);
      MulZero(Eval(g, r));
    } else {
      GeneratorVanishes(fcr, prim, n - 1, i);
      MulZero(Add(Root(fcr, prim, i), r));
    }
  }

  /** The generator is monic. */
  lemma {:induction false} GeneratorMonic(fcr: nat, prim: nat, n: nat)
    ensures Generator(fcr, prim, n)[n] == ONE
  {
    if n > 0 {
      GeneratorMonic(fcr, prim, n - 1);
      GeneratorStep(fcr, prim, n, n);
      AddLaws(ONE, ZERO, ZERO);
      MulZero(Root(fcr, prim, n - 1));
    }
  }

  /** Coefficient k, which is zero outside the polynomial. */
  function Coefficient(fcr: nat, prim: nat, n: nat, k: int): Elem {
    if 0 <= k <= n then Generator(fcr, prim, n)[k] else ZERO
  }

  lemma GeneratorStep(fcr: nat, prim: nat, n: nat, k: nat)
    requires n > 0 && k <= n
    ensures Generator(fcr, prim, n)[k] ==
      Add(Coefficient(fcr, prim, n - 1, k - 1), Mul(Root(fcr, prim, n - 1), Coefficient(fcr, prim, n - 1, k)))
  {
    hide Add, Mul;
    MulZero(Root(fcr, prim, n - 1));
  }

  // ----- No coefficient of the generator is zero
  //
  // With q = alpha^prim, the coefficients are q-binomial numbers times powers of alpha. Multiplied out,
  // the absorption law of binomial numbers says (q^k + 1) * c(n, k) == (q^n + 1) * c(n - 1, k - 1).

  function Q(prim: nat, k: nat): Elem {
    Alpha(k * prim)
  }

  ghost predicate Absorbs(fcr: nat, prim: nat, n: nat, k: nat) {
    n > 0 ==>
      Mul(Add(Q(prim, k), ONE), Coefficient(fcr, prim, n, k)) ==
      Mul(Add(Q(prim, n), ONE), Coefficient(fcr, prim, n - 1, k - 1))
  }

  /** If c == u + r * v and (a + 1) * c == (d + 1) * u, then (d + a) * c == r * ((d + 1) * v). */
  lemma AbsorbOther(a: Elem, d: Elem, r: Elem, c: Elem, u: Elem, v: Elem)
    requires c == Add(u, Mul(r, v))
    requires Mul(Add(a, ONE), c) == Mul(Add(d, ONE), u)
    ensures Mul(Add(d, a), c) == Mul(r, Mul(Add(d, ONE), v))
  {
    hide Add, Mul;
    var ac, d1 := Mul(Add(a, ONE), c), Add(d, ONE);
    var rest := Mul(d1, Mul(r, v));
    MulDistributes(u, Mul(r, v), d1);
    assert Mul(d1, c) == Add(ac, rest);
    MulDistributes(d1, Add(a, ONE), c);
    AddLaws(Add(ac, rest), ac, ac);
    AddLaws(ac, rest, ac);
    AddLaws(rest, ac, ac);
    AddLaws(ac, ac, ac);
    AddLaws(rest, ZERO, ZERO);
    assert Mul(Add(d1, Add(a, ONE)), c) == rest;
    AddRegroups(d, ONE, a, ONE);
    AddLaws(ONE, ONE, ONE);
    AddLaws(Add(d, a), ZERO, ZERO);
    MulExchange(d1, r, v);
  }

  /** The induction step, on field elements: c is the next coefficient, c1 and c0 those above it. */
  lemma AbsorbStep(q: Elem, qk: Elem, qn: Elem, r: Elem, c1: Elem, c0: Elem, v: Elem)
    requires Mul(Add(Mul(q, qn), Mul(q, qk)), c1) == Mul(Mul(q, r), Mul(Add(qn, ONE), v))
    requires Mul(Add(Mul(q, qk), ONE), c0) == Mul(Add(qn, ONE), v)
    ensures Mul(Add(Mul(q, qk), ONE), Add(c1, Mul(Mul(q, r), c0))) == Mul(Add(Mul(q, qn), ONE), c1)
  {
    hide Add, Mul;
    var k1, n1, r1 := Mul(q, qk), Mul(q, qn), Mul(q, r);
    MulDistributes(c1, Mul(r1, c0), Add(k1, ONE));
    MulExchange(Add(k1, ONE), r1, c0);
    assert Mul(Add(k1, ONE), Mul(r1, c0)) == Mul(Add(n1, k1), c1);
    MulDistributes(Add(k1, ONE), Add(n1, k1), c1);
    AddLaws(Add(k1, ONE), n1, k1);
    AddLaws(k1, ONE, n1);
    AddLaws(Add(n1, k1), Add(k1, ONE), ONE);
    AddLaws(n1, k1, Add(k1, ONE));
    AddLaws(k1, k1, ONE);
    AddLaws(ONE, ZERO, ZERO);
    AddLaws(ZERO, ONE, ONE);
  }

  lemma ScaleEquation(q: Elem, d: Elem, a: Elem, c: Elem, r: Elem, w: Elem)
    requires Mul(Add(d, a), c) == Mul(r, w)
    ensures Mul(Add(Mul(q, d), Mul(q, a)), c) == Mul(Mul(q, r), w)
  {
    hide Add, Mul;
    MulDistributes(d, a, q);
    MulAssociates(q, Add(d, a), c);
    MulAssociates(q, r, w);
  }

  lemma QNext(prim: nat, k: nat)
    ensures Q(prim, k + 1) == Mul(Q(prim, 1), Q(prim, k)) && Q(prim, 0) == ONE
  {
    hide Mul;
    AlphaAdd(prim, k * prim);
    assert prim + k * prim == (k + 1) * prim;
  }

  lemma RootNext(fcr: nat, prim: nat, n: nat)
    ensures Root(fcr, prim, n + 1) == Mul(Q(prim, 1), Root(fcr, prim, n))
  {
    hide Mul;
    AlphaAdd(prim, (fcr + n) * prim);
    assert prim + (fcr + n) * prim == (fcr + n + 1) * prim;
  }

  lemma {:induction false} Absorption(fcr: nat, prim: nat, n: nat, k: nat)
    requires k <= n
    ensures Absorbs(fcr, prim, n, k)
  {
    hide Add, Mul, Alpha, Generator, Q, Root;
    QNext(prim, 0);
    AddLaws(ONE, ONE, ONE);
    if k == 0 {
      MulZero(Coefficient(fcr, prim, n, 0));
      MulZero(Add(Q(prim, n), ONE));
    } else if k == n {
      GeneratorMonic(fcr, prim, n);
      GeneratorMonic(fcr, prim, n - 1);
    } else {
      // m = n - 1 >= k > 0
      var m, j := n - 1, k - 1;
      var c1, c0, v := Coefficient(fcr, prim, m, j), Coefficient(fcr, prim, m, k), Coefficient(fcr, prim, m - 1, j);
      Absorption(fcr, prim, m, k);
      Absorption(fcr, prim, m, j);
      GeneratorStep(fcr, prim, m, j);
      GeneratorStep(fcr, prim, n, k);
      var r := Root(fcr, prim, m - 1);
      AbsorbOther(Q(prim, j), Q(prim, m), r, c1, Coefficient(fcr, prim, m - 1, j - 1), v);
      ScaleEquation(Q(prim, 1), Q(prim, m), Q(prim, j), c1, r, Mul(Add(Q(prim, m), ONE), v));
      QNext(prim, m);
      QNext(prim, j);
      RootNext(fcr, prim, m - 1);
      AbsorbStep(Q(prim, 1), Q(prim, j), Q(prim, m), r, c1, c0, v);
    }
  }

  /** The order of alpha^prim is large enough that the first n powers after the first are not one. */
  ghost predicate DistinctRoots(prim: nat, n: nat) {
    forall m {:trigger Q(prim, m)} :: 1 <= m <= n ==> Q(prim, m) != ONE
  }

  lemma {:induction false} CoefficientNonzero(fcr: nat, prim: nat, n: nat, k: nat)
    requires k <= n && DistinctRoots(prim, n)
    ensures Generator(fcr, prim, n)[k] != ZERO
  {
    hide Add, Mul, Alpha, Generator;
    if n == 0 {
      GeneratorMonic(fcr, prim, 0);
    } else if k == 0 {
      CoefficientNonzero(fcr, prim, n - 1, 0);
      GeneratorStep(fcr, prim, n, 0);
      AlphaNonzero((fcr + n - 1) * prim);
      MulZeroIff(Root(fcr, prim, n - 1), Coefficient(fcr, prim, n - 1, 0));
      AddLaws(ZERO, Mul(Root(fcr, prim, n - 1), Coefficient(fcr, prim, n - 1, 0)), ZERO);
    } else {
      CoefficientNonzero(fcr, prim, n - 1, k - 1);
      Absorption(fcr, prim, n, k);
      var d := Add(Q(prim, n), ONE);
      AddLaws(Q(prim, n), ONE, ONE);
      MulZeroIff(d, Coefficient(fcr, prim, n - 1, k - 1));
      MulZero(Add(Q(prim, k), ONE));
    }
  }

  /** With a prim that has no factor in common with 255, every generator of fewer than 255 roots will do. */
  lemma CoprimePrim(prim: nat, n: nat)
    requires prim % 3 != 0 && prim % 5 != 0 && prim % 17 != 0 && n < 255
    ensures DistinctRoots(prim, n)
  {
    forall m | 1 <= m <= n ensures Q(prim, m) != ONE {
      AlphaOrder(m * prim);
      if (m * prim) % 255 == 0 {
        CoprimeMultiple(m, prim, (m * prim) / 255);
      }
    }
  }

  lemma CoprimeMultiple(m: nat, prim: nat, t: nat)
    requires prim % 3 != 0 && prim % 5 != 0 && prim % 17 != 0
    requires m * prim == 255 * t
    ensures m % 255 == 0
  {
    Factors(m, prim, t);
    AllFactors(m);
  }

  lemma AllFactors(m: nat)
    requires m % 3 == 0 && m % 5 == 0 && m % 17 == 0
    ensures m % 255 == 0
  {
    Divides15(m);
    Divides255(m);
  }

  lemma Divides15(m: nat)
    requires m % 3 == 0 && m % 5 == 0
    ensures m % 15 == 0
  {
    var a, b := m / 3, m / 5;
    assert m == 3 * a == 5 * b;
    assert m == 15 * (2 * b - a);
  }

  lemma Factors(m: nat, prim: nat, t: nat)
    requires prim % 3 != 0 && prim % 5 != 0 && prim % 17 != 0
    requires m * prim == 255 * t
    ensures m % 3 == 0 && m % 5 == 0 && m % 17 == 0
  {
    FactorOf(m, prim, 3, 85, t);
    FactorOf(m, prim, 5, 51, t);
    FactorOf(m, prim, 17, 15, t);
  }

  lemma FactorOf(m: nat, prim: nat, p: nat, c: nat, t: nat)
    requires p == 3 || p == 5 || p == 17
    requires p * c == 255 && prim % p != 0 && m * prim == 255 * t
    ensures m % p == 0
  {
    var s := InverseMod(prim, p);
    assert p * (c * t) == (p * c) * t;
    FactorDivides(m, prim, s, p, c * t);
  }

  lemma FactorSplit(m: nat, prim: nat, s: nat, p: nat, u: nat, t: nat)
    requires m * prim == p * u && prim * s == p * t + 1
    ensures m == (u * s - m * t) * p
  {
    assert (m * prim) * s == m * (prim * s);
    assert (p * u) * s == (u * s) * p;
    assert m * (p * t + 1) == (m * t) * p + m;
    assert (u * s - m * t) * p == (u * s) * p - (m * t) * p;
  }

  lemma FactorDivides(m: nat, prim: nat, s: nat, p: nat, u: nat)
    requires p > 0 && m * prim == p * u && (prim * s) % p == 1
    ensures m % p == 0
  {
    var t := (prim * s) / p;
    FactorSplit(m, prim, s, p, u, t);
    DivUnique(m, p, u * s - m * t, 0);
  }

  // ----- Polynomials and their roots

  lemma {:induction false} EvalConcat(p: Poly, q: Poly, b: Elem)
    ensures Eval(p + q, b) == Add(Eval(p, b), Mul(Power(b, |p|), Eval(q, b)))
  {
    hide Add, Mul;
    if p == [] {
      assert p + q == q;
      OneTimes(Eval(q, b));
      AddLaws(Eval(q, b), ZERO, ZERO);
      AddLaws(ZERO, Eval(q, b), ZERO);
    } else {
      EvalConcat(p[1..], q, b);
      assert (p + q)[1..] == p[1..] + q;
      var high := Mul(Power(b, |p| - 1), Eval(q, b));
      MulDistributes(Eval(p[1..], b), high, b);
      MulAssociates(b, Power(b, |p| - 1), Eval(q, b));
      AddLaws(p[0], Mul(b, Eval(p[1..], b)), Mul(b, high));
    }
  }

  /** The quotient of p by x + r. */
  function Quotient(p: Poly, r: Elem): (q: Poly)
    ensures |q| == if p == [] then 0 else |p| - 1
  {
    if |p| <= 1 then [] else [Eval(p[1..], r)] + Quotient(p[1..], r)
  }

  /** Division with remainder: p == p(r) + (x + r) * quotient. */
  lemma {:induction false} QuotientLaw(p: Poly, r: Elem, b: Elem)
    ensures Eval(p, b) == Add(Eval(p, r), Mul(Add(b, r), Eval(Quotient(p, r), b)))
  {
    hide Add, Mul;
    MulZero(Add(b, r));
    MulZero(b);
    MulZero(r);
    AddLaws(Eval(p, r), ZERO, ZERO);
    if |p| == 1 {
      assert p[1..] == [];
    } else if |p| > 1 {
      var t := p[1..];
      var q := Quotient(t, r);
      QuotientLaw(t, r, b);
      assert Quotient(p, r)[1..] == q;
      QuotientStep(p[0], b, r, Eval(t, b), Eval(t, r), Eval(q, b));
    }
  }

  lemma QuotientStep(c: Elem, b: Elem, r: Elem, tb: Elem, tr: Elem, qb: Elem)
    requires tb == Add(tr, Mul(Add(b, r), qb))
    ensures Add(c, Mul(b, tb)) == Add(Add(c, Mul(r, tr)), Mul(Add(b, r), Add(tr, Mul(b, qb))))
  {
    hide Add, Mul;
    var w := Mul(Add(b, r), qb);
    MulDistributes(tr, w, b);
    MulExchange(b, Add(b, r), qb);
    MulDistributes(tr, Mul(b, qb), Add(b, r));
    MulDistributes(b, r, tr);
    var x, y, z := Mul(b, tr), Mul(r, tr), Mul(b, w);
    assert Mul(Add(b, r), Add(tr, Mul(b, qb))) == Add(Add(x, y), z);
    AddLaws(c, y, Add(Add(x, y), z));
    AddLaws(x, y, z);
    AddLaws(y, x, z);
    AddLaws(y, y, Add(x, z));
    AddLaws(Add(x, z), ZERO, ZERO);
    AddLaws(ZERO, Add(x, z), ZERO);
  }

  ghost predicate AllZero(p: Poly) {
    forall i :: 0 <= i < |p| ==> p[i] == ZERO
  }

  lemma {:induction false} ZeroQuotient(p: Poly, r: Elem)
    requires AllZero(Quotient(p, r)) && Eval(p, r) == ZERO
    ensures AllZero(p)
  {
    hide Mul;
    if p != [] {
      var t := p[1..];
      MulZero(r);
      if t != [] {
        assert Quotient(p, r)[0] == ZERO;
        forall i | 0 <= i < |Quotient(t, r)| ensures Quotient(t, r)[i] == ZERO {
          assert Quotient(p, r)[i + 1] == Quotient(t, r)[i];
        }
        ZeroQuotient(t, r);
      }
      AddLaws(p[0], ZERO, ZERO);
      assert forall i :: 1 <= i < |p| ==> p[i] == t[i - 1];
    }
  }

  /** A polynomial with as many distinct roots as coefficients is zero. */
  lemma {:induction false} TooManyRoots(p: Poly, rs: seq<Elem>)
    requires |rs| == |p| && Distinct(rs)
    requires forall i :: 0 <= i < |rs| ==> Eval(p, rs[i]) == ZERO
    ensures AllZero(p)
    decreases |p|
  {
    hide Add, Mul, Eval, Quotient;
    if p != [] {
      var r, q := rs[0], Quotient(p, rs[0]);
      forall i | 0 <= i < |rs[1..]| ensures Eval(q, rs[1..][i]) == ZERO {
        var b := rs[i + 1];
        QuotientLaw(p, r, b);
        AddLaws(ZERO, Mul(Add(b, r), Eval(q, b)), ZERO);
        AddLaws(Mul(Add(b, r), Eval(q, b)), ZERO, ZERO);
        AddLaws(b, r, ZERO);
        MulZeroIff(Add(b, r), Eval(q, b));
      }
      TooManyRoots(q, rs[1..]);
      ZeroQuotient(p, r);
    }
  }

  function Roots(fcr: nat, prim: nat, n: nat): (rs: seq<Elem>)
    ensures |rs| == n
  {
    seq(n, i requires 0 <= i < n => Root(fcr, prim, i))
  }

  lemma EqualPowers(a: nat, d: nat)
    requires Alpha(a) == Alpha(a + d)
    ensures Alpha(d) == ONE
  {
    hide Alpha, Mul;
    AlphaAdd(a * 254, a);
    AlphaAdd(a * 254, a + d);
    AlphaOrder(a * 254 + a);
    AlphaOrder(a * 254 + (a + d));
    AlphaOrder(d);
    DivUnique(a * 255 + d, 255, a + d / 255, d % 255);
  }

  lemma RootsDistinct(fcr: nat, prim: nat, n: nat)
    requires DistinctRoots(prim, n)
    ensures Distinct(Roots(fcr, prim, n))
  {
    hide Alpha, Mul;
    forall i, j | 0 <= i < j < n ensures Root(fcr, prim, i) != Root(fcr, prim, j) {
      var a, d := (fcr + i) * prim, (j - i) * prim;
      assert (fcr + j) * prim == a + d;
      assert Q(prim, j - i) != ONE;
      if Alpha(a) == Alpha(a + d) {
        EqualPowers(a, d);
      }
    }
  }
}
