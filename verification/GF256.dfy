/** The field of 256 elements in which the Reed-Solomon code works: polynomials over GF(2) modulo
    x^8 + x^4 + x^3 + x^2 + 1 (0x11d). An element is a byte seen as its eight binary digits, the
    coefficients of the polynomial. */
module GF256 {
  import opened Bytes

  datatype Elem = Elem(b7: bool, b6: bool, b5: bool, b4: bool, b3: bool, b2: bool, b1: bool, b0: bool)

  const ZERO := Elem(false, false, false, false, false, false, false, false)
  const ONE := Elem(false, false, false, false, false, false, false, true)

  /** Addition and subtraction: exclusive or. */
  function Add(a: Elem, b: Elem): Elem {
    Elem(a.b7 != b.b7, a.b6 != b.b6, a.b5 != b.b5, a.b4 != b.b4, a.b3 != b.b3, a.b2 != b.b2, a.b1 != b.b1, a.b0 != b.b0)
  }

  /** Multiplication by x: a shift, and the reduction of x^8. */
  function X(a: Elem): Elem {
    Elem(a.b6, a.b5, a.b4, a.b3 != a.b7, a.b2 != a.b7, a.b1 != a.b7, a.b0, a.b7)
  }

  function When(b: bool, a: Elem): Elem {
    if b then a else ZERO
  }

  predicate HasTerm(b: Elem, k: nat)
    requires k < 8
  {
    match k
    case 0 => b.b0 case 1 => b.b1 case 2 => b.b2 case 3 => b.b3
    case 4 => b.b4 case 5 => b.b5 case 6 => b.b6 case 7 => b.b7
  }

  /** The product, by definition: the sum of a * x^k over the coefficients k of b that are set. */
  function Mul(a: Elem, b: Elem): Elem {
    Sum(a, b, 0)
  }

  /** The terms k to 7 of that sum, with a already multiplied by x^k. */
  function Sum(a: Elem, b: Elem, k: nat): Elem
    requires k <= 8
    decreases 8 - k
  {
    if k == 8 then ZERO else Add(When(HasTerm(b, k), a), Sum(X(a), b, k + 1))
  }

  // ----- Bytes as numbers

  /** One more binary digit, behind those of n. */
  function Push(b: bool, n: nat): nat {
    (if b then 1 else 0) + 2 * n
  }

  /** The byte as a number, as which it indexes the tables. */
  function Num(a: Elem): (n: Byte) {
    Push(a.b0, Push(a.b1, Push(a.b2, Push(a.b3, Push(a.b4, Push(a.b5, Push(a.b6, Push(a.b7, 0))))))))
  }

  function Of(n0: Byte): (a: Elem) {
    var n1 := n0 / 2; var n2 := n1 / 2; var n3 := n2 / 2; var n4 := n3 / 2; var n5 := n4 / 2; var n6 := n5 / 2;
    var n7 := n6 / 2;
    Elem(n7 == 1, n6 % 2 == 1, n5 % 2 == 1, n4 % 2 == 1, n3 % 2 == 1, n2 % 2 == 1, n1 % 2 == 1, n0 % 2 == 1)
  }

  lemma Pushed(b: bool, n: nat)
    ensures Push(b, n) / 2 == n && (Push(b, n) % 2 == 1 <==> b)
  {
  }

  lemma PushBack(n: nat)
    ensures Push(n % 2 == 1, n / 2) == n
  {
  }

  lemma NumOf(n0: Byte)
    ensures Num(Of(n0)) == n0
  {
    hide Push;
    var n1 := n0 / 2; var n2 := n1 / 2; var n3 := n2 / 2; var n4 := n3 / 2; var n5 := n4 / 2; var n6 := n5 / 2;
    var n7 := n6 / 2;
    assert n1 < 128; assert n2 < 64; assert n3 < 32; assert n4 < 16; assert n5 < 8; assert n6 < 4; assert n7 < 2;
    PushBack(n0); PushBack(n1); PushBack(n2); PushBack(n3); PushBack(n4); PushBack(n5); PushBack(n6); PushBack(n7);
  }

  /** Of takes the digits off in turn, the lowest first. */
  lemma OfHalves(n0: Byte, n1: nat, n2: nat, n3: nat, n4: nat, n5: nat, n6: nat, n7: nat)
    requires n0 / 2 == n1 && n1 / 2 == n2 && n2 / 2 == n3 && n3 / 2 == n4 && n4 / 2 == n5
    requires n5 / 2 == n6 && n6 / 2 == n7
    ensures Of(n0) == Elem(n7 == 1, n6 % 2 == 1, n5 % 2 == 1, n4 % 2 == 1,
                           n3 % 2 == 1, n2 % 2 == 1, n1 % 2 == 1, n0 % 2 == 1)
  {
  }

  lemma OfNum(a: Elem)
    ensures Of(Num(a)) == a
  {
    hide Push, Of;
    var n7 := Push(a.b7, 0); var n6 := Push(a.b6, n7); var n5 := Push(a.b5, n6); var n4 := Push(a.b4, n5);
    var n3 := Push(a.b3, n4); var n2 := Push(a.b2, n3); var n1 := Push(a.b1, n2);
    Pushed(a.b0, n1); Pushed(a.b1, n2); Pushed(a.b2, n3); Pushed(a.b3, n4);
    Pushed(a.b4, n5); Pushed(a.b5, n6); Pushed(a.b6, n7); Pushed(a.b7, 0);
    OfHalves(Num(a), n1, n2, n3, n4, n5, n6, n7);
  }

  lemma NumInjective(a: Elem, b: Elem)
    requires Num(a) == Num(b)
    ensures a == b
  {
    OfNum(a);
    OfNum(b);
  }

  /** Exclusive or of two bytes. */
  function Xor(a: Byte, b: Byte): Byte {
    Num(Add(Of(a), Of(b)))
  }

  // ----- The laws of a field

  lemma AddLaws(a: Elem, b: Elem, c: Elem)
    ensures Add(a, b) == Add(b, a)
    ensures Add(Add(a, b), c) == Add(a, Add(b, c))
    ensures Add(a, a) == ZERO && Add(a, ZERO) == a
    ensures Add(a, b) == ZERO ==> a == b
  {
    hide Add;
    AddAssociates(a, b, c);
    AddCommutes(a, b);
    AddInverse(a, b);
  }

  lemma AddAssociates(a: Elem, b: Elem, c: Elem)
    ensures Add(Add(a, b), c) == Add(a, Add(b, c))
  {
    var l, r := Add(Add(a, b), c), Add(a, Add(b, c));
    assert l.b7 == r.b7; assert l.b6 == r.b6; assert l.b5 == r.b5; assert l.b4 == r.b4;
    assert l.b3 == r.b3; assert l.b2 == r.b2; assert l.b1 == r.b1; assert l.b0 == r.b0;
  }

  lemma AddCommutes(a: Elem, b: Elem)
    ensures Add(a, b) == Add(b, a)
  {
  }

  lemma AddInverse(a: Elem, b: Elem)
    ensures Add(a, a) == ZERO && Add(a, ZERO) == a
    ensures Add(a, b) == ZERO ==> a == b
  {
    var z := Add(a, b);
    if z == ZERO {
      assert z.b7 == (a.b7 != b.b7) && z.b6 == (a.b6 != b.b6) && z.b5 == (a.b5 != b.b5) && z.b4 == (a.b4 != b.b4);
      assert z.b3 == (a.b3 != b.b3) && z.b2 == (a.b2 != b.b2) && z.b1 == (a.b1 != b.b1) && z.b0 == (a.b0 != b.b0);
    }
  }

  lemma AddRegroups(a: Elem, b: Elem, c: Elem, d: Elem)
    ensures Add(Add(a, b), Add(c, d)) == Add(Add(a, c), Add(b, d))
  {
  }

  lemma XLinear(a: Elem, b: Elem)
    ensures X(Add(a, b)) == Add(X(a), X(b))
    ensures X(a) == ZERO ==> a == ZERO
  {
  }

  lemma {:induction false} SumLinear(a: Elem, b: Elem, c: Elem, k: nat)
    requires k <= 8
    ensures Sum(Add(a, b), c, k) == Add(Sum(a, c, k), Sum(b, c, k))
    decreases 8 - k
  {
    hide X, Add, HasTerm;
    AddLaws(ZERO, ZERO, ZERO);
    if k < 8 {
      XLinear(a, b);
      SumLinear(X(a), X(b), c, k + 1);
      var s := HasTerm(c, k);
      AddRegroups(When(s, a), When(s, b), Sum(X(a), c, k + 1), Sum(X(b), c, k + 1));
    }
  }

  lemma XZero()
    ensures X(ZERO) == ZERO
  {
  }

  lemma {:induction false} SumX(a: Elem, b: Elem, k: nat)
    requires k <= 8
    ensures Sum(X(a), b, k) == X(Sum(a, b, k))
    decreases 8 - k
  {
    hide X, Add, HasTerm;
    XZero();
    if k < 8 {
      SumX(X(a), b, k + 1);
      XLinear(When(HasTerm(b, k), a), Sum(X(a), b, k + 1));
    }
  }

  lemma {:induction false} ZeroSum(b: Elem, k: nat)
    requires k <= 8
    ensures Sum(ZERO, b, k) == ZERO
    decreases 8 - k
  {
    if k < 8 {
      ZeroSum(b, k + 1);
    }
  }

  /** Products can be exchanged: (c * b) * a == (c * a) * b, for b cut off below x^k. */
  lemma {:induction false} SumExchanges(c: Elem, b: Elem, a: Elem, k: nat)
    requires k <= 8
    ensures Mul(Sum(c, b, k), a) == Sum(Mul(c, a), b, k)
    decreases 8 - k
  {
    hide X, Add, HasTerm;
    ZeroSum(a, 0);
    if k < 8 {
      SumExchanges(X(c), b, a, k + 1);
      SumX(c, a, 0);
      SumLinear(When(HasTerm(b, k), c), Sum(X(c), b, k + 1), a, 0);
    }
  }

  /** x^k. */
  function Unit(k: nat): Elem
    requires k < 8
  {
    Elem(k == 7, k == 6, k == 5, k == 4, k == 3, k == 2, k == 1, k == 0)
  }

  /** The coefficients of a from k on. */
  function Upper(a: Elem, k: nat): Elem
    requires k <= 8
  {
    Elem(k <= 7 && a.b7, k <= 6 && a.b6, k <= 5 && a.b5, k <= 4 && a.b4,
         k <= 3 && a.b3, k <= 2 && a.b2, k <= 1 && a.b1, k <= 0 && a.b0)
  }

  lemma UpperStep(a: Elem, k: nat)
    requires k < 8
    ensures Upper(a, k) == Add(When(HasTerm(a, k), Unit(k)), Upper(a, k + 1))
    ensures Upper(a, 8) == ZERO && Upper(a, 0) == a
  {
    hide Add, HasTerm, Unit;
    if k < 4 {
      UpperStepLow(a, k);
    } else {
      UpperStepHigh(a, k);
    }
  }

  lemma UpperStepLow(a: Elem, k: nat)
    requires k < 4
    ensures Upper(a, k) == Add(When(HasTerm(a, k), Unit(k)), Upper(a, k + 1))
  {
    if k < 2 { assert k == 0 || k == 1; } else { assert k == 2 || k == 3; }
  }

  lemma UpperStepHigh(a: Elem, k: nat)
    requires 4 <= k < 8
    ensures Upper(a, k) == Add(When(HasTerm(a, k), Unit(k)), Upper(a, k + 1))
  {
    if k < 6 { assert k == 4 || k == 5; } else { assert k == 6 || k == 7; }
  }

  lemma UnitNext(k: nat)
    requires k < 7
    ensures X(Unit(k)) == Unit(k + 1)
  {
  }

  lemma {:induction false} SumOfUnits(a: Elem, k: nat)
    requires k < 8
    ensures Sum(Unit(k), a, k) == Upper(a, k)
    decreases 8 - k
  {
    hide X, Add, Unit, Upper, HasTerm;
    UpperStep(a, k);
    if k < 7 {
      UnitNext(k);
      SumOfUnits(a, k + 1);
    }
  }

  lemma OneTimes(a: Elem)
    ensures Mul(ONE, a) == a
  {
    UpperStep(a, 0);
    SumOfUnits(a, 0);
  }

  lemma MulCommutes(a: Elem, b: Elem)
    ensures Mul(a, b) == Mul(b, a)
  {
    SumExchanges(ONE, b, a, 0);
    OneTimes(a);
    OneTimes(b);
  }

  lemma MulAssociates(a: Elem, b: Elem, c: Elem)
    ensures Mul(Mul(a, b), c) == Mul(a, Mul(b, c))
  {
    SumExchanges(b, a, c, 0);
    MulCommutes(a, b);
    MulCommutes(a, Mul(b, c));
  }

  lemma MulDistributes(a: Elem, b: Elem, c: Elem)
    ensures Mul(Add(a, b), c) == Add(Mul(a, c), Mul(b, c))
    ensures Mul(c, Add(a, b)) == Add(Mul(c, a), Mul(c, b))
  {
    hide Sum, Add;
    SumLinear(a, b, c, 0);
    MulCommutes(a, c);
    MulCommutes(b, c);
    MulCommutes(Add(a, b), c);
  }

  lemma MulZero(a: Elem)
    ensures Mul(ZERO, a) == ZERO && Mul(a, ZERO) == ZERO
  {
    ZeroSum(a, 0);
    MulCommutes(a, ZERO);
  }

  // ----- Powers of alpha = x

  function Alpha(i: nat): Elem {
    if i == 0 then ONE else X(Alpha(i - 1))
  }

  lemma {:induction false} AlphaAdd(i: nat, j: nat)
    ensures Mul(Alpha(i), Alpha(j)) == Alpha(i + j)
  {
    hide X, Sum;
    if i == 0 {
      OneTimes(Alpha(j));
    } else {
      AlphaAdd(i - 1, j);
      SumX(Alpha(i - 1), Alpha(j), 0);
    }
  }

  lemma {:induction false} AlphaNonzero(i: nat)
    ensures Alpha(i) != ZERO
  {
    if i > 0 {
      AlphaNonzero(i - 1);
      XLinear(Alpha(i - 1), ZERO);
    }
  }

  /** Squaring, which is linear. */
  function Square(a: Elem): Elem {
    Elem(a.b6, (a.b3 != a.b5) != a.b6, a.b5, ((a.b2 != a.b4) != a.b5) != a.b7, a.b4 != a.b6,
      ((a.b1 != a.b4) != a.b5) != a.b6, a.b7, ((a.b0 != a.b4) != a.b6) != a.b7)
  }

  lemma SquareLinear(a: Elem, b: Elem)
    ensures Square(Add(a, b)) == Add(Square(a), Square(b))
  {
  }

  lemma SquareOfSum(a: Elem, b: Elem)
    ensures Mul(Add(a, b), Add(a, b)) == Add(Mul(a, a), Mul(b, b))
  {
    hide Add, Mul;
    var ab := Mul(a, b);
    MulDistributes(a, b, Add(a, b));
    MulDistributes(a, b, a);
    MulDistributes(a, b, b);
    MulCommutes(a, b);
    AddLaws(Mul(a, a), ab, Add(ab, Mul(b, b)));
    AddLaws(ab, ab, Mul(b, b));
    AddLaws(ZERO, Mul(b, b), ZERO);
    AddLaws(Mul(b, b), ZERO, ZERO);
  }

  lemma {:induction false} UnitSquare(k: nat)
    requires k < 8
    ensures Mul(Unit(k), Unit(k)) == Square(Unit(k))
  {
    assert Alpha(0) == Unit(0) && Alpha(1) == Unit(1) && Alpha(2) == Unit(2) && Alpha(3) == Unit(3);
    assert Alpha(4) == Unit(4) && Alpha(5) == Unit(5) && Alpha(6) == Unit(6) && Alpha(7) == Unit(7);
    assert Alpha(8) == Square(Unit(4)) && Alpha(10) == Square(Unit(5)) && Alpha(12) == Square(Unit(6))
      && Alpha(14) == Square(Unit(7));
    AlphaAdd(k, k);
  }

  lemma {:induction false} SquareOfUpper(a: Elem, k: nat)
    requires k <= 8
    ensures Mul(Upper(a, k), Upper(a, k)) == Square(Upper(a, k))
    decreases 8 - k
  {
    hide Sum, X, Mul, Add, Unit, Upper, HasTerm, Square;
    MulZero(ZERO);
    SquareZero();
    UpperStep(a, 0);
    if k < 8 {
      SquareOfUpper(a, k + 1);
      UpperStep(a, k);
      var low, high := When(HasTerm(a, k), Unit(k)), Upper(a, k + 1);
      SquareOfSum(low, high);
      SquareLinear(low, high);
      UnitSquare(k);
    }
  }

  lemma SquareZero()
    ensures Square(ZERO) == ZERO
  {
  }

  lemma AlphaDouble(i: nat, a: Elem, c: Elem)
    requires Alpha(i) == a && Square(a) == c
    ensures Alpha(2 * i) == c
  {
    hide Sum, X, Square, Upper;
    UpperStep(a, 0);
    SquareOfUpper(a, 0);
    AlphaAdd(i, i);
  }

  lemma AlphaNext(i: nat, a: Elem, c: Elem)
    requires Alpha(i) == a && X(a) == c
    ensures Alpha(i + 1) == c
  {
  }

  // Powers of alpha whose exponents come from doubling and from adding one.

  const ALPHA_4 := Elem(false, false, false, true, false, false, false, false)
  const ALPHA_8 := Elem(false, false, false, true, true, true, false, true)
  const ALPHA_16 := Elem(false, true, false, false, true, true, false, false)
  const ALPHA_32 := Elem(true, false, false, true, true, true, false, true)
  const ALPHA_64 := Elem(false, true, false, true, true, true, true, true)
  const ALPHA_128 := Elem(true, false, false, false, false, true, false, true)

  lemma SmallPowers()
    ensures Alpha(1) == Unit(1) && Alpha(4) == ALPHA_4
  {
  }

  lemma Doublings()
    ensures Alpha(8) == ALPHA_8 && Alpha(16) == ALPHA_16 && Alpha(32) == ALPHA_32
    ensures Alpha(64) == ALPHA_64 && Alpha(128) == ALPHA_128 && Alpha(256) == Unit(1)
  {
    hide Alpha;
    SmallPowers();
    AlphaDouble(4, ALPHA_4, ALPHA_8);
    AlphaDouble(8, ALPHA_8, ALPHA_16);
    AlphaDouble(16, ALPHA_16, ALPHA_32);
    AlphaDouble(32, ALPHA_32, ALPHA_64);
    AlphaDouble(64, ALPHA_64, ALPHA_128);
    AlphaDouble(128, ALPHA_128, Unit(1));
  }

  lemma From8To13()
    ensures Alpha(13) == Elem(true, false, false, false, false, true, true, true)
  {
    hide Alpha;
    Doublings();
    AlphaNext(8, Elem(false, false, false, true, true, true, false, true),
      Elem(false, false, true, true, true, false, true, false));
    AlphaNext(9, Elem(false, false, true, true, true, false, true, false),
      Elem(false, true, true, true, false, true, false, false));
    AlphaNext(10, Elem(false, true, true, true, false, true, false, false),
      Elem(true, true, true, false, true, false, false, false));
    AlphaNext(11, Elem(true, true, true, false, true, false, false, false),
      Elem(true, true, false, false, true, true, false, true));
    AlphaNext(12, Elem(true, true, false, false, true, true, false, true),
      Elem(true, false, false, false, false, true, true, true));
  }

  lemma From32To43()
    ensures Alpha(43) == Elem(false, true, true, true, false, true, true, true)
  {
    hide Alpha;
    Doublings();
    AlphaNext(32, Elem(true, false, false, true, true, true, false, true),
      Elem(false, false, true, false, false, true, true, true));
    AlphaNext(33, Elem(false, false, true, false, false, true, true, true),
      Elem(false, true, false, false, true, true, true, false));
    AlphaNext(34, Elem(false, true, false, false, true, true, true, false),
      Elem(true, false, false, true, true, true, false, false));
    AlphaNext(35, Elem(true, false, false, true, true, true, false, false),
      Elem(false, false, true, false, false, true, false, true));
    AlphaNext(36, Elem(false, false, true, false, false, true, false, true),
      Elem(false, true, false, false, true, false, true, false));
    AlphaNext(37, Elem(false, true, false, false, true, false, true, false),
      Elem(true, false, false, true, false, true, false, false));
    AlphaNext(38, Elem(true, false, false, true, false, true, false, false),
      Elem(false, false, true, true, false, true, false, true));
    AlphaNext(39, Elem(false, false, true, true, false, true, false, true),
      Elem(false, true, true, false, true, false, true, false));
    AlphaNext(40, Elem(false, true, true, false, true, false, true, false),
      Elem(true, true, false, true, false, true, false, false));
    AlphaNext(41, Elem(true, true, false, true, false, true, false, false),
      Elem(true, false, true, true, false, true, false, true));
    AlphaNext(42, Elem(true, false, true, true, false, true, false, true),
      Elem(false, true, true, true, false, true, true, true));
  }

  /** The powers of alpha that decide its order. */
  lemma SomePowers()
    ensures Alpha(15) != ONE && Alpha(51) != ONE && Alpha(85) != ONE && Alpha(255) == ONE
  {
    hide Alpha, Mul, X;
    SmallPowers();
    Doublings();
    From8To13();
    From32To43();
    // alpha^255 == 1, for alpha^256 == alpha; and alpha^15 == 1 would make alpha^16 == alpha,
    // alpha^51 == 1 would make alpha^64 == alpha^13, and alpha^85 == 1 would make alpha^128 == alpha^43
    UnitAfter(255);
    AlphaAdd(15, 1);
    OneTimes(Alpha(1));
    AlphaAdd(51, 13);
    OneTimes(Alpha(13));
    AlphaAdd(85, 43);
    OneTimes(Alpha(43));
  }

  lemma UnitAfter(i: nat)
    requires Alpha(i + 1) == Unit(1)
    ensures Alpha(i) == ONE
  {
    var a := Alpha(i);
    assert X(a) == Unit(1);
  }
}
