/** The Reed-Solomon encoder of the QR library: tables, generator polynomial, and the shift register. */
module ReedSolomon {
  import opened Bytes
  import opened GF256
  import opened GF256Log
  import opened Polynomial

  const NN := 255

  // ----- Tables

  ghost predicate LogTables(alphaTo: seq<Byte>, indexOf: seq<Byte>) {
    && |alphaTo| == |indexOf| == 256
    && alphaTo[255] == 0 && indexOf[0] == 255
    && (forall i :: 0 <= i < 255 ==> alphaTo[i] == Num(Alpha(i)))
    && (forall i {:trigger Alpha(i)} :: 0 <= i < 255 ==> indexOf[Num(Alpha(i))] == i)
  }

  /** The two tables are inverse to each other, with 255 standing for the logarithm of zero. */
  lemma TablesInverse(alphaTo: seq<Byte>, indexOf: seq<Byte>, n: Byte)
    requires LogTables(alphaTo, indexOf)
    ensures alphaTo[indexOf[n]] == n && indexOf[alphaTo[n]] == n
    ensures n != 0 <==> indexOf[n] < 255
    ensures n != 0 ==> indexOf[n] == Log(Of(n))
  {
    hide Alpha, Num, Of;
    NumOf(n);
    NumZero(Of(n));
    if n != 0 {
      LogAlpha(Log(Of(n)));
    }
    if n < 255 {
      LogAlpha(n);
      NumZero(Alpha(n));
    }
  }

  /** Multiplication by adding logarithms. */
  lemma TableProduct(alphaTo: seq<Byte>, indexOf: seq<Byte>, a: Elem, b: Elem)
    requires LogTables(alphaTo, indexOf)
    requires a != ZERO && b != ZERO
    ensures alphaTo[(indexOf[Num(a)] as int + indexOf[Num(b)] as int) % 255] == Num(Mul(a, b))
  {
    hide Alpha, Num, Of, Mul;
    TableLog(alphaTo, indexOf, a);
    TableLog(alphaTo, indexOf, b);
    MulNonzero(a, b);
  }

  lemma TableLog(alphaTo: seq<Byte>, indexOf: seq<Byte>, a: Elem)
    requires LogTables(alphaTo, indexOf) && a != ZERO
    ensures indexOf[Num(a)] == Log(a) < 255
  {
    hide Alpha, Num;
    LogAlpha(Log(a));
  }

  /** One step of the shift register that fills the tables. */
  lemma ShiftIsX(a: Elem)
    ensures Num(X(a)) == if 2 * Num(a) < 256 then 2 * Num(a) else Xor(2 * Num(a) - 256, 0x1d)
  {
    hide Num, Of, Add;
    var low := Elem(a.b6, a.b5, a.b4, a.b3, a.b2, a.b1, a.b0, false);
    var poly := Elem(false, false, false, true, true, true, false, true);
    ShiftedNum(a, low);
    OfNum(low);
    PolyNum(poly);
    OfNum(poly);
    XShifts(a, low, poly);
  }

  lemma XShifts(a: Elem, low: Elem, poly: Elem)
    requires low == Elem(a.b6, a.b5, a.b4, a.b3, a.b2, a.b1, a.b0, false)
    requires poly == Elem(false, false, false, true, true, true, false, true)
    ensures X(a) == if a.b7 then Add(low, poly) else low
  {
  }

  lemma ShiftedNum(a: Elem, low: Elem)
    requires low == Elem(a.b6, a.b5, a.b4, a.b3, a.b2, a.b1, a.b0, false)
    ensures 2 * Num(a) == Num(low) + if a.b7 then 256 else 0
  {
    hide Push;
    var top := if a.b7 then 1 else 0;
    var e6 := Push(a.b6, 0); var e5 := Push(a.b5, e6); var e4 := Push(a.b4, e5);
    var e3 := Push(a.b3, e4); var e2 := Push(a.b2, e3); var e1 := Push(a.b1, e2);
    PushParts(a.b7, 0, 0); PushParts(a.b6, 0, top); PushParts(a.b5, e6, 2 * top); PushParts(a.b4, e5, 4 * top);
    PushParts(a.b3, e4, 8 * top); PushParts(a.b2, e3, 16 * top); PushParts(a.b1, e2, 32 * top);
    PushParts(a.b0, e1, 64 * top);
    PushParts(false, Push(a.b0, e1), 0);
  }

  lemma PushParts(b: bool, n: nat, more: nat)
    ensures Push(b, n + more) == Push(b, n) + 2 * more
    ensures Push(b, 0) == if b then 1 else 0
    ensures Push(false, n) == 2 * n
  {
  }

  lemma PolyNum(poly: Elem)
    requires poly == Elem(false, false, false, true, true, true, false, true)
    ensures Num(poly) == 0x1d
  {
  }

  class RS {
    const fcr: nat
    const prim: nat
    const nroots: nat
    const pad: nat
    const alphaTo: array<Byte>
    const indexOf: array<Byte>
    const genpoly: array<Byte>

    constructor (fcr: nat, prim: nat, nroots: nat, pad: nat)
      ensures this.fcr == fcr && this.prim == prim && this.nroots == nroots && this.pad == pad
      ensures fresh(alphaTo) && fresh(indexOf) && fresh(genpoly) && Shaped()
    {
      this.fcr, this.prim, this.nroots, this.pad := fcr, prim, nroots, pad;
      alphaTo := new Byte[256](_ => 0);
      indexOf := new Byte[256](_ => 0);
      genpoly := new Byte[nroots + 1](_ => 0);
    }

    predicate Shaped() {
      && alphaTo.Length == indexOf.Length == 256 && genpoly.Length == nroots + 1
      && alphaTo != indexOf && alphaTo != genpoly && indexOf != genpoly
    }

    /** The tables hold the field, and the generator's coefficients are stored as logarithms. */
    ghost predicate Valid()
      reads alphaTo, indexOf, genpoly
    {
      && Shaped() && LogTables(alphaTo[..], indexOf[..])
      && (forall j :: 0 <= j <= nroots ==> genpoly[j] == indexOf[Num(Generator(fcr, prim, nroots)[j])])
    }

    /** Reduces modulo 255 by adding the digits to base 256. */
    method Modnn(x0: nat) returns (x: nat)
      ensures x == x0 % NN
    {
      x := x0;
      while x >= NN
        invariant x % NN == x0 % NN
      {
        ghost var before := x;
        x := x - NN;
        x := x / 256 + x % 256;
        assert before == 255 * (1 + (before - 255) / 256) + x;
        DivUnique(before, 255, 1 + (before - 255) / 256 + x / 255, x % 255);
      }
    }

    static method InitRsChar(fcr: int, prim: int, nroots: int, pad: int) returns (rs: RS?)
      requires 0 < prim < 256 ==> prim % 3 != 0 && prim % 5 != 0 && prim % 17 != 0
      ensures rs == null <==> !(0 <= fcr < 256 && 0 < prim < 256 && 0 <= nroots < 256 && 0 <= pad < 255 - nroots)
      ensures rs != null ==>
        && fresh(rs) && rs.Valid()
        && rs.fcr == fcr && rs.prim == prim && rs.nroots == nroots && rs.pad == pad
    {
      if fcr < 0 || fcr >= 256 {
        return null;
      }
      if prim <= 0 || prim >= 256 {
        return null;
      }
      if nroots < 0 || nroots >= 256 {
        return null;
      }
      if pad < 0 || pad >= 255 - nroots {
        return null;
      }
      rs := new RS(fcr, prim, nroots, pad);
      var primitive := rs.FillTables();
      if !primitive {
        return null;
      }
      rs.FormGenerator();
    }

    /** Walks through the powers of alpha; the polynomial 0x11d is primitive, so the walk ends at 1. */
    method FillTables() returns (primitive: bool)
      requires Shaped()
      modifies alphaTo, indexOf
      ensures primitive && LogTables(alphaTo[..], indexOf[..])
    {
      hide Alpha, Num, X, Xor;
      indexOf[0] := NN;
      alphaTo[NN] := 0;
      var sr: Byte := 1;
      ZerothPower();
      for i := 0 to NN
        invariant sr == Num(Alpha(i))
        invariant indexOf[0] == 255 && alphaTo[255] == 0
        invariant forall k :: 0 <= k < i ==> alphaTo[k] == Num(Alpha(k))
        invariant forall k {:trigger Alpha(k)} :: 0 <= k < i ==> indexOf[Num(Alpha(k))] == k
      {
        forall k | 0 <= k < i ensures Num(Alpha(k)) != sr {
          if Num(Alpha(k)) == sr {
            NumInjective(Alpha(k), Alpha(i));
            AlphaInjective(k, i);
          }
        }
        AlphaNonzero(i);
        NumZero(Alpha(i));
        indexOf[sr] := i;
        alphaTo[i] := sr;
        NextShift(i);
        sr := if 2 * sr < 256 then 2 * sr else Xor(2 * sr - 256, 0x1d);
      }
      LastPower();
      primitive := sr == 1;
    }

    method FormGenerator()
      requires Shaped() && LogTables(alphaTo[..], indexOf[..])
      modifies genpoly
      ensures Valid()
    {
      hide Alpha, Num, Mul, Add, Generator;
      ghost var tables := (alphaTo[..], indexOf[..]);
      genpoly[0] := 1;
      GeneratorStart(fcr, prim);
      var root := fcr * prim;
      for i := 0 to nroots
        invariant root == (fcr + i) * prim
        invariant alphaTo[..] == tables.0 && indexOf[..] == tables.1
        invariant forall j :: 0 <= j <= i ==> genpoly[j] == Num(Generator(fcr, prim, i)[j])
      {
        MultiplyByRoot(i, root);
        root := root + prim;
      }
      for i := 0 to nroots + 1
        invariant alphaTo[..] == tables.0 && indexOf[..] == tables.1
        invariant forall j :: 0 <= j < i ==> genpoly[j] == indexOf[Num(Generator(fcr, prim, nroots)[j])]
        invariant forall j :: i <= j <= nroots ==> genpoly[j] == Num(Generator(fcr, prim, nroots)[j])
      {
        genpoly[i] := indexOf[genpoly[i]];
      }
    }

    /** In place, from the top coefficient down: genpoly := genpoly * (x + alpha^root). */
    method MultiplyByRoot(i: nat, root: nat)
      requires Shaped() && LogTables(alphaTo[..], indexOf[..])
      requires i < nroots && root == (fcr + i) * prim
      requires forall j :: 0 <= j <= i ==> genpoly[j] == Num(Generator(fcr, prim, i)[j])
      modifies genpoly
      ensures forall j :: 0 <= j <= i + 1 ==> genpoly[j] == Num(Generator(fcr, prim, i + 1)[j])
    {
      hide Alpha, Num, Of, Mul, Add, Generator, LogTables;
      ghost var tables := (alphaTo[..], indexOf[..]);
      ghost var g := Generator(fcr, prim, i);
      ghost var next := Generator(fcr, prim, i + 1);
      GeneratorMonic(fcr, prim, i + 1);
      NumOne();
      genpoly[i + 1] := 1;
      var j := i;
      while j > 0
        invariant 0 <= j <= i
        invariant alphaTo[..] == tables.0 && indexOf[..] == tables.1
        invariant forall k :: 0 <= k <= j ==> genpoly[k] == Num(g[k])
        invariant forall k :: j < k <= i + 1 ==> genpoly[k] == Num(next[k])
      {
        GeneratorStep(fcr, prim, i + 1, j);
        NumZero(g[j]);
        if genpoly[j] != 0 {
          var e := Modnn(indexOf[genpoly[j]] + root);
          LogProduct(tables.0, tables.1, g[j], root);
          OfNum(g[j - 1]);
          OfNum(Mul(Root(fcr, prim, i), g[j]));
          genpoly[j] := Xor(genpoly[j - 1], alphaTo[e]);
        } else {
          MulZero(Root(fcr, prim, i));
          AddLaws(g[j - 1], ZERO, ZERO);
          genpoly[j] := genpoly[j - 1];
        }
        j := j - 1;
      }
      ConstantNonzero(fcr, prim, i);
      GeneratorStep(fcr, prim, i + 1, 0);
      LogProduct(tables.0, tables.1, g[0], root);
      AddLaws(Mul(Root(fcr, prim, i), g[0]), ZERO, ZERO);
      AddLaws(ZERO, Mul(Root(fcr, prim, i), g[0]), ZERO);
      var e := Modnn(indexOf[genpoly[0]] + root);
      genpoly[0] := alphaTo[e];
    }

    /** Fills `parity` so that data and parity together form a codeword. */
    method EncodeRsChar(data: array<Byte>, parity: array<Byte>)
      requires Valid() && nroots > 0 && pad < 255 - nroots && DistinctRoots(prim, nroots)
      requires data.Length == NN - nroots - pad && parity.Length == nroots
      requires parity != data && parity != alphaTo && parity != indexOf && parity != genpoly
      modifies parity
      ensures IsCodeword(fcr, prim, nroots, data[..] + parity[..])
    {
      hide Alpha, Num, Of, Mul, Add, Generator, Eval;
      for j := 0 to nroots
        invariant forall k :: 0 <= k < j ==> parity[k] == 0
      {
        parity[j] := 0;
      }
      CodewordStart(fcr, prim, nroots, parity[..]);
      assert data[..0] + parity[..] == parity[..];
      for i := 0 to NN - nroots - pad
        invariant Valid()
        invariant IsCodeword(fcr, prim, nroots, data[..i] + parity[..])
      {
        ghost var before := parity[..];
        NextByte(data[i], parity);
        assert data[..i + 1] == data[..i] + [data[i]];
        CodewordNext(fcr, prim, nroots, data[..i], data[i], before, parity[..]);
      }
      assert data[..NN - nroots - pad] == data[..];
    }

    /** Shifts one data byte through the register. */
    method NextByte(d: Byte, parity: array<Byte>)
      requires Valid() && nroots > 0 && DistinctRoots(prim, nroots)
      requires parity.Length == nroots
      requires parity != alphaTo && parity != indexOf && parity != genpoly
      modifies parity
      ensures PolyOf(parity[..]) == NextRemainder(Generator(fcr, prim, nroots), old(PolyOf(parity[..])), Of(d))
    {
      hide Alpha, Num, Of, Mul, Add, Generator, LogTables, NextRemainder;
      ghost var before, fb := parity[..], Add(Of(d), Of(parity[0]));
      OfNum(fb);
      NumZero(fb);
      XorIsAdd(d, parity[0]);
      TablesInverse(alphaTo[..], indexOf[..], Xor(d, parity[0]));
      var feedback := indexOf[Xor(d, parity[0])];
      if feedback != NN {
        AddFeedback(feedback, fb, parity);
      }
      ghost var updated := parity[..];
      forall k | 0 <= k < nroots - 1 {
        parity[k] := parity[k + 1];
      }
      if feedback != NN {
        FeedbackTerm(alphaTo[..], indexOf[..], fb, 0);
        var e := Modnn(feedback as int + genpoly[0] as int);
        parity[nroots - 1] := alphaTo[e];
      } else {
        MulZero(Generator(fcr, prim, nroots)[0]);
        NumZero(ZERO);
        parity[nroots - 1] := 0;
      }
      RegisterShifted(Generator(fcr, prim, nroots), fb, d, before, updated, parity[..]);
    }

    /** Adds feedback * generator to the register, except at its first byte, which is shifted out. */
    method AddFeedback(feedback: Byte, ghost fb: Elem, parity: array<Byte>)
      requires Valid() && nroots > 0 && DistinctRoots(prim, nroots)
      requires fb != ZERO && feedback == indexOf[Num(fb)]
      requires parity.Length == nroots
      requires parity != alphaTo && parity != indexOf && parity != genpoly
      modifies parity
      ensures FedBack(Generator(fcr, prim, nroots), fb, old(parity[..]), parity[..])
    {
      hide Alpha, Num, Of, Mul, Add, Generator, LogTables;
      ghost var g := Generator(fcr, prim, nroots);
      ghost var before := parity[..];
      for j := 1 to nroots
        invariant Valid() && parity[0] == before[0]
        invariant forall k :: 1 <= k < j ==> Of(parity[k]) == Add(Of(before[k]), Mul(fb, g[nroots - k]))
        invariant forall k :: j <= k < nroots ==> parity[k] == before[k]
      {
        FeedbackTerm(alphaTo[..], indexOf[..], fb, nroots - j);
        var e := Modnn(feedback as int + genpoly[nroots - j] as int);
        OfNum(Mul(fb, g[nroots - j]));
        XorIsAdd(parity[j], alphaTo[e]);
        parity[j] := Xor(parity[j], alphaTo[e]);
      }
    }

    /** The product of the feedback and a coefficient is the antilogarithm of the sum that is looked up. */
    lemma FeedbackTerm(alphas: seq<Byte>, indices: seq<Byte>, fb: Elem, j: nat)
      requires Valid() && DistinctRoots(prim, nroots) && j <= nroots
      requires alphas == alphaTo[..] && indices == indexOf[..] && fb != ZERO
      ensures alphas[(indices[Num(fb)] as int + genpoly[j] as int) % 255]
        == Num(Mul(fb, Generator(fcr, prim, nroots)[j]))
    {
      hide Alpha, Num, Of, Mul, Add, Generator;
      CoefficientNonzero(fcr, prim, nroots, j);
      TableProduct(alphas, indices, fb, Generator(fcr, prim, nroots)[j]);
    }
  }

  // ----- What the encoder computes

  /** A block of bytes as a polynomial: the first byte is the highest coefficient. */
  function PolyOf(block: Bytes): (p: Poly)
    ensures |p| == |block|
  {
    seq(|block|, i requires 0 <= i < |block| => Of(block[|block| - 1 - i]))
  }

  /** The remainder register after one more data symbol: x * reg + feedback * generator, where the
      feedback is chosen so that the top coefficient is the data symbol alone. */
  function NextRemainder(g: Poly, reg: Poly, d: Elem): (r: Poly)
    requires |g| == |reg| + 1 && |reg| > 0
    ensures |r| == |reg|
  {
    var feedback := Add(d, reg[|reg| - 1]);
    seq(|reg|, j requires 0 <= j < |reg| => Add(if j == 0 then ZERO else reg[j - 1], Mul(feedback, g[j])))
  }

  /** x * reg + feedback * g == next + d * x^n. */
  lemma NextRemainderLaw(g: Poly, reg: Poly, d: Elem)
    requires |g| == |reg| + 1 && |reg| > 0 && g[|reg|] == ONE
    ensures var feedback := Add(d, reg[|reg| - 1]);
      AddPoly([ZERO] + reg, Scale(feedback, g)) == NextRemainder(g, reg, d) + [d]
  {
    hide Mul, Add;
    var n, top := |reg|, reg[|reg| - 1];
    var feedback := Add(d, top);
    MulCommutes(feedback, ONE);
    OneTimes(feedback);
    AddLaws(d, top, top);
    AddLaws(top, feedback, ZERO);
    AddLaws(d, ZERO, ZERO);
    AddLaws(top, top, top);
    assert Add(top, feedback) == d;
  }

  /** The codeword so far, as a polynomial: the data above the register. */
  lemma CodewordStep(g: Poly, reg: Poly, data: Bytes, d: Byte, b: Elem)
    requires |g| == |reg| + 1 && |reg| > 0 && g[|reg|] == ONE && Eval(g, b) == ZERO
    ensures Eval(NextRemainder(g, reg, Of(d)) + PolyOf(data + [d]), b) == Mul(b, Eval(reg + PolyOf(data), b))
  {
    hide Mul, Add, Eval, NextRemainder;
    var next, feedback := NextRemainder(g, reg, Of(d)), Add(Of(d), reg[|reg| - 1]);
    NextRemainderLaw(g, reg, Of(d));
    assert PolyOf(data + [d]) == [Of(d)] + PolyOf(data);
    assert next + ([Of(d)] + PolyOf(data)) == (next + [Of(d)]) + PolyOf(data);
    EvalConcat(next + [Of(d)], PolyOf(data), b);
    EvalAdd([ZERO] + reg, Scale(feedback, g), b);
    EvalShift(reg, b);
    EvalScale(feedback, g, b);
    MulZero(feedback);
    AddLaws(Mul(b, Eval(reg, b)), ZERO, ZERO);
    EvalConcat(reg, PolyOf(data), b);
    PowerNext(b, |reg|);
    var high := Mul(Power(b, |reg|), Eval(PolyOf(data), b));
    MulAssociates(b, Power(b, |reg|), Eval(PolyOf(data), b));
    MulDistributes(Eval(reg, b), high, b);
  }

  lemma PowerNext(b: Elem, n: nat)
    ensures Power(b, n + 1) == Mul(b, Power(b, n))
  {
  }

  /** These bytes form a codeword: a polynomial that vanishes at every root of the generator. */
  ghost predicate IsCodeword(fcr: nat, prim: nat, nroots: nat, block: Bytes) {
    forall i :: 0 <= i < nroots ==> Eval(PolyOf(block), Root(fcr, prim, i)) == ZERO
  }

  lemma XorIsAdd(a: Byte, b: Byte)
    ensures Of(Xor(a, b)) == Add(Of(a), Of(b)) && Xor(a, b) == Num(Add(Of(a), Of(b)))
  {
    hide Num, Of, Add;
    OfNum(Add(Of(a), Of(b)));
  }

  ghost predicate FedBack(g: Poly, fb: Elem, before: Bytes, after: Bytes) {
    && |g| == |before| + 1 && |after| == |before|
    && forall k :: 1 <= k < |before| ==> Of(after[k]) == Add(Of(before[k]), Mul(fb, g[|before| - k]))
  }

  /** The bytes of the register after the feedback and the shift are its next value. */
  lemma RegisterShifted(g: Poly, fb: Elem, d: Byte, before: Bytes, updated: Bytes, after: Bytes)
    requires |before| == |updated| == |after| > 0 && |g| == |before| + 1
    requires fb == Add(Of(d), Of(before[0]))
    requires if fb == ZERO then updated == before else FedBack(g, fb, before, updated)
    requires forall k :: 0 <= k < |after| - 1 ==> after[k] == updated[k + 1]
    requires after[|after| - 1] == Num(Mul(fb, g[0]))
    ensures PolyOf(after) == NextRemainder(g, PolyOf(before), Of(d))
  {
    hide Mul, Add, Of, Num;
    var n := |before|;
    OfNum(Mul(fb, g[0]));
    AddLaws(ZERO, Mul(fb, g[0]), ZERO);
    AddLaws(Mul(fb, g[0]), ZERO, ZERO);
    forall j | 0 <= j < n ensures PolyOf(after)[j] == NextRemainder(g, PolyOf(before), Of(d))[j] {
      if j > 0 {
        assert PolyOf(after)[j] == Of(updated[n - j]);
        MulZero(g[j]);
        AddLaws(Of(before[n - j]), ZERO, ZERO);
      }
    }
  }

  lemma CodewordNext(fcr: nat, prim: nat, nroots: nat, data: Bytes, d: Byte, before: Bytes, after: Bytes)
    requires |before| == |after| == nroots > 0
    requires IsCodeword(fcr, prim, nroots, data + before)
    requires PolyOf(after) == NextRemainder(Generator(fcr, prim, nroots), PolyOf(before), Of(d))
    ensures IsCodeword(fcr, prim, nroots, data + [d] + after)
  {
    hide Mul, Add, Eval, Of, NextRemainder, Generator, Root;
    var g := Generator(fcr, prim, nroots);
    GeneratorMonic(fcr, prim, nroots);
    assert PolyOf(data + before) == PolyOf(before) + PolyOf(data);
    assert PolyOf(data + [d] + after) == PolyOf(after) + PolyOf(data + [d]);
    forall i | 0 <= i < nroots ensures Eval(PolyOf(data + [d] + after), Root(fcr, prim, i)) == ZERO {
      var b := Root(fcr, prim, i);
      GeneratorVanishes(fcr, prim, nroots, i);
      CodewordStep(g, PolyOf(before), data, d, b);
      MulZero(b);
    }
  }

  lemma CodewordStart(fcr: nat, prim: nat, nroots: nat, zeros: Bytes)
    requires forall k :: 0 <= k < |zeros| ==> zeros[k] == 0
    ensures IsCodeword(fcr, prim, nroots, zeros)
  {
    forall i | 0 <= i < nroots ensures Eval(PolyOf(zeros), Root(fcr, prim, i)) == ZERO {
      OfZero();
      EvalZeros(PolyOf(zeros), Root(fcr, prim, i));
    }
  }

  lemma OfZero()
    ensures Of(0) == ZERO
  {
  }

  lemma {:induction false} EvalZeros(p: Poly, b: Elem)
    requires AllZero(p)
    ensures Eval(p, b) == ZERO
  {
    hide Mul;
    if p != [] {
      EvalZeros(p[1..], b);
      MulZero(b);
    }
  }

  /** There is only one parity that makes a codeword of the data. */
  lemma ParityUnique(fcr: nat, prim: nat, nroots: nat, data: Bytes, parity: Bytes, other: Bytes)
    requires DistinctRoots(prim, nroots) && |parity| == |other| == nroots
    requires IsCodeword(fcr, prim, nroots, data + parity) && IsCodeword(fcr, prim, nroots, data + other)
    ensures parity == other
  {
    hide Mul, Add, Eval, Of;
    var p, q, top := PolyOf(parity), PolyOf(other), PolyOf(data);
    assert PolyOf(data + parity) == p + top && PolyOf(data + other) == q + top;
    var rs := Roots(fcr, prim, nroots);
    var diff := AddPoly(p, q);
    forall i | 0 <= i < nroots ensures Eval(diff, rs[i]) == ZERO {
      var b := Root(fcr, prim, i);
      EvalConcat(p, top, b);
      EvalConcat(q, top, b);
      EvalAdd(p, q, b);
      var high := Mul(Power(b, nroots), Eval(top, b));
      SameSum(Eval(p, b), Eval(q, b), high);
    }
    RootsDistinct(fcr, prim, nroots);
    TooManyRoots(diff, rs);
    forall i | 0 <= i < nroots ensures parity[i] == other[i] {
      assert diff[nroots - 1 - i] == Add(Of(parity[i]), Of(other[i])) == ZERO;
      AddLaws(Of(parity[i]), Of(other[i]), ZERO);
      NumOf(parity[i]);
      NumOf(other[i]);
    }
  }

  lemma SameSum(x: Elem, y: Elem, high: Elem)
    requires Add(x, high) == ZERO && Add(y, high) == ZERO
    ensures Add(x, y) == ZERO
  {
  }

  lemma ZerothPower()
    ensures Num(Alpha(0)) == 1
  {
  }

  lemma NumOne()
    ensures Num(ONE) == 1
  {
  }

  lemma GeneratorStart(fcr: nat, prim: nat)
    ensures Num(Generator(fcr, prim, 0)[0]) == 1
  {
  }

  lemma LastPower()
    ensures Num(Alpha(NN)) == 1
  {
    hide Alpha;
    SomePowers();
  }

  lemma NextShift(i: nat)
    ensures var n := Num(Alpha(i));
      Num(Alpha(i + 1)) == if 2 * n < 256 then 2 * n else Xor(2 * n - 256, 0x1d)
  {
    hide Num, Xor, X;
    ShiftIsX(Alpha(i));
  }

  /** The constant coefficient is a product of powers of alpha. */
  lemma {:induction false} ConstantNonzero(fcr: nat, prim: nat, n: nat)
    ensures Generator(fcr, prim, n)[0] != ZERO
  {
    hide Alpha, Mul, Add;
    if n > 0 {
      ConstantNonzero(fcr, prim, n - 1);
      GeneratorStep(fcr, prim, n, 0);
      AlphaNonzero((fcr + n - 1) * prim);
      MulZeroIff(Root(fcr, prim, n - 1), Coefficient(fcr, prim, n - 1, 0));
      AddLaws(Mul(Root(fcr, prim, n - 1), Coefficient(fcr, prim, n - 1, 0)), ZERO, ZERO);
      AddLaws(ZERO, Mul(Root(fcr, prim, n - 1), Coefficient(fcr, prim, n - 1, 0)), ZERO);
    }
  }

  /** Multiplying by alpha^root in logarithmic form, where root need not be reduced. */
  lemma LogProduct(alphaTo: seq<Byte>, indexOf: seq<Byte>, a: Elem, root: nat)
    requires LogTables(alphaTo, indexOf) && a != ZERO
    ensures alphaTo[(indexOf[Num(a)] + root) % 255] == Num(Mul(Alpha(root), a))
  {
    hide Alpha, Num, Mul;
    TableLog(alphaTo, indexOf, a);
    AlphaMod(root + Log(a));
    AlphaAdd(root, Log(a));
  }
}
