/** The compact difficulty target of a block header: one byte of exponent, three of mantissa. */
module Target {
  import opened Bytes

  // ----- Numbers in bytes (BIGNUM is modelled as a natural number)

  /** How many bytes a number fills. */
  function NumBytes(t: nat): (n: nat)
    ensures t < Pow256(n)
    ensures n > 0 ==> Pow256(n - 1) <= t
  {
    if t == 0 then 0 else 1 + NumBytes(t / 256)
  }

  lemma {:induction false} Pow256Grows(m: nat, n: nat)
    requires m <= n
    ensures Pow256(m) <= Pow256(n)
  {
    if m < n {
      Pow256Grows(m, n - 1);
    }
  }

  lemma {:induction false} Pow256Adds(m: nat, n: nat)
    ensures Pow256(m + n) == Pow256(m) * Pow256(n)
  {
    if n > 0 {
      Pow256Adds(m, n - 1);
    }
  }

  lemma {:induction false} Pow256IsPow2(n: nat)
    ensures Pow256(n) == Pow2(8 * n)
  {
    if n > 0 {
      Pow256IsPow2(n - 1);
      Pow2Eight(8 * n - 8);
    }
  }

  /** A number fills n bytes just when it lies between these powers. */
  lemma NumBytesIs(t: nat, n: nat)
    requires t < Pow256(n) && (n > 0 ==> Pow256(n - 1) <= t)
    ensures NumBytes(t) == n
  {
    if NumBytes(t) < n {
      Pow256Grows(NumBytes(t), n - 1);
    } else if n < NumBytes(t) {
      Pow256Grows(n, NumBytes(t) - 1);
    }
  }

  lemma NumBytesMonotone(s: nat, t: nat)
    requires s <= t
    ensures NumBytes(s) <= NumBytes(t)
  {
    if s > 0 && NumBytes(t) <= NumBytes(s) - 1 {
      Pow256Grows(NumBytes(t), NumBytes(s) - 1);
    }
  }

  // ----- The format

  /** The bytes of a target written with a leading zero bit, so that the sign bit stays clear. */
  function Exponent(t: nat): nat {
    NumBytes(2 * t)
  }

  function Mantissa(t: nat): nat {
    if Exponent(t) <= 3 then t * Pow256(3 - Exponent(t)) else t / Pow256(Exponent(t) - 3)
  }

  /** The compact form: exponent and mantissa of a target that is small enough. */
  function Compact(t: nat): nat {
    Exponent(t) * 0x100_0000 + Mantissa(t)
  }

  /** The target a compact form stands for; the sign bit is ignored. */
  function TargetOf(bits: nat): nat {
    var e, m := bits / 0x100_0000, bits % 0x80_0000;
    if e <= 3 then ShiftedRight(m, 3 - e) else ShiftedLeft(m, e - 3)
  }

  /** A number without its last n bytes. */
  function ShiftedRight(m: nat, n: nat): nat {
    Quotient(m, Pow256(n))
  }

  function Quotient(m: nat, p: nat): (q: nat)
    requires p > 0
    ensures q == m / p
  {
    MulGrows(m / p, p);
    m / p
  }

  /** A number with n zero bytes appended. */
  function ShiftedLeft(m: nat, n: nat): nat {
    m * Pow256(n)
  }

  /** The bytes at the end of a target that the compact form drops. */
  function Dropped(t: nat): nat {
    if Exponent(t) <= 3 then 0 else Exponent(t) - 3
  }

  lemma MantissaFits(t: nat)
    ensures Mantissa(t) < 0x80_0000
    ensures t > 0 ==> Mantissa(t) >= 0x8000
  {
    hide NumBytes;
    var e := Exponent(t);
    assert Pow256(3) == 0x100_0000 && Pow256(2) == 0x1_0000;
    if e <= 3 {
      var p := Pow256(3 - e);
      Pow256Adds(3 - e, e);
      MulBelow(2 * t, Pow256(e), p);
      if e > 0 {
        Pow256Adds(3 - e, e - 1);
        MulMonotone(Pow256(e - 1), 2 * t, p);
      }
    } else {
      var p := Pow256(e - 3);
      Pow256Adds(e - 3, 3);
      Pow256Adds(e - 3, 2);
      DivBetween(t, p, 0x8000, 0x80_0000);
    }
  }

  lemma MulBelow(a: nat, b: nat, p: nat)
    requires a < b && p > 0
    ensures a * p < b * p
  {
  }

  lemma DivBetween(t: nat, p: nat, lo: nat, hi: nat)
    requires p > 0 && lo * p <= t < hi * p
    ensures lo <= t / p < hi
  {
    if t / p < lo {
      MulMonotone(t / p + 1, lo, p);
    }
    if t / p >= hi {
      MulMonotone(hi, t / p, p);
    }
  }

  /** Reading back a compact form gives the target with its last bytes cleared. */
  lemma TargetOfCompact(t: nat)
    ensures TargetOf(Compact(t)) == t - t % Pow256(Dropped(t))
  {
    hide NumBytes, Pow256, Mantissa, Exponent;
    MantissaFits(t);
    var e, m := Exponent(t), Mantissa(t);
    CompactParts(e, m);
    MantissaIs(t);
    if e <= 3 {
      DivUnique(m, Pow256(3 - e), t, 0);
      PowZero();
    }
  }

  lemma CompactParts(e: nat, m: nat)
    requires m < 0x80_0000
    ensures var c := e * 0x100_0000 + m;
      c / 0x100_0000 == e && c % 0x80_0000 == m
  {
    DivUnique(e * 0x100_0000 + m, 0x100_0000, e, m);
    DivUnique(e * 0x100_0000 + m, 0x80_0000, 2 * e, m);
  }

  lemma PowZero()
    ensures Pow256(0) == 1
  {
  }

  lemma MantissaIs(t: nat)
    ensures Exponent(t) <= 3 ==> Mantissa(t) == t * Pow256(3 - Exponent(t))
    ensures Exponent(t) > 3 ==> Mantissa(t) * Pow256(Exponent(t) - 3) == t - t % Pow256(Exponent(t) - 3)
  {
    hide Pow256;
  }

  /** Clearing the dropped bytes keeps the exponent. */
  lemma ClearedExponent(t: nat)
    ensures Exponent(t - t % Pow256(Dropped(t))) == Exponent(t)
    ensures Exponent(t) > 3 ==> Pow256(Exponent(t) - 1) <= 2 * (t - t % Pow256(Dropped(t)))
  {
    hide NumBytes;
    var e, s := Exponent(t), t - t % Pow256(Dropped(t));
    if e > 3 {
      var p := Pow256(e - 3);
      Pow256Adds(e - 3, 2);
      assert Pow256(2) == 0x1_0000;
      DivBetween(t, p, 0x8000, t / p + 1);
      MulMonotone(0x8000, t / p, p);
      assert s == t / p * p;
      NumBytesIs(2 * s, e);
    } else {
      assert s == t;
    }
  }

  /**
   * Encoding loses little: the target read back is at most the target encoded, and less than a
   * 32768th of it is missing.
   */
  lemma CompactLoss(t: nat)
    ensures TargetOf(Compact(t)) <= t
    ensures t > 0 ==> (t - TargetOf(Compact(t))) * 0x8000 < t
  {
    hide NumBytes;
    TargetOfCompact(t);
    if t > 0 {
      var p := Pow256(Dropped(t));
      if Exponent(t) > 3 {
        Pow256Adds(Exponent(t) - 3, 2);
        assert Pow256(2) == 0x1_0000;
      }
    }
  }

  /** What was read back is encoded without loss, to the same bits. */
  lemma CompactStable(t: nat)
    ensures Compact(TargetOf(Compact(t))) == Compact(t)
  {
    hide TargetOf, Exponent, Mantissa;
    TargetOfCompact(t);
    ClearedExponent(t);
    ClearedMantissa(t);
  }

  lemma ClearedMantissa(t: nat)
    requires Exponent(t - t % Pow256(Dropped(t))) == Exponent(t)
    ensures Mantissa(t - t % Pow256(Dropped(t))) == Mantissa(t)
  {
    hide Pow256, Exponent;
    if Exponent(t) > 3 {
      var p := Pow256(Exponent(t) - 3);
      DivUnique(t - t % p, p, t / p, 0);
    } else {
      PowZero();
    }
  }

  /** A larger target is never read back as a smaller one. */
  lemma CompactMonotone(s: nat, t: nat)
    requires s <= t
    ensures TargetOf(Compact(s)) <= TargetOf(Compact(t))
  {
    hide NumBytes, Pow256, TargetOf, Compact;
    TargetOfCompact(s);
    TargetOfCompact(t);
    NumBytesMonotone(2 * s, 2 * t);
    if Dropped(s) == Dropped(t) {
      FloorMonotone(s, t, Pow256(Dropped(s)));
    } else {
      ClearedExponent(t);
      Pow256Grows(Exponent(s), Exponent(t) - 1);
    }
  }

  lemma FloorMonotone(s: nat, t: nat, p: nat)
    requires s <= t && p > 0
    ensures s - s % p <= t - t % p
  {
    if s / p > t / p {
      MulMonotone(t / p + 1, s / p, p);
    }
    MulMonotone(s / p, t / p, p);
  }

  // ----- The header

  datatype TargetError = MantissaTooLarge | ExponentTooLarge

  function Work(target: nat): nat {
    if target == 0 then 0 else Quotient(Pow2(256), target + 1)
  }

  lemma DivAntitone(p: nat, a: nat, b: nat)
    requires 0 < a <= b
    ensures p / b <= p / a
  {
    var q := p / b;
    assert q * a <= q * b <= p by { MulMonotone(a, b, q); }
    if q > p / a {
      MulMonotone(p / a + 1, q, a);
    }
  }

  lemma QuotientZero(a: nat, p: nat)
    requires p > 0
    ensures a / p == 0 <==> a < p
  {
    if a < p {
      DivUnique(a, p, 0, a);
    }
  }

  /** How many of the 2^256 hashes there are, on average, for one that meets the target. */
  lemma WorkIsQuotient(t: nat)
    requires t > 0
    ensures Work(t) * (t + 1) <= Pow2(256) < (Work(t) + 1) * (t + 1)
  {
    hide Pow2;
    var p, w := Pow2(256), Work(t);
    assert p == w * (t + 1) + p % (t + 1);
    assert (w + 1) * (t + 1) == w * (t + 1) + (t + 1);
  }

  /**
   * A harder target is no less work. A target of zero, the hardest, counts as no work and is the one
   * exception; besides it only targets from 2^256 on count as none.
   */
  lemma WorkAntitoneIff(s: nat, t: nat)
    requires s <= t
    ensures Work(t) <= Work(s) <==> s > 0 || Work(t) == 0
    ensures Work(t) == 0 <==> t == 0 || t >= Pow2(256)
  {
    hide Pow2;
    var p := Pow2(256);
    if s > 0 {
      DivAntitone(p, s + 1, t + 1);
    }
    if t > 0 {
      QuotientZero(p, t + 1);
    }
  }

  /** Which targets do not fit: the exponent has one byte. */
  lemma ExponentLimit(t: nat)
    ensures Exponent(t) >= 256 <==> t >= Pow2(2039)
  {
    hide Pow2, Pow256, NumBytes;
    Pow256IsPow2(255);
    Pow2Next(2039);
    if Exponent(t) >= 256 {
      Pow256Grows(255, Exponent(t) - 1);
    } else {
      Pow256Grows(Exponent(t), 255);
    }
  }

  lemma Pow2Next(n: nat)
    ensures Pow2(n + 1) == 2 * Pow2(n)
  {
  }

  class CoinBlockHeader {
    var bits: nat

    /** The field has 32 bits. */
    predicate Valid()
      reads this
    {
      bits < 0x1_0000_0000
    }

    method GetTarget() returns (target: nat)
      requires Valid()
      ensures target == TargetOf(bits)
    {
      var nExp := bits / 0x100_0000;
      var nMantissa := bits % 0x80_0000;
      if nExp <= 3 {
        nMantissa := ShiftedRight(nMantissa, 3 - nExp);
        return nMantissa;
      } else {
        return ShiftedLeft(nMantissa, nExp - 3);
      }
    }

    /** Refuses just the targets whose exponent does not fit; a mantissa is never too large. */
    method SetTarget(target: nat) returns (outcome: Outcome<TargetError>)
      modifies this
      ensures outcome == if target >= Pow2(2039) then Thrown(ExponentTooLarge) else Done
      ensures outcome == Done ==> Valid() && bits == Compact(target)
      ensures outcome != Done ==> bits == old(bits)
    {
      hide Pow2, Pow256, NumBytes, Mantissa, Exponent, ShiftedLeft, ShiftedRight;
      ExponentLimit(target);
      MantissaFits(target);
      Normalized(target);
      var nExp := NumBytes(target);
      var nMantissa;
      if nExp <= 3 {
        nMantissa := ShiftedLeft(target, 3 - nExp) % 0x1_0000_0000;
      } else {
        nMantissa := ShiftedRight(target, nExp - 3) % 0x1_0000_0000;
      }
      if nMantissa / 0x100_0000 != 0 {
        return Thrown(MantissaTooLarge);
      }
      if nMantissa % 0x100_0000 >= 0x80_0000 {
        nMantissa := nMantissa / 256;
        nExp := nExp + 1;
      }
      if nExp / 256 != 0 {
        return Thrown(ExponentTooLarge);
      }
      bits := nExp * 0x100_0000 + nMantissa;
      return Done;
    }

    method GetWork() returns (work: nat)
      requires Valid()
      ensures work == Work(TargetOf(bits))
    {
      hide Pow2, TargetOf;
      var target := GetTarget();
      if target <= 0 {
        return 0;
      }
      var again := GetTarget();
      return Quotient(Pow2(256), again + 1);
    }
  }

  /** The mantissa as it is first cut out: three bytes, the highest bit of which may be set. */
  function Cut(t: nat): nat {
    if NumBytes(t) <= 3 then ShiftedLeft(t, 3 - NumBytes(t)) else ShiftedRight(t, NumBytes(t) - 3)
  }

  lemma Normalized(t: nat)
    ensures Cut(t) < 0x100_0000
    ensures Cut(t) < 0x80_0000 ==> Exponent(t) == NumBytes(t) && Mantissa(t) == Cut(t)
    ensures Cut(t) >= 0x80_0000 ==> Exponent(t) == NumBytes(t) + 1 && Mantissa(t) == Cut(t) / 256
  {
    hide NumBytes;
    var n := NumBytes(t);
    assert Pow256(3) == 0x100_0000;
    if n <= 3 {
      CutShort(t, n);
    } else {
      CutLong(t, n);
    }
  }

  lemma CutShort(t: nat, n: nat)
    requires n == NumBytes(t) && n <= 3
    ensures Cut(t) < 0x100_0000
    ensures Cut(t) < 0x80_0000 ==> Exponent(t) == n && Mantissa(t) == Cut(t)
    ensures Cut(t) >= 0x80_0000 ==> Exponent(t) == n + 1 && Mantissa(t) == Cut(t) / 256
  {
    hide NumBytes;
    assert Pow256(0) == 1 && Pow256(1) == 256 && Pow256(2) == 0x1_0000 && Pow256(3) == 0x100_0000
      && Pow256(4) == 0x1_0000_0000;
    if Cut(t) < 0x80_0000 {
      NumBytesIs(2 * t, n);
    } else {
      NumBytesIs(2 * t, n + 1);
    }
  }

  lemma CutLong(t: nat, n: nat)
    requires n == NumBytes(t) && n > 3
    ensures Cut(t) < 0x100_0000
    ensures Cut(t) < 0x80_0000 ==> Exponent(t) == n && Mantissa(t) == Cut(t)
    ensures Cut(t) >= 0x80_0000 ==> Exponent(t) == n + 1 && Mantissa(t) == Cut(t) / 256
  {
    hide NumBytes, Pow256, Exponent, Mantissa;
    var p, c := Pow256(n - 3), Cut(t);
    PowersAbove(n);
    DivCompare(t, p, 0x100_0000);
    DivCompare(t, p, 0x80_0000);
    assert c == t / p;
    if c < 0x80_0000 {
      NumBytesIs(2 * t, n);
    } else {
      NumBytesIs(2 * t, n + 1);
      DivTwice(t, p);
    }
    ExponentIs(t);
  }

  lemma DivCompare(t: nat, p: nat, k: nat)
    requires p > 0
    ensures t / p < k <==> t < k * p
  {
    if t < k * p {
      DivBetween(t, p, 0, k);
    } else {
      DivBetween(t, p, k, t + 1);
    }
  }

  lemma PowersAbove(n: nat)
    requires n > 3
    ensures Pow256(n) == 0x100_0000 * Pow256(n - 3)
    ensures Pow256(n - 2) == 256 * Pow256(n - 3)
    ensures Pow256(n - 1) == 0x1_0000 * Pow256(n - 3)
    ensures Pow256(n + 1) == 0x1_0000_0000 * Pow256(n - 3)
  {
    assert Pow256(n - 1) == 256 * Pow256(n - 2);
    assert Pow256(n + 1) == 256 * Pow256(n);
  }

  lemma ExponentIs(t: nat)
    ensures Exponent(t) == NumBytes(2 * t)
    ensures NumBytes(2 * t) > 3 ==> Mantissa(t) == t / Pow256(NumBytes(2 * t) - 3)
  {
    hide NumBytes, Pow256;
  }

  lemma DivTwice(t: nat, p: nat)
    requires p > 0
    ensures t / p / 256 == t / (256 * p)
  {
    var q, r := t / p, t % p;
    assert t == (q / 256) * (256 * p) + ((q % 256) * p + r);
    InGrid(p, 256, q % 256, r);
    DivUnique(t, 256 * p, q / 256, (q % 256) * p + r);
  }
}
