/** Parser, validator and printer of amounts agree with each other. */
module AmountText {
  import opened Bytes
  import opened Amounts

  // ----- Parser and validator

  predicate NoRedundantZero(w: string) {
    |w| <= 1 || w[0] != '0'
  }

  lemma {:induction false} ZerosVal(s: string)
    requires AllDigits(s)
    ensures AllZeros(s) <==> Val(s) == 0
  {
    if s != "" {
      var n := |s| - 1;
      ZerosVal(s[..n]);
      assert s == s[..n] + [s[n]];
      ZerosNext(s[..n], s[n]);
    }
  }

  lemma FirstDigit(w: string, k: nat)
    requires AllDigits(w) && 1 <= k <= |w| && w[0] != '0'
    ensures Val(w[..k]) > 0
  {
    ValPrefix(w[..k], 1);
    assert w[..k][..1] == [w[0]];
    assert [w[0]][..0] == "";
  }

  lemma WholeValidIff(w: string, maxAmount: Word)
    requires 10 * maxAmount + 9 < WORD && AllDigits(w)
    ensures WholeValid(w, maxAmount) <==> Val(w) <= maxAmount && NoRedundantZero(w)
  {
    hide WholeValid, Val;
    if WholeValid(w, maxAmount) {
      ValidWholeFits(w, maxAmount);
    }
    if Val(w) <= maxAmount && NoRedundantZero(w) {
      SmallWholeValid(w, maxAmount);
    }
  }

  lemma SmallWholeValid(w: string, maxAmount: Word)
    requires AllDigits(w) && Val(w) <= maxAmount && NoRedundantZero(w)
    ensures WholeValid(w, maxAmount)
  {
    hide Val;
    forall k | 1 <= k <= |w| ensures Val(w[..k]) % WORD <= maxAmount {
      SmallPrefix(w, k, maxAmount);
    }
    forall k | 1 <= k < |w| ensures Val(w[..k]) % WORD > 0 {
      SmallPrefix(w, k, maxAmount);
      FirstDigit(w, k);
    }
  }

  lemma SmallPrefix(w: string, k: nat, maxAmount: Word)
    requires Val(w) <= maxAmount && k <= |w|
    ensures Val(w[..k]) % WORD == Val(w[..k]) <= maxAmount
  {
    ValPrefix(w, k);
  }

  lemma ValidWholeFits(w: string, maxAmount: Word)
    requires 10 * maxAmount + 9 < WORD && AllDigits(w) && WholeValid(w, maxAmount)
    ensures Val(w) <= maxAmount && NoRedundantZero(w)
  {
    hide Val;
    ValOfEmpty();
    assert w[..|w|] == w;
    forall k | 0 <= k < |w| ensures Val(w[..k]) % WORD <= maxAmount {
      assert w[..0] == "";
    }
    WholeExact(w, maxAmount);
    ZeroThenDigit(w, maxAmount);
  }

  lemma ZeroThenDigit(w: string, maxAmount: Word)
    ensures |w| > 1 && w[0] == '0' ==> !WholeValid(w, maxAmount)
  {
    if |w| > 1 && w[0] == '0' {
      ValOfEmpty();
      assert w[..1] == "0";
    }
  }

  lemma ValOfEmpty()
    ensures Val("") == 0 && Val("0") == 0
  {
    assert "0"[..0] == "";
  }

  /** The validator accepts just the amounts in range that are written without a redundant leading zero. */
  lemma ValidIff(p: Parts, maxAmount: Word, maxDecimals: nat)
    requires 10 * maxAmount + 9 < WORD
    ensures Valid(p, maxAmount, maxDecimals) <==> InRange(p, maxAmount, maxDecimals) && NoRedundantZero(p.whole)
  {
    hide Val, Pow10, Total, WholeValid;
    if AllDigits(p.whole) && AllDigits(p.fraction) && |p.fraction| <= maxDecimals {
      WholeValidIff(p.whole, maxAmount);
      InRangeIs(p, maxAmount, maxDecimals);
      ZerosVal(p.fraction);
    }
  }

  /** What the validator accepts, the parser reads exactly, and it is not over the maximum. */
  lemma ValidIsParsed(s: string, maxAmount: Word, maxDecimals: nat)
    requires Fitting(maxAmount, maxDecimals)
    requires Valid(Split(s), maxAmount, maxDecimals)
    ensures 0 < Pow10(maxDecimals) < WORD
    ensures var total := Total(Split(s), Pow10(maxDecimals), maxDecimals);
      && Parsed(s, maxAmount, Pow10(maxDecimals), maxDecimals) == Some(total)
      && total <= maxAmount * Pow10(maxDecimals)
  {
    hide Val, Pow10, Total, Valid, Split, Parsed;
    ValidIff(Split(s), maxAmount, maxDecimals);
    ParsedIff(s, maxAmount, maxDecimals);
  }

  /** With room for one more digit the two differ on redundant zeros only. */
  lemma ParserAndValidatorAgree(s: string, maxAmount: Word, maxDecimals: nat)
    requires (10 * maxAmount + 10) * Pow10(maxDecimals) < WORD
    ensures 0 < Pow10(maxDecimals) < WORD
    ensures Valid(Split(s), maxAmount, maxDecimals)
       <==> Parsed(s, maxAmount, Pow10(maxDecimals), maxDecimals) != None && NoRedundantZero(Split(s).whole)
  {
    hide Val, Pow10, Total, Valid, Split, Parsed;
    ParsedExactly(s, maxAmount, maxDecimals);
    ValidIff(Split(s), maxAmount, maxDecimals);
  }

  /**
   * Without that room the parser can take an amount that is too large: with 18 decimals and a
   * maximum of 17, the amount 19 wraps around and is read as less than one.
   */
  lemma ParserMayWrap()
    ensures Fitting(17, 18) && Pow10(18) == 1_000_000_000_000_000_000
    ensures !InRange(Split("19"), 17, 18)
    ensures Parsed("19", 17, 1_000_000_000_000_000_000, 18) == Some(553_255_926_290_448_384)
  {
    hide Val, Split, Pow10, AllDigits, WholeFits;
    TenToThe18();
    Nineteen();
  }

  lemma Nineteen()
    ensures Split("19") == Parts("19", false, "")
    ensures Val("19") == 19 && Val("") == 0 && AllDigits("19") && AllDigits("") && WholeFits("19", 17)
  {
    var s := "19";
    SplitWhole(s);
    assert s[..1] == "1" && "1"[..0] == "";
    forall k | 0 <= k < |s| ensures Val(s[..k]) % WORD <= 17 {
      assert s[..k] == (if k == 0 then "" else "1");
    }
  }

  lemma TenToThe18()
    ensures Pow10(18) == 1_000_000_000_000_000_000
  {
    assert Pow10(3) == 1000;
    Pow10Adds(3, 3);
    Pow10Adds(6, 6);
    Pow10Adds(12, 6);
  }

  // ----- The printer

  /** A number in decimal digits, as a stream writes it. */
  function Dec(n: nat): (s: string)
    ensures AllDigits(s) && s != "" && Val(s) == n && NoRedundantZero(s)
  {
    if n < 10 then
      assert [DigitChar(n)][..0] == "";
      [DigitChar(n)]
    else
      var q := Dec(n / 10);
      var s := q + [DigitChar(n % 10)];
      assert s[..|q|] == q;
      assert q[0] != '0' by { LeadingDigit(q); }
      s
  }

  function DigitChar(d: nat): (c: char)
    requires d < 10
    ensures IsDigit(c) && DigitOf(c) == d
  {
    "0123456789"[d]
  }

  lemma LeadingDigit(s: string)
    requires s != "" && NoRedundantZero(s) && Val(s) > 0
    ensures s[0] != '0'
  {
    assert |s| == 1 ==> s[..0] == "";
  }

  /** setw and setfill: zeros in front, up to the width. */
  function PadLeft(s: string, width: nat): (r: string)
    ensures |r| == if |s| < width then width else |s|
    decreases width - |s|
  {
    if |s| < width then PadLeft(['0'] + s, width) else s
  }

  lemma {:induction false} PadLeftVal(s: string, width: nat)
    requires AllDigits(s)
    ensures AllDigits(PadLeft(s, width)) && Val(PadLeft(s, width)) == Val(s)
    decreases width - |s|
  {
    if |s| < width {
      ZeroInFront(s);
      PadLeftVal(['0'] + s, width);
    }
  }

  lemma {:induction false} ZeroInFront(s: string)
    ensures Val(['0'] + s) == Val(s)
  {
    if s == "" {
      assert ['0'] + s == "0";
      ValOfEmpty();
    } else {
      var n := |s| - 1;
      ZeroInFront(s[..n]);
      assert (['0'] + s)[..n + 1] == ['0'] + s[..n];
    }
  }

  lemma {:induction false} DecLength(n: nat, k: nat)
    requires k >= 1 && n < Pow10(k)
    ensures |Dec(n)| <= k
  {
    if n >= 10 {
      DecLength(n / 10, k - 1);
    }
  }

  const COIN := 100_000_000

  method SatoshisToBtcString(satoshis: Word, trailingZeros: bool) returns (s: string)
    ensures var p := Split(s);
      && s == Amounts.Join(p) && p.point
      && p.whole == Dec(satoshis / COIN)
      && AllDigits(p.fraction) && |p.fraction| <= 8
      && Val(p.fraction) * Pow10(8 - |p.fraction|) == satoshis % COIN
      && (trailingZeros ==> |p.fraction| == 8)
      && (!trailingZeros ==> |p.fraction| == 1 || Val(p.fraction) % 10 != 0)
  {
    hide Val, Split;
    EightDecimals();
    var wholePart := satoshis / COIN;
    var fractionalPart := satoshis % COIN;
    var fractionalLength := 8;
    if !trailingZeros {
      if fractionalPart == 0 {
        fractionalLength := 1;
      } else {
        while fractionalPart % 10 == 0
          decreases fractionalLength
          invariant 1 <= fractionalLength <= 8
          invariant fractionalPart > 0
          invariant fractionalPart < Pow10(fractionalLength)
          invariant fractionalPart * Pow10(8 - fractionalLength) == satoshis % COIN
        {
          Shorten(fractionalPart, fractionalLength, satoshis % COIN);
          fractionalPart := fractionalPart / 10;
          fractionalLength := fractionalLength - 1;
        }
      }
    }
    ghost var f := PadLeft(Dec(fractionalPart), fractionalLength);
    DecLength(fractionalPart, fractionalLength);
    PadLeftVal(Dec(fractionalPart), fractionalLength);
    s := Dec(wholePart) + ['.'] + PadLeft(Dec(fractionalPart), fractionalLength);
    SplitFraction(Dec(wholePart), f);
    JoinSplit(s);
  }

  lemma EightDecimals()
    ensures Pow10(8) == COIN && Pow10(0) == 1 && Pow10(1) == 10
  {
    assert Pow10(4) == 10000;
    Pow10Adds(4, 4);
  }

  lemma Shorten(f: nat, n: nat, total: nat)
    requires 1 <= n <= 8 && f > 0 && f % 10 == 0 && f < Pow10(n) && f * Pow10(8 - n) == total
    ensures n >= 2 && f / 10 < Pow10(n - 1) && f / 10 * Pow10(9 - n) == total
  {
    assert Pow10(9 - n) == 10 * Pow10(8 - n);
    var g := f / 10;
    assert f == 10 * g;
    assert g * (10 * Pow10(8 - n)) == 10 * g * Pow10(8 - n);
  }

  /** Every amount in range prints as a string that the validator accepts and the parser reads back. */
  lemma PrintedIsParsed(satoshis: Word, s: string, maxAmount: Word)
    requires Fitting(maxAmount, 8) && satoshis <= maxAmount * COIN
    requires var p := Split(s);
      && p.whole == Dec(satoshis / COIN)
      && AllDigits(p.fraction) && |p.fraction| <= 8
      && Val(p.fraction) * Pow10(8 - |p.fraction|) == satoshis % COIN
    ensures Valid(Split(s), maxAmount, 8)
    ensures Parsed(s, maxAmount, COIN, 8) == Some(satoshis)
  {
    hide Val, Split, Pow10, Valid, Parsed, Dec;
    EightDecimals();
    var p := Split(s);
    assert Total(p, COIN, 8) == satoshis;
    ValidIff(p, maxAmount, 8);
    ValidIsParsed(s, maxAmount, 8);
  }
}
