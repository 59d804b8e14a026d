/** Decimal amounts: the parser, the validator of the input field, and the printer. */
module Amounts {
  import opened Bytes

  /** Machine words of 64 bits: arithmetic wraps around. */
  const WORD := 0x1_0000_0000_0000_0000

  type Word = n: nat | n < WORD

  predicate IsDigit(c: char) {
    '0' <= c <= '9'
  }

  predicate AllDigits(s: string) {
    forall i | 0 <= i < |s| :: IsDigit(s[i])
  }

  function DigitOf(c: char): (d: nat) {
    if IsDigit(c) then (c as int) - ('0' as int) else 0
  }

  /** The number that a row of digits stands for. */
  function Val(s: string): nat {
    if s == "" then 0 else 10 * Val(s[..|s| - 1]) + DigitOf(s[|s| - 1])
  }

  function Pow10(n: nat): (p: nat)
    ensures p >= 1
  {
    if n == 0 then 1 else 10 * Pow10(n - 1)
  }

  // ----- The parts of an amount

  datatype Parts = Parts(whole: string, point: bool, fraction: string)

  /** A string cut at its first decimal point. */
  function Split(s: string): (p: Parts)
  {
    if s == "" then Parts("", false, "")
    else
      var p, c := Split(s[..|s| - 1]), s[|s| - 1];
      if p.point then p.(fraction := p.fraction + [c])
      else if c == '.' then p.(point := true)
      else p.(whole := p.whole + [c])
  }

  function Join(p: Parts): string {
    p.whole + if p.point then ['.'] + p.fraction else ""
  }

  lemma SplitNext(s: string, c: char)
    ensures var p := Split(s);
      Split(s + [c]) == if p.point then p.(fraction := p.fraction + [c])
                        else if c == '.' then p.(point := true)
                        else p.(whole := p.whole + [c])
  {
    assert (s + [c])[..|s|] == s;
  }

  predicate NoPoint(s: string) {
    forall i | 0 <= i < |s| :: s[i] != '.'
  }

  lemma {:induction false} SplitWhole(w: string)
    requires NoPoint(w)
    ensures Split(w) == Parts(w, false, "")
  {
    if w != "" {
      var n := |w| - 1;
      SplitWhole(w[..n]);
      assert w == w[..n] + [w[n]];
    }
  }

  lemma {:induction false} SplitFraction(w: string, f: string)
    requires NoPoint(w)
    ensures Split(w + ['.'] + f) == Parts(w, true, f)
  {
    if f == "" {
      SplitWhole(w);
      SplitNext(w, '.');
      assert w + ['.'] + f == w + ['.'];
    } else {
      var n := |f| - 1;
      SplitFraction(w, f[..n]);
      SplitNext(w + ['.'] + f[..n], f[n]);
      assert f == f[..n] + [f[n]];
      assert w + ['.'] + f == (w + ['.'] + f[..n]) + [f[n]];
    }
  }

  lemma {:induction false} JoinSplit(s: string)
    ensures Join(Split(s)) == s && NoPoint(Split(s).whole)
    ensures !Split(s).point ==> Split(s).fraction == ""
  {
    if s != "" {
      JoinSplit(s[..|s| - 1]);
      assert s == s[..|s| - 1] + [s[|s| - 1]];
    }
  }

  // ----- Arithmetic in words

  lemma ModTimesPlus(a: nat, b: nat, c: nat, m: nat)
    requires m > 0
    ensures ((a % m) * b + c % m) % m == (a * b + c) % m
  {
    var qa, ra, qc, rc := a / m, a % m, c / m, c % m;
    assert a == qa * m + ra && c == qc * m + rc;
    assert a * b == (qa * b) * m + ra * b by { assert (qa * m + ra) * b == (qa * m) * b + ra * b; }
    var t := ra * b + rc;
    var q, r := t / m, t % m;
    assert t == q * m + r;
    DivUnique(a * b + c, m, qa * b + qc + q, r);
  }

  /** Appending a digit to a value kept in a word. */
  lemma ValNext(s: string, c: char)
    requires IsDigit(c)
    ensures Val(s + [c]) == 10 * Val(s) + DigitOf(c)
  {
    assert (s + [c])[..|s|] == s;
  }

  lemma ValNextWord(s: string, c: char)
    requires IsDigit(c)
    ensures (Val(s) % WORD * 10 % WORD + DigitOf(c)) % WORD == Val(s + [c]) % WORD
  {
    ValNext(s, c);
    WordDigit(Val(s), DigitOf(c), WORD);
  }

  lemma WordDigit(a: nat, d: nat, m: nat)
    requires m > 10 > d
    ensures (a % m * 10 % m + d) % m == (10 * a + d) % m
  {
    assert 0 % m == 0 && d % m == d by { DivUnique(0, m, 0, 0); DivUnique(d, m, 0, d); }
    var x := a % m * 10;
    assert x % m == (10 * a) % m by { ModTimesPlus(a, 10, 0, m); }
    assert (x % m * 1 + d % m) % m == (10 * a * 1 + d) % m by { ModTimesPlus(10 * a, 1, d, m); }
  }

  // ----- The parser

  /** Before each digit of the whole part the value read so far must not be over the maximum. */
  predicate WholeFits(w: string, maxAmount: Word) {
    forall k | 0 <= k < |w| :: Val(w[..k]) % WORD <= maxAmount
  }

  predicate Readable(p: Parts, maxAmount: Word, maxDecimals: nat) {
    && AllDigits(p.whole) && AllDigits(p.fraction)
    && |p.fraction| <= maxDecimals
    && WholeFits(p.whole, maxAmount)
  }

  /** The amount in units of 10^-maxDecimals, if divisor is 10^maxDecimals. */
  function Total(p: Parts, divisor: nat, maxDecimals: nat): nat
    requires |p.fraction| <= maxDecimals
  {
    Val(p.whole) * divisor + Val(p.fraction) * Pow10(maxDecimals - |p.fraction|)
  }

  /** The parser for every input: exact but for the wrap-around of the total and of the limit. */
  function Parsed(s: string, maxAmount: Word, divisor: Word, maxDecimals: nat): Option<nat> {
    var p := Split(s);
    if !Readable(p, maxAmount, maxDecimals) then None
    else
      var value := Total(p, divisor, maxDecimals) % WORD;
      if value > maxAmount * divisor % WORD then None else Some(value)
  }

  lemma ReadableNext(s: string, c: char, maxAmount: Word, maxDecimals: nat)
    ensures var p := Split(s);
      Readable(Split(s + [c]), maxAmount, maxDecimals) <==>
        && Readable(p, maxAmount, maxDecimals)
        && if p.point then IsDigit(c) && |p.fraction| < maxDecimals
           else c == '.' || (IsDigit(c) && Val(p.whole) % WORD <= maxAmount)
  {
    var p := Split(s);
    SplitNext(s, c);
    if p.point {
      DigitsNext(p.fraction, c);
    } else if c != '.' {
      DigitsNext(p.whole, c);
      FitsNext(p.whole, c, maxAmount);
    }
  }

  lemma DigitsNext(s: string, c: char)
    ensures AllDigits(s + [c]) <==> AllDigits(s) && IsDigit(c)
  {
    var t := s + [c];
    if AllDigits(t) {
      assert forall i | 0 <= i < |s| :: s[i] == t[i];
      assert t[|s|] == c;
    }
  }

  lemma FitsNext(w: string, c: char, maxAmount: Word)
    ensures WholeFits(w + [c], maxAmount) <==> WholeFits(w, maxAmount) && Val(w) % WORD <= maxAmount
  {
    hide Val;
    var t := w + [c];
    forall k | 0 <= k <= |w| ensures t[..k] == w[..k] {
    }
    assert t[..|w|] == w;
    if WholeFits(t, maxAmount) {
      forall k | 0 <= k < |w| ensures Val(w[..k]) % WORD <= maxAmount {
        assert t[..k] == w[..k];
      }
    }
  }

  lemma {:induction false} ReadablePrefix(s: string, i: nat, maxAmount: Word, maxDecimals: nat)
    requires i <= |s| && Readable(Split(s), maxAmount, maxDecimals)
    ensures Readable(Split(s[..i]), maxAmount, maxDecimals)
  {
    if i < |s| {
      var n := |s| - 1;
      assert s == s[..n] + [s[n]];
      ReadableNext(s[..n], s[n], maxAmount, maxDecimals);
      ReadablePrefix(s[..n], i, maxAmount, maxDecimals);
      assert s[..n][..i] == s[..i];
    } else {
      assert s[..i] == s;
    }
  }

  /** decimalStringToInteger; None stands for the exception "Invalid amount." */
  method DecimalStringToInteger(s: string, maxAmount: Word, divisor: Word, maxDecimals: nat) returns (r: Option<Word>)
    ensures r == Parsed(s, maxAmount, divisor, maxDecimals)
  {
    hide Val, Split, Readable, Pow10, Total;
    var whole: Word, frac: Word, decimals: nat, stateWhole := 0, 0, 0, true;
    ghost var p := Split("");
    SplitEmpty(maxAmount, maxDecimals);
    for i := 0 to |s|
      invariant p == Split(s[..i]) && Readable(p, maxAmount, maxDecimals)
      invariant stateWhole == !p.point && decimals == |p.fraction| <= maxDecimals
      invariant whole == Val(p.whole) % WORD && frac == Val(p.fraction) % WORD
    {
      var c := s[i];
      assert s[..i + 1] == s[..i] + [c];
      SplitNext(s[..i], c);
      ReadableNext(s[..i], c, maxAmount, maxDecimals);
      if Readable(Split(s), maxAmount, maxDecimals) {
        ReadablePrefix(s, i + 1, maxAmount, maxDecimals);
      }
      if stateWhole {
        if c == '.' {
          stateWhole := false;
          p := Split(s[..i + 1]);
          continue;
        } else if whole > maxAmount || c < '0' || c > '9' {
          return None;
        }
        ValNextWord(p.whole, c);
        whole := whole * 10 % WORD;
        whole := (whole + DigitOf(c)) % WORD;
      } else {
        decimals := decimals + 1;
        if decimals > maxDecimals || c < '0' || c > '9' {
          return None;
        }
        ValNextWord(p.fraction, c);
        frac := frac * 10 % WORD;
        frac := (frac + DigitOf(c)) % WORD;
      }
      p := Split(s[..i + 1]);
    }
    assert s[..|s|] == s;
    frac := Pad(frac, decimals, maxDecimals, Val(p.fraction));
    TotalInWords(p, divisor, maxDecimals);
    var value: Word := (whole * divisor % WORD + frac) % WORD;
    if value > maxAmount * divisor % WORD {
      return None;
    }
    return Some(value);
  }

  lemma SplitEmpty(maxAmount: Word, maxDecimals: nat)
    ensures Split("") == Parts("", false, "") && Val("") == 0
    ensures Readable(Parts("", false, ""), maxAmount, maxDecimals)
  {
  }

  /** The zeros that bring a fraction to maxDecimals digits. */
  method Pad(frac0: Word, decimals0: nat, maxDecimals: nat, ghost exact: nat) returns (frac: Word)
    requires decimals0 <= maxDecimals && frac0 == exact % WORD
    ensures frac == exact * Pow10(maxDecimals - decimals0) % WORD
  {
    hide Pow10;
    frac := frac0;
    var decimals := decimals0;
    Pow10Zero();
    if frac > 0 {
      while decimals < maxDecimals
        invariant decimals0 <= decimals <= maxDecimals
        invariant frac == exact * Pow10(decimals - decimals0) % WORD
      {
        PadOne(exact, decimals - decimals0);
        decimals := decimals + 1;
        frac := frac * 10 % WORD;
      }
    } else {
      ModTimesPlus(exact, Pow10(maxDecimals - decimals0), 0, WORD);
    }
  }

  lemma Pow10Zero()
    ensures Pow10(0) == 1
  {
  }

  lemma PadOne(exact: nat, n: nat)
    ensures exact * Pow10(n) % WORD * 10 % WORD == exact * Pow10(n + 1) % WORD
  {
    var x := exact * Pow10(n);
    assert exact * Pow10(n + 1) == x * 10;
    ModTimesPlus(x, 10, 0, WORD);
  }

  lemma TotalInWords(p: Parts, divisor: Word, maxDecimals: nat)
    requires |p.fraction| <= maxDecimals
    ensures (Val(p.whole) % WORD * divisor % WORD + Val(p.fraction) * Pow10(maxDecimals - |p.fraction|) % WORD) % WORD
         == Total(p, divisor, maxDecimals) % WORD
  {
    hide Val, Pow10;
    var a, c := Val(p.whole), Val(p.fraction) * Pow10(maxDecimals - |p.fraction|);
    ModTimesPlus(a, divisor, 0, WORD);
    ModTimesPlus(a * divisor, 1, c, WORD);
  }

  // ----- What the parser means without overflow

  lemma {:induction false} ValBound(s: string)
    requires AllDigits(s)
    ensures Val(s) < Pow10(|s|)
  {
    if s != "" {
      ValBound(s[..|s| - 1]);
    }
  }

  lemma {:induction false} Pow10Adds(m: nat, n: nat)
    ensures Pow10(m + n) == Pow10(m) * Pow10(n)
  {
    if n > 0 {
      Pow10Adds(m, n - 1);
    }
  }

  lemma {:induction false} ValPrefix(s: string, k: nat)
    requires k <= |s|
    ensures Val(s[..k]) <= Val(s)
  {
    if k < |s| {
      ValPrefix(s[..|s| - 1], k);
      assert s[..|s| - 1][..k] == s[..k];
    } else {
      assert s[..k] == s;
    }
  }

  /** An amount in digits, with few enough decimals, and not over the maximum. */
  predicate InRange(p: Parts, maxAmount: nat, maxDecimals: nat) {
    && AllDigits(p.whole) && AllDigits(p.fraction)
    && |p.fraction| <= maxDecimals
    && Total(p, Pow10(maxDecimals), maxDecimals) <= maxAmount * Pow10(maxDecimals)
  }

  /** The bound under which no amount in range overflows. */
  predicate Fitting(maxAmount: nat, maxDecimals: nat) {
    && 10 * maxAmount + 9 < WORD
    && (maxAmount + 1) * Pow10(maxDecimals) < WORD
  }

  /** The fraction is worth less than one whole unit. */
  lemma FractionBound(p: Parts, maxDecimals: nat)
    requires AllDigits(p.fraction) && |p.fraction| <= maxDecimals
    ensures var q := Pow10(maxDecimals - |p.fraction|);
      Val(p.fraction) * q + q <= Pow10(maxDecimals)
  {
    hide Val, Pow10;
    var q, v := Pow10(maxDecimals - |p.fraction|), Val(p.fraction);
    ValBound(p.fraction);
    Pow10Adds(|p.fraction|, maxDecimals - |p.fraction|);
    MulMonotone(v + 1, Pow10(|p.fraction|), q);
    assert (v + 1) * q == v * q + q;
  }

  lemma InRangeIs(p: Parts, maxAmount: nat, maxDecimals: nat)
    requires AllDigits(p.fraction) && |p.fraction| <= maxDecimals
    ensures Total(p, Pow10(maxDecimals), maxDecimals) <= maxAmount * Pow10(maxDecimals)
       <==> Val(p.whole) < maxAmount || (Val(p.whole) == maxAmount && Val(p.fraction) == 0)
  {
    hide Val, Pow10;
    var d, q := Pow10(maxDecimals), Pow10(maxDecimals - |p.fraction|);
    var v, w := Val(p.fraction), Val(p.whole);
    FractionBound(p, maxDecimals);
    if w < maxAmount {
      MulMonotone(w + 1, maxAmount, d);
      assert (w + 1) * d == w * d + d;
    } else if w > maxAmount {
      MulMonotone(maxAmount + 1, w, d);
      assert (maxAmount + 1) * d == maxAmount * d + d;
      assert v * q >= 0;
    } else if v > 0 {
      MulMonotone(1, v, q);
    }
  }

  lemma {:induction false} WholeExact(w: string, maxAmount: Word)
    requires 10 * maxAmount + 9 < WORD && WholeFits(w, maxAmount)
    ensures Val(w) <= 10 * maxAmount + 9
  {
    if w != "" {
      var n := |w| - 1;
      forall k | 0 <= k < n ensures Val(w[..n][..k]) % WORD <= maxAmount {
        assert w[..n][..k] == w[..k];
      }
      WholeExact(w[..n], maxAmount);
      assert Val(w[..n]) % WORD <= maxAmount;
    }
  }

  lemma FitsWhenSmall(w: string, maxAmount: Word)
    requires Val(w) <= maxAmount
    ensures WholeFits(w, maxAmount)
  {
    hide Val;
    forall k | 0 <= k < |w| ensures Val(w[..k]) % WORD <= maxAmount {
      ValPrefix(w, k);
      SmallModulo(Val(w[..k]));
    }
  }

  /**
   * When the parser is right: amounts in range are parsed to their exact value, and others are
   * refused unless their total wraps around to a number that is in range.
   */
  lemma ParsedIff(s: string, maxAmount: Word, maxDecimals: nat)
    requires Fitting(maxAmount, maxDecimals)
    ensures var p, limit := Split(s), maxAmount * Pow10(maxDecimals);
      && 0 < Pow10(maxDecimals) < WORD
      && var r := Parsed(s, maxAmount, Pow10(maxDecimals), maxDecimals);
      && (InRange(p, maxAmount, maxDecimals) ==> r == Some(Total(p, Pow10(maxDecimals), maxDecimals)))
      && (!InRange(p, maxAmount, maxDecimals) ==>
            (r != None <==>
               && Readable(p, maxAmount, maxDecimals)
               && Total(p, Pow10(maxDecimals), maxDecimals) % WORD <= limit))
  {
    hide Val, Pow10, Total, Split;
    var p, d := Split(s), Pow10(maxDecimals);
    MulMonotone(1, maxAmount + 1, d);
    assert (maxAmount + 1) * d == maxAmount * d + d;
    if InRange(p, maxAmount, maxDecimals) {
      InRangeIs(p, maxAmount, maxDecimals);
      FitsWhenSmall(p.whole, maxAmount);
    }
  }

  /** With room for one more digit the parser is right on every string. */
  lemma ParsedExactly(s: string, maxAmount: Word, maxDecimals: nat)
    requires (10 * maxAmount + 10) * Pow10(maxDecimals) < WORD
    ensures Fitting(maxAmount, maxDecimals) && Pow10(maxDecimals) < WORD
    ensures Parsed(s, maxAmount, Pow10(maxDecimals), maxDecimals)
         == if InRange(Split(s), maxAmount, maxDecimals)
            then Some(Total(Split(s), Pow10(maxDecimals), maxDecimals)) else None
  {
    hide Val, Pow10, Split, Parsed, Total, InRange, Readable;
    var p := Split(s);
    RoomFits(maxAmount, Pow10(maxDecimals));
    ParsedIff(s, maxAmount, maxDecimals);
    if Readable(p, maxAmount, maxDecimals) && !InRange(p, maxAmount, maxDecimals) {
      AboveLimit(p, maxAmount, maxDecimals);
    }
  }

  lemma RoomFits(maxAmount: nat, d: nat)
    requires d >= 1 && (10 * maxAmount + 10) * d < WORD
    ensures 10 * maxAmount + 9 < WORD && (maxAmount + 1) * d < WORD && d < WORD
  {
    MulMonotone(1, 10 * maxAmount + 10, d);
    MulMonotone(maxAmount + 1, 10 * maxAmount + 10, d);
    MulMonotone(1, d, 10 * maxAmount + 10);
  }

  /** A readable amount beyond the maximum is beyond it after the wrap-around, too, for there is none. */
  lemma AboveLimit(p: Parts, maxAmount: Word, maxDecimals: nat)
    requires (10 * maxAmount + 10) * Pow10(maxDecimals) < WORD && 10 * maxAmount + 9 < WORD
    requires Readable(p, maxAmount, maxDecimals) && !InRange(p, maxAmount, maxDecimals)
    ensures Total(p, Pow10(maxDecimals), maxDecimals) % WORD > maxAmount * Pow10(maxDecimals)
  {
    hide Val, Pow10, Total;
    var d := Pow10(maxDecimals);
    WholeExact(p.whole, maxAmount);
    TotalBound(p, maxDecimals);
    MulMonotone(Val(p.whole) + 1, 10 * maxAmount + 10, d);
    SmallModulo(Total(p, d, maxDecimals));
  }

  lemma SmallModulo(n: nat)
    requires n < WORD
    ensures n % WORD == n
  {
  }

  lemma TotalBound(p: Parts, maxDecimals: nat)
    requires AllDigits(p.fraction) && |p.fraction| <= maxDecimals
    ensures Total(p, Pow10(maxDecimals), maxDecimals) < (Val(p.whole) + 1) * Pow10(maxDecimals)
  {
    hide Val, Pow10;
    var d := Pow10(maxDecimals);
    FractionBound(p, maxDecimals);
    assert (Val(p.whole) + 1) * d == Val(p.whole) * d + d;
  }

  // ----- The validator

  datatype State = Invalid | Intermediate | Acceptable

  /** Every digit of the whole part keeps it within the maximum, and none follows a leading zero. */
  predicate WholeValid(w: string, maxAmount: Word) {
    && (forall k | 1 <= k <= |w| :: Val(w[..k]) % WORD <= maxAmount)
    && (forall k | 1 <= k < |w| :: Val(w[..k]) % WORD > 0)
  }

  predicate AllZeros(s: string) {
    forall i | 0 <= i < |s| :: s[i] == '0'
  }

  predicate Valid(p: Parts, maxAmount: Word, maxDecimals: nat) {
    && AllDigits(p.whole) && AllDigits(p.fraction)
    && |p.fraction| <= maxDecimals
    && WholeValid(p.whole, maxAmount)
    && (Val(p.whole) % WORD < maxAmount || AllZeros(p.fraction))
  }

  lemma WholeValidNext(w: string, c: char, maxAmount: Word)
    ensures WholeValid(w + [c], maxAmount) <==>
      WholeValid(w, maxAmount) && Val(w + [c]) % WORD <= maxAmount && (w == "" || Val(w) % WORD > 0)
  {
    hide Val;
    var t := w + [c];
    forall k | 0 <= k <= |w| ensures t[..k] == w[..k] {
    }
    assert t[..|w|] == w && t[..|t|] == t;
    if WholeValid(t, maxAmount) {
      forall k | 1 <= k <= |w| ensures Val(w[..k]) % WORD <= maxAmount && Val(w[..k]) % WORD > 0 {
        assert t[..k] == w[..k];
      }
    }
  }

  lemma ZerosNext(s: string, c: char)
    ensures AllZeros(s + [c]) <==> AllZeros(s) && c == '0'
  {
    var t := s + [c];
    if AllZeros(t) {
      assert forall i | 0 <= i < |s| :: s[i] == t[i];
      assert t[|s|] == c;
    }
  }

  /** One more character, as the loop checks it. */
  lemma ValidNext(s: string, c: char, maxAmount: Word, maxDecimals: nat)
    ensures var p := Split(s);
      Valid(Split(s + [c]), maxAmount, maxDecimals) <==>
        && Valid(p, maxAmount, maxDecimals)
        && if p.point then |p.fraction| < maxDecimals && IsDigit(c) && (c == '0' || Val(p.whole) % WORD < maxAmount)
           else
             || c == '.'
             || (IsDigit(c) && Val(p.whole + [c]) % WORD <= maxAmount && (p.whole == "" || Val(p.whole) % WORD > 0))
  {
    hide WholeValid, AllDigits, AllZeros, Val;
    var p := Split(s);
    SplitNext(s, c);
    JoinSplit(s);
    DigitsNext(p.fraction, c);
    DigitsNext(p.whole, c);
    ZerosNext(p.fraction, c);
    WholeValidNext(p.whole, c, maxAmount);
    NoZeros();
  }

  lemma NoZeros()
    ensures AllZeros("") && AllDigits("")
  {
  }

  lemma {:induction false} ValidPrefix(s: string, i: nat, maxAmount: Word, maxDecimals: nat)
    requires i <= |s| && Valid(Split(s), maxAmount, maxDecimals)
    ensures Valid(Split(s[..i]), maxAmount, maxDecimals)
  {
    hide Valid;
    if i < |s| {
      var n := |s| - 1;
      assert s == s[..n] + [s[n]];
      ValidNext(s[..n], s[n], maxAmount, maxDecimals);
      ValidPrefix(s[..n], i, maxAmount, maxDecimals);
      assert s[..n][..i] == s[..i];
    } else {
      assert s[..i] == s;
    }
  }

  method Validate(amount: string, maxAmount: Word, maxDecimals: nat) returns (state: State)
    ensures state == if amount == "" then Intermediate
                     else if Valid(Split(amount), maxAmount, maxDecimals) then Acceptable else Invalid
  {
    hide Val, Split, Valid;
    if amount == "" {
      return Intermediate;
    }
    var whole: Word, decimals: nat, bFirst, bWhole := 0, 0, true, true;
    ghost var p := Split("");
    ValidEmpty(maxAmount, maxDecimals);
    for i := 0 to |amount|
      invariant p == Split(amount[..i]) && Valid(p, maxAmount, maxDecimals)
      invariant bWhole == !p.point && decimals == |p.fraction| && (bWhole ==> bFirst == (p.whole == ""))
      invariant whole == Val(p.whole) % WORD
    {
      var c := amount[i];
      assert amount[..i + 1] == amount[..i] + [c];
      SplitNext(amount[..i], c);
      ValidNext(amount[..i], c, maxAmount, maxDecimals);
      if Valid(Split(amount), maxAmount, maxDecimals) {
        ValidPrefix(amount, i + 1, maxAmount, maxDecimals);
      }
      if bWhole {
        if c == '.' {
          bWhole := false;
        } else if '0' <= c <= '9' && (whole > 0 || bFirst) {
          ValNextWord(p.whole, c);
          whole := whole * 10 % WORD;
          whole := (whole + DigitOf(c)) % WORD;
          if whole > maxAmount {
            return Invalid;
          }
        } else {
          return Invalid;
        }
      } else {
        decimals := decimals + 1;
        if decimals > maxDecimals {
          return Invalid;
        }
        if !(c == '0' || ('1' <= c <= '9' && whole < maxAmount)) {
          return Invalid;
        }
      }
      bFirst := false;
      p := Split(amount[..i + 1]);
    }
    assert amount[..|amount|] == amount;
    return Acceptable;
  }

  lemma ValidEmpty(maxAmount: Word, maxDecimals: nat)
    ensures Split("") == Parts("", false, "") && Val("") == 0
    ensures Valid(Parts("", false, ""), maxAmount, maxDecimals)
  {
  }
}
