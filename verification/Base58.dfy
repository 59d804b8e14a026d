/** Base58Check: bytes with a checksum, written in base 58 with their leading zeros kept. */
module Base58 {
  import opened Bytes
  import opened Numerals

  const NUL: char := '\0'

  /** An alphabet of 58 different characters. As a C string it ends with NUL. */
  predicate Alphabet(a: string) {
    && |a| == 58
    && (forall i, j | 0 <= i < j < |a| :: a[i] != a[j])
    && NUL !in a
  }

  // ----- Conversion from and to base 58 (BigInt.h)

  /** strchr also finds the NUL that ends the alphabet, one place after the last character. */
  function Place(a: string, c: char): (p: Option<nat>)
    ensures p.Some? ==> p.value <= |a| && (p.value < |a| ==> a[p.value] == c)
    ensures p.None? ==> c !in a
  {
    if c == NUL then Some(IndexOf(a, c)) else if c in a then Some(IndexOf(a, c)) else None
  }

  function IndexOf(a: string, c: char): (p: nat)
    ensures p <= |a|
    ensures p < |a| ==> a[p] == c
    ensures p == |a| ==> c !in a
  {
    if a == [] || a[0] == c then 0 else 1 + IndexOf(a[1..], c)
  }

  lemma IndexOfAt(a: string, d: nat)
    requires Alphabet(a) && d < |a|
    ensures Place(a, a[d]) == Some(d)
  {
    var p := IndexOf(a, a[d]);
    assert a[d] in a;
  }

  /** The digits of the characters that have one; the others are skipped. */
  function Places(a: string, s: string): (digits: seq<nat>)
    ensures forall i | 0 <= i < |digits| :: digits[i] <= |a|
  {
    if s == [] then []
    else
      var rest := Places(a, s[..|s| - 1]);
      var p := Place(a, s[|s| - 1]);
      if p.Some? then rest + [p.value] else rest
  }

  function Numeral(a: string, digits: seq<nat>): (s: string)
    requires Digits(digits, |a|)
    ensures |s| == |digits|
  {
    seq(|digits|, i requires 0 <= i < |digits| => a[digits[i]])
  }

  /** The numeral of a number: a single zero digit for zero. */
  function InBase(n: nat, a: string): string
    requires |a| >= 2
  {
    Numeral(a, if n == 0 then [0] else DigitsOf(n, |a|))
  }

  method GetInBase(bn: nat, base: nat, alphabet: string) returns (inBase: string)
    requires base == |alphabet| >= 2
    ensures inBase == InBase(bn, alphabet)
  {
    hide DigitsOf, Numeral, Digits;
    var num := bn;
    ghost var done: seq<nat> := [];
    NumeralEmpty(alphabet);
    assert DigitsOf(bn, base) + done == DigitsOf(bn, base);
    inBase := "";
    while true
      invariant Digits(done, base) && inBase == Numeral(alphabet, done)
      invariant num <= bn
      invariant done == [] ==> num == bn
      invariant done != [] ==> num > 0
      invariant bn > 0 ==> DigitsOf(bn, base) == DigitsOf(num, base) + done
      decreases num
    {
      NumeralCons(alphabet, num % base, done);
      DigitsStep(num, base, done);
      inBase := [alphabet[num % base]] + inBase;
      done := [num % base] + done;
      Shrinks(num, base);
      num := num / base;
      if num == 0 {
        assert bn == 0 ==> done == [0];
        assert bn > 0 ==> DigitsOf(bn, base) == done;
        return;
      }
    }
  }

  lemma NumeralCons(a: string, d: nat, digits: seq<nat>)
    requires d < |a| && Digits(digits, |a|)
    ensures Digits([d] + digits, |a|) && Numeral(a, [d] + digits) == [a[d]] + Numeral(a, digits)
  {
  }

  lemma NumeralEmpty(a: string)
    ensures Digits([], |a|) && Numeral(a, []) == []
  {
  }

  lemma DigitsStep(n: nat, base: nat, rest: seq<nat>)
    requires base >= 2
    ensures n > 0 ==> DigitsOf(n, base) + rest == DigitsOf(n / base, base) + ([n % base] + rest)
    ensures n < base ==> n / base == 0 && n % base == n
    ensures DigitsOf(0, base) == []
  {
    if n < base {
      DivUnique(n, base, 0, n);
    }
  }

  lemma Shrinks(n: nat, base: nat)
    requires base >= 2
    ensures 0 <= n / base && (n > 0 ==> n / base < n)
  {
  }

  method SetInBase(inBase: string, base: nat, alphabet: string) returns (num: nat)
    requires base == |alphabet|
    ensures num == ValueOf(Places(alphabet, inBase), base)
  {
    num := 0;
    for i := 0 to |inBase|
      invariant num == ValueOf(Places(alphabet, inBase[..i]), base)
    {
      assert inBase[..i + 1][..i] == inBase[..i];
      var pPos := Place(alphabet, inBase[i]);
      if pPos.Some? {
        ValueOfAppend(Places(alphabet, inBase[..i]), pPos.value, base);
        num := num * base + pPos.value;
      }
    }
    assert inBase[..|inBase|] == inBase;
  }

  lemma {:induction false} PlacesOfNumeral(a: string, digits: seq<nat>)
    requires Alphabet(a) && Digits(digits, |a|)
    ensures Places(a, Numeral(a, digits)) == digits
  {
    if digits != [] {
      var s, n := Numeral(a, digits), |digits| - 1;
      assert s[..n] == Numeral(a, digits[..n]);
      PlacesOfNumeral(a, digits[..n]);
      IndexOfAt(a, digits[n]);
      assert digits == digits[..n] + [digits[n]];
    }
  }

  predicate Written(a: string, s: string) {
    forall i | 0 <= i < |s| :: s[i] in a
  }

  lemma {:induction false} NumeralOfPlaces(a: string, s: string)
    requires Alphabet(a) && Written(a, s)
    ensures Digits(Places(a, s), |a|) && Numeral(a, Places(a, s)) == s
  {
    if s != [] {
      var n := |s| - 1;
      NumeralOfPlaces(a, s[..n]);
      assert s[n] in a;
      var d :| 0 <= d < |a| && a[d] == s[n];
      IndexOfAt(a, d);
      assert s == s[..n] + [s[n]];
    }
  }

  // ----- Leading zeros, in bytes and in digits

  function LeadingSymbols(s: string, zero: char): (n: nat)
    ensures n <= |s|
  {
    if s == [] || s[0] != zero then 0 else 1 + LeadingSymbols(s[1..], zero)
  }

  lemma {:induction false} LeadingSymbolsOf(a: string, digits: seq<nat>)
    requires Alphabet(a) && Digits(digits, |a|)
    ensures LeadingSymbols(Numeral(a, digits), a[0]) == LeadingZeros(digits)
  {
    if digits != [] && digits[0] == 0 {
      LeadingSymbolsOf(a, digits[1..]);
      assert Numeral(a, digits)[1..] == Numeral(a, digits[1..]);
    }
  }

  method CountLeading0Bytes(data: Bytes) returns (i: nat)
    ensures i == LeadingZeros(data)
  {
    i := 0;
    while i < |data| && data[i] == 0
      invariant i <= |data|
      invariant LeadingZeros(data) == i + LeadingZeros(data[i..])
    {
      assert data[i..][1..] == data[i + 1..];
      i := i + 1;
    }
  }

  method CountLeading0Symbols(numeral: string, zeroSymbol: char) returns (i: nat)
    ensures i == LeadingSymbols(numeral, zeroSymbol)
  {
    i := 0;
    while i < |numeral| && numeral[i] == zeroSymbol
      invariant i <= |numeral|
      invariant LeadingSymbols(numeral, zeroSymbol) == i + LeadingSymbols(numeral[i..], zeroSymbol)
    {
      assert numeral[i..][1..] == numeral[i + 1..];
      i := i + 1;
    }
  }

  // ----- Encoding and decoding

  function Checksum(h: HashFn, data: Bytes): (c: Bytes)
    ensures |c| == 4
  {
    h(data)[..4]
  }

  function Encode(h: HashFn, data: Bytes, a: string): string
    requires Alphabet(a)
  {
    var all := data + Checksum(h, data);
    Numeral(a, Zeros(LeadingZeros(all))) + InBase(ValueOf(all, 256), a)
  }

  function Decode(h: HashFn, s: string, a: string): (data: Option<Bytes>)
    requires Alphabet(a)
  {
    var bytes := DigitsOf(ValueOf(Places(a, s), 58), 256);
    if |bytes| < 4 then None
    else
      var checksum, body := bytes[|bytes| - 4..], bytes[..|bytes| - 4];
      var data := Zeros(LeadingSymbols(s, a[0])) + body;
      if Checksum(h, data) != checksum then None else Some(data)
  }

  method ToBase58Check(h: HashFn, payload: Bytes, version: Bytes, alphabet: string) returns (s: string)
    requires Alphabet(alphabet)
    ensures s == Encode(h, version + payload, alphabet)
  {
    var data := version + payload;
    var checksum: Bytes := h(data);
    checksum := checksum[..4];
    data := data + checksum;
    var base58check := GetInBase(ValueOf(data, 256), 58, alphabet);
    var zeros := CountLeading0Bytes(data);
    var leading0s := seq(zeros, _ => alphabet[0]);
    assert leading0s == Numeral(alphabet, Zeros(zeros));
    return leading0s + base58check;
  }

  method FromBase58Check(h: HashFn, base58check: string, alphabet: string) returns (payload: Option<Bytes>)
    requires Alphabet(alphabet)
    ensures payload == Decode(h, base58check, alphabet)
  {
    hide ValueOf, DigitsOf, Places, LeadingSymbols, Zeros;
    var bn := SetInBase(base58check, 58, alphabet);
    var bytes := DigitsOf(bn, 256);
    if |bytes| < 4 {
      return None;
    }
    var checksum := bytes[|bytes| - 4..];
    bytes := bytes[..|bytes| - 4];
    var zeros := CountLeading0Symbols(base58check, alphabet[0]);
    bytes := Zeros(zeros) + bytes;
    var hashBytes := h(bytes);
    if hashBytes[..4] != checksum {
      return None;
    }
    return Some(bytes);
  }

  /** The overload with a version takes it off the content, and does not check that there is one. */
  datatype Checked = Invalid | Accepted(version: Byte, payload: Bytes) | ReadsPastEnd

  function Versioned(data: Option<Bytes>): Checked {
    match data
    case None => Invalid
    case Some(d) => if d == [] then ReadsPastEnd else Accepted(d[0], d[1..])
  }

  method FromBase58CheckVersioned(h: HashFn, base58check: string, alphabet: string) returns (r: Checked)
    requires Alphabet(alphabet)
    ensures r == Versioned(Decode(h, base58check, alphabet))
  {
    var data := FromBase58Check(h, base58check, alphabet);
    if data == None {
      return Invalid;
    }
    if data.value == [] {
      return ReadsPastEnd;
    }
    return Accepted(data.value[0], data.value[1..]);
  }

  predicate HasNonzero(data: Bytes) {
    exists i | 0 <= i < |data| :: data[i] != 0
  }

  lemma ZerosReach(data: Bytes, checksum: Bytes)
    requires |checksum| == 4
    ensures LeadingZeros(data + checksum) <= |data| <==> HasNonzero(data) || checksum[0] != 0
  {
    var all := data + checksum;
    var z := LeadingZeros(all);
    hide LeadingZeros;
    assert checksum[0] == all[|data|];
    if z < |data| {
      assert data[z] != 0;
    } else {
      forall i | 0 <= i < |data| ensures data[i] == 0 {
        assert all[i] == 0;
      }
    }
  }

  /**
   * A round trip succeeds just when version and payload are not all zero bytes, or the checksum
   * does not start with a zero byte; otherwise the decoder rejects what the encoder wrote.
   */
  lemma RoundTripIff(h: HashFn, data: Bytes, a: string)
    requires Alphabet(a)
    ensures Decode(h, Encode(h, data, a), a)
         == if HasNonzero(data) || Checksum(h, data)[0] != 0 then Some(data) else None
  {
    hide ValueOf, DigitsOf, LeadingZeros, Places, LeadingSymbols, Zeros;
    var all := data + Checksum(h, data);
    var z, n := LeadingZeros(all), ValueOf(all, 256);
    EncodedNumeral(h, data, a);
    DecodedBytes(all);
    ZerosReach(data, Checksum(h, data));
    SplitZeros(all);
    if z <= |data| {
      assert all[z..] == data[z..] + Checksum(h, data);
      assert data == Zeros(z) + data[z..];
    }
  }

  /** The same for the form with a version byte, whose content is never empty. */
  lemma VersionedRoundTripIff(h: HashFn, payload: Bytes, version: Byte, a: string)
    requires Alphabet(a)
    ensures Versioned(Decode(h, Encode(h, [version] + payload, a), a))
         == if HasNonzero([version] + payload) || Checksum(h, [version] + payload)[0] != 0
            then Accepted(version, payload) else Invalid
  {
    hide Encode, Decode, HasNonzero, Checksum;
    RoundTripIff(h, [version] + payload, a);
    assert ([version] + payload)[1..] == payload;
  }

  /** What the decoder reads off an encoding: the number, and the leading zeros (one too many for zero). */
  lemma EncodedNumeral(h: HashFn, data: Bytes, a: string)
    requires Alphabet(a)
    ensures var all := data + Checksum(h, data); var s := Encode(h, data, a);
      && ValueOf(Places(a, s), 58) == ValueOf(all, 256)
      && (ValueOf(all, 256) > 0 ==> LeadingSymbols(s, a[0]) == LeadingZeros(all))
  {
    hide ValueOf, DigitsOf, LeadingZeros, Places, LeadingSymbols, Zeros;
    var all := data + Checksum(h, data);
    var z, n := LeadingZeros(all), ValueOf(all, 256);
    var digits := if n == 0 then [0] else DigitsOf(n, 58);
    var numeral := Zeros(z) + digits;
    assert Digits(Zeros(z), 58) && Digits(numeral, 58);
    assert Encode(h, data, a) == Numeral(a, numeral);
    PlacesOfNumeral(a, numeral);
    LeadingSymbolsOf(a, numeral);
    ValueOfZeros(z, digits, 58);
    ValueOfDigits(n, 58);
    if n == 0 {
      ValueOfZero();
    } else {
      LeadingZerosOf(z, digits);
    }
  }

  lemma ValueOfZero()
    ensures ValueOf([0], 58) == 0
  {
    assert [0][..0] == [];
  }

  lemma DecodedBytes(all: Bytes)
    ensures DigitsOf(ValueOf(all, 256), 256) == all[LeadingZeros(all)..]
    ensures ValueOf(all, 256) == 0 <==> LeadingZeros(all) == |all|
  {
    hide ValueOf, DigitsOf, LeadingZeros;
    NumeralParts(all, 256);
    SplitZeros(all);
    var z := LeadingZeros(all);
    assert all[z..] == (Zeros(z) + DigitsOf(ValueOf(all, 256), 256))[z..];
  }

  /** What an encoding stands for: the content and the first four bytes of its double hash, as one number and,
      unless they are all zero, with as many leading zeros. */
  lemma EncodedBytes(h: HashFn, data: Bytes, a: string)
    requires Alphabet(a)
    ensures var all, s := data + h(data)[..4], Encode(h, data, a);
      && ValueOf(Places(a, s), 58) == ValueOf(all, 256)
      && (ValueOf(all, 256) > 0 ==>
            Zeros(LeadingSymbols(s, a[0])) + DigitsOf(ValueOf(Places(a, s), 58), 256) == all)
  {
    hide ValueOf, DigitsOf, LeadingZeros, Places, LeadingSymbols, Zeros, Encode;
    EncodedNumeral(h, data, a);
    DecodedBytes(data + Checksum(h, data));
    SplitZeros(data + Checksum(h, data));
  }

  /** A string is accepted with a content exactly if it stands for that content and the first four bytes of its
      double hash, and these are not among the leading zeros. */
  lemma AcceptedIff(h: HashFn, s: string, a: string, data: Bytes)
    requires Alphabet(a)
    ensures var bytes := DigitsOf(ValueOf(Places(a, s), 58), 256);
      Decode(h, s, a) == Some(data) <==>
        |bytes| >= 4 && Zeros(LeadingSymbols(s, a[0])) + bytes == data + h(data)[..4]
  {
    hide ValueOf, DigitsOf, LeadingZeros, Places, LeadingSymbols, Zeros;
    var bytes, zeros := DigitsOf(ValueOf(Places(a, s), 58), 256), Zeros(LeadingSymbols(s, a[0]));
    if |bytes| >= 4 {
      var n := |bytes| - 4;
      assert zeros + bytes == (zeros + bytes[..n]) + bytes[n..];
      if zeros + bytes == data + h(data)[..4] {
        assert data == (zeros + bytes)[..|data|] == zeros + bytes[..n];
        assert h(data)[..4] == (zeros + bytes)[|data|..] == bytes[n..];
      }
    }
  }

  /** One string for each accepted content: over the alphabet, what is accepted is what the encoder writes. */
  lemma AcceptedIsEncoding(h: HashFn, s: string, a: string)
    requires Alphabet(a) && Decode(h, s, a).Some?
    ensures Encode(h, Decode(h, s, a).value, a) == s <==> Written(a, s)
  {
    hide ValueOf, DigitsOf, LeadingZeros, Places, LeadingSymbols, Zeros;
    var digits := Places(a, s);
    var n, k := ValueOf(digits, 58), LeadingSymbols(s, a[0]);
    var bytes, data := DigitsOf(n, 256), Decode(h, s, a).value;
    assert data + Checksum(h, data) == Zeros(k) + bytes;
    LeadingZerosOf(k, bytes);
    ValueOfZeros(k, bytes, 256);
    ValueOfDigits(n, 256);
    if Written(a, s) {
      NumeralOfPlaces(a, s);
      LeadingSymbolsOf(a, digits);
      NumeralParts(digits, 58);
      assert digits == Zeros(k) + DigitsOf(n, 58);
      assert Digits(Zeros(k), 58);
      assert Numeral(a, digits) == Numeral(a, Zeros(k)) + Numeral(a, DigitsOf(n, 58));
    }
    EncodeIsWritten(h, data, a);
  }

  lemma EncodeIsWritten(h: HashFn, data: Bytes, a: string)
    requires Alphabet(a)
    ensures Written(a, Encode(h, data, a))
  {
  }
}
