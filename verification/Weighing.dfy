/** What the weighing of bits in split.c achieves, in sizes of encoded segments. */
module Weighing {
  import opened Bytes
  import opened QRSpec
  import opened QRSegments
  import opened QREncoder
  import opened QREstimates
  import opened QRInputs
  import opened Segmentation

  /** The bits of a run of characters in one mode, however many segments it takes. */
  function Size(mode: Mode, data: Bytes, version: Version): nat
    requires mode != Structure && data != [] && Encodable(mode, data)
  {
    |Encoded(Entry(mode, data), version)|
  }

  function HeaderBits(mode: Mode, version: Version): nat {
    4 + LengthIndicator(mode, version)
  }

  lemma SizeOfPiece(mode: Mode, data: Bytes, version: Version)
    requires mode != Structure && data != [] && Encodable(mode, data) && |data| <= MaximumWords(mode, version)
    ensures var e := Entry(mode, data);
      Piece(e, version) && Size(mode, data, version) == |EncodePiece(e, version)|
    ensures Size(mode, data, version) == HeaderBits(mode, version) + EstimateBits(mode, |data|)
  {
    hide Encoded, Encodable, EncodePiece, Payload;
    EncodedParts(Entry(mode, data), version);
    PieceIs(Entry(mode, data), version);
    PayloadLength(mode, data);
  }

  /** Long runs take several segments, the first as long as its length field allows. */
  lemma SizeOfLong(mode: Mode, data: Bytes, version: Version)
    requires mode != Structure && data != [] && Encodable(mode, data) && |data| > MaximumWords(mode, version)
    ensures var words := MaximumWords(mode, version);
      && words >= 255 && Encodable(mode, data[words..])
      && Size(mode, data, version)
         == HeaderBits(mode, version) + EstimateBits(mode, words) + Size(mode, data[words..], version)
  {
    hide Encoded, Encodable, EncodePiece, Payload;
    var words := MaximumWords(mode, version);
    WordsPositive(mode, version);
    EncodedParts(Entry(mode, data), version);
    PieceIs(Entry(mode, data[..words]), version);
    PayloadLength(mode, data[..words]);
  }

  /** Digits take four bits at most, alphanumeric characters five and a half to six, and bytes eight. */
  lemma {:induction false} SizeBounds(mode: Mode, data: Bytes, version: Version)
    requires mode in {Num, An, Eight} && data != [] && Encodable(mode, data)
    ensures mode == Num ==> Size(mode, data, version) <= 4 * |data| + 18
    ensures mode == An ==> Size(mode, data, version) <= 6 * |data| + 17
    ensures mode == An ==> 2 * Size(mode, data, version) >= 11 * |data| + 2 * HeaderBits(An, version)
    ensures mode == Eight ==> Size(mode, data, version) >= 8 * |data| + HeaderBits(Eight, version)
    decreases |data|
  {
    hide Size, Encodable, MaximumWords;
    var words := MaximumWords(mode, version);
    EstimateBetween(mode, |data|);
    EstimateBetween(mode, words);
    if |data| <= words {
      SizeOfPiece(mode, data, version);
    } else {
      SizeOfLong(mode, data, version);
      SizeBounds(mode, data[words..], version);
    }
  }

  lemma EstimateBetween(mode: Mode, size: nat)
    ensures mode == Num ==> 3 * EstimateBits(mode, size) <= 10 * size + 2 && EstimateBits(mode, size) <= 4 * size
    ensures mode == An ==> 11 * size <= 2 * EstimateBits(mode, size) <= 11 * size + 1
    ensures mode == Eight ==> EstimateBits(mode, size) == 8 * size
  {
  }

  /** Too few characters to matter: one segment in every mode and version. */
  lemma ShortRun(mode: Mode, size: nat, version: Version)
    requires mode != Structure && size <= 255
    ensures size <= MaximumWords(mode, version)
  {
    WordsPositive(mode, version);
  }

  // ----- Where a run ends

  /** The alphanumeric eater stays with its run exactly if that and the next character in 8 bit mode take
      no more bits than both in 8 bit mode. */
  lemma AnChoiceWeighs(s: Bytes, version: Version, hint: Mode)
    requires CString(s) && AnStart(s, version)
    ensures var r := AnEnd(s, 0, version);
      r >= 1 && AnChoice(s, version, hint) ==
        if r < |s| && !IsAlnum(s[r])
           && Size(Eight, s[..r + 1], version) < Size(An, s[..r], version) + Size(Eight, s[r..r + 1], version)
        then EightChoice(s, version, hint)
        else Choice(An, r)
  {
    hide Size, LookAnTable, AnEnd, EstimateBits;
    AnNotEmpty(s, version);
    var r := AnEnd(s, 0, version);
    if r < |s| {
      EightBehind(An, s, r, version);
    }
  }

  /** The numeric eater stays with its digits exactly if they and the next character in its mode take no more
      bits than both in the mode of that character. */
  lemma NumChoiceWeighs(s: Bytes, version: Version, hint: Mode)
    requires CString(s) && s != [] && Digit(s[0])
    ensures var r, c := DigitsEnd(s, 0), NumChoice(s, version, hint);
      var next := IdentifyMode(s, r, hint);
      if next == Some(Eight) then
        c == if Size(Eight, s[..r + 1], version) < Size(Num, s[..r], version) + Size(Eight, s[r..r + 1], version)
             then EightChoice(s, version, hint) else Choice(Num, r)
      else if next == Some(An) then
        if Size(An, s[..r + 1], version) < Size(Num, s[..r], version) + Size(An, s[r..r + 1], version)
        then AnStart(s, version) && c == AnChoice(s, version, hint) else c == Choice(Num, r)
      else c == Choice(Num, r)
  {
    hide Size, LookAnTable, EstimateBits, AnChoice, EightChoice;
    var r := DigitsEnd(s, 0);
    DigitsAreAlnum(s, 0, r);
    EstimateBetween(An, r);
    EstimateBetween(An, r + 1);
    EstimateBetween(An, 1);
    if r < |s| {
      EightBehind(Num, s, r, version);
      if IsAlnum(s[r]) {
        AlnumBehind(s, r, version);
      }
    }
  }

  /** The test for a character of 8 bit mode compares true sizes, for runs of every length. */
  lemma EightBehind(mode: Mode, s: Bytes, r: nat, version: Version)
    requires mode in {Num, An} && 1 <= r < |s| && Encodable(mode, s[..r])
    ensures EstimateBits(mode, r) + HeaderBits(mode, version) + EstimateBits(Eight, 1) > EstimateBits(Eight, r + 1)
      <==> Size(Eight, s[..r + 1], version) < Size(mode, s[..r], version) + Size(Eight, s[r..r + 1], version)
  {
    hide Size, Encodable, MaximumWords, EstimateBits;
    AnyBytes(s[..r + 1]);
    AnyBytes(s[r..r + 1]);
    ShortRun(Eight, 1, version);
    SizeOfPiece(Eight, s[r..r + 1], version);
    EstimateBetween(Eight, 1);
    EstimateBetween(Eight, r + 1);
    EstimateBetween(mode, r);
    if r < 255 {
      ShortRun(Eight, r + 1, version);
      ShortRun(mode, r, version);
      SizeOfPiece(Eight, s[..r + 1], version);
      SizeOfPiece(mode, s[..r], version);
    } else {
      SizeBounds(Eight, s[..r + 1], version);
      SizeBounds(mode, s[..r], version);
    }
  }

  lemma AnyBytes(data: Bytes)
    ensures Encodable(Eight, data)
  {
  }

  /** So does the test for an alphanumeric character behind digits. */
  lemma AlnumBehind(s: Bytes, r: nat, version: Version)
    requires 1 <= r < |s| && Encodable(Num, s[..r]) && Encodable(An, s[..r + 1]) && Encodable(An, s[r..r + 1])
    ensures EstimateBits(Num, r) + HeaderBits(Num, version) + EstimateBits(An, 1) > EstimateBits(An, r + 1)
      <==> Size(An, s[..r + 1], version) < Size(Num, s[..r], version) + Size(An, s[r..r + 1], version)
  {
    hide Size, Encodable, MaximumWords, EstimateBits;
    ShortRun(An, 1, version);
    SizeOfPiece(An, s[r..r + 1], version);
    EstimateBetween(An, 1);
    EstimateBetween(An, r + 1);
    EstimateBetween(Num, r);
    if r < 255 {
      ShortRun(An, r + 1, version);
      ShortRun(Num, r, version);
      SizeOfPiece(An, s[..r + 1], version);
      SizeOfPiece(Num, s[..r], version);
    } else {
      SizeBounds(An, s[..r + 1], version);
      SizeBounds(Num, s[..r], version);
    }
  }

  // ----- Where a run is broken

  /** The bits of the characters alone. */
  function Characters(mode: Mode, data: Bytes): nat
    requires Encodable(mode, data)
  {
    |Payload(mode, data)|
  }

  /** The end of the digits, or of the alphanumeric characters, from p on. */
  function RunEnd(mode: Mode, s: Bytes, p: nat): (q: nat)
    requires p <= |s|
    ensures p <= q <= |s|
  {
    if mode == Num then DigitsEnd(s, p) else AlnumEnd(s, p)
  }

  lemma RunIsEncodable(mode: Mode, s: Bytes, p: nat)
    requires p <= |s| && mode in {Num, An}
    ensures Encodable(mode, s[p..RunEnd(mode, s, p)])
  {
  }

  /** The byte eater breaks its segment at digits or alphanumeric characters exactly if they cost less in their
      own mode, with a header, and with another header if 8 bit mode has to be taken up again behind them.
      While the run fits one segment, these are the sizes of the segments. */
  lemma EightBreaks(mode: Mode, s: Bytes, p: nat, version: Version, hint: Mode)
    requires CString(s) && 1 <= p < |s| && mode in {Num, An} && IdentifyMode(s, p, hint) == Some(mode)
    ensures var q := RunEnd(mode, s, p);
      var back := if IdentifyMode(s, q, hint) == Some(Eight) then HeaderBits(Eight, version) else 0;
      var breaks := EightEnd(s, p, version, hint) == p;
      && p < q && Encodable(mode, s[p..q])
      && (breaks <==> Characters(Eight, s[..p]) + Characters(mode, s[p..q]) + HeaderBits(mode, version) + back
                        < Characters(Eight, s[..q]))
      && (q <= MaximumWords(Eight, version) && q - p <= MaximumWords(mode, version) ==>
            (breaks <==> Size(Eight, s[..p], version) + Size(mode, s[p..q], version) + back
                           < Size(Eight, s[..q], version)))
      && (!breaks ==> EightEnd(s, p, version, hint) == EightEnd(s, q, version, hint))
  {
    hide Size, LookAnTable, EstimateBits, EightEnd, MaximumWords, Payload, Encodable, DigitsEnd, AlnumEnd,
      LengthIndicator, IdentifyMode;
    EightStep(s, p, version, hint);
    var q := RunEnd(mode, s, p);
    RunIsEncodable(mode, s, p);
    AnyBytes(s[..p]);
    AnyBytes(s[..q]);
    PayloadLength(Eight, s[..p]);
    PayloadLength(mode, s[p..q]);
    PayloadLength(Eight, s[..q]);
    if q <= MaximumWords(Eight, version) && q - p <= MaximumWords(mode, version) {
      SizeOfPiece(Eight, s[..p], version);
      SizeOfPiece(mode, s[p..q], version);
      SizeOfPiece(Eight, s[..q], version);
    }
  }

  /** The alphanumeric eater breaks its segment at digits by the same weighing, but for one bit: the header with
      which alphanumeric mode would be taken up again is counted as a numeric one. */
  lemma AnBreaks(s: Bytes, p: nat, version: Version)
    requires 1 <= p < |s| && Digit(s[p]) && Encodable(An, s[..p])
    ensures var q := DigitsEnd(s, p);
      var back := if IsAlnum(At(s, q)) then HeaderBits(An, version) + 1 else 0;
      var breaks := AnEnd(s, p, version) == p;
      && p < q && Encodable(An, s[..q])
      && (breaks <==> Characters(An, s[..p]) + Characters(Num, s[p..q]) + HeaderBits(Num, version) + back
                        < Characters(An, s[..q]))
      && (q <= MaximumWords(An, version) ==>
            (breaks <==> Size(An, s[..p], version) + Size(Num, s[p..q], version) + back < Size(An, s[..q], version)))
      && (!breaks ==> AnEnd(s, p, version) == AnEnd(s, q, version))
  {
    hide Size, EstimateBits, MaximumWords, Payload, LengthIndicator, Encodable, AnEnd, DigitsEnd, IsAlnum, At, Digit;
    var q := DigitsEnd(s, p);
    var back := if IsAlnum(At(s, q)) then HeaderBits(An, version) + 1 else 0;
    NumericLonger(version);
    AnStep(s, p, version);
    assert AnEnd(s, p, version) == p <==>
      EstimateBits(An, p) + EstimateBits(Num, q - p) + HeaderBits(Num, version) + back < EstimateBits(An, q);
    PayloadLength(An, s[..p]);
    PayloadLength(Num, s[p..q]);
    PayloadLength(An, s[..q]);
    if q <= MaximumWords(An, version) {
      SizeOfPiece(An, s[..p], version);
      SizeOfPiece(Num, s[p..q], version);
      SizeOfPiece(An, s[..q], version);
    }
  }

  /** One unfolding of the alphanumeric scan. */
  lemma AnStep(s: Bytes, p: nat, version: Version)
    requires p < |s| && Digit(s[p]) && Encodable(An, s[..p])
    ensures var q, ln := DigitsEnd(s, p), LengthIndicator(Num, version);
      && p < q <= |s| && Encodable(Num, s[p..q]) && Encodable(An, s[..q])
      && AnEnd(s, p, version) ==
           (if EstimateBits(An, p) + EstimateBits(Num, q - p) + 4 + ln + (if IsAlnum(At(s, q)) then 4 + ln else 0)
               < EstimateBits(An, q) then p
            else AnEnd(s, q, version))
      && q <= AnEnd(s, q, version)
  {
    hide EstimateBits, LengthIndicator;
    DigitsAreAlnum(s, p, DigitsEnd(s, p));
  }

  /** Numeric segments may be longer than alphanumeric ones, and have a length field of one bit more. */
  lemma NumericLonger(version: Version)
    ensures LengthIndicator(Num, version) == LengthIndicator(An, version) + 1
    ensures MaximumWords(An, version) <= MaximumWords(Num, version)
  {
    WordsInGroup(An, version);
    WordsInGroup(Num, version);
  }

  /** A string for which the bit matters: breaking at the digits, and returning behind them, would take 95 bits
      where the eater takes 96. */
  lemma AnBreakMisses()
    ensures var s := LETTERS + ONES + LETTER;
      && CString(s) && IdentifyMode(s, 0, Eight) == Some(An) && DigitsEnd(s, 2) == 15 && AnEnd(s, 2, 0) == 16
      && Encodable(An, s[..2]) && Encodable(Num, s[2..15]) && Encodable(An, s[..15])
      && Size(An, s[..2], 0) + Size(Num, s[2..15], 0) + HeaderBits(An, 0) == 95 && Size(An, s[..15], 0) == 96
  {
    hide Size;
    var s := LETTERS + ONES + LETTER;
    DigitsToEnd(s, 2, 15);
    AnBreaks(s, 2, 0);
    WordsInGroup(An, 0);
    WordsInGroup(Num, 0);
    SizeOfPiece(An, s[..2], 0);
    SizeOfPiece(Num, s[2..15], 0);
    SizeOfPiece(An, s[..15], 0);
    assert AnEnd(s, 15, 0) == AnEnd(s, 16, 0) == 16;
  }

  const LETTERS: Bytes := [0x41, 0x42]
  const ONES: Bytes := [0x31, 0x31, 0x31, 0x31, 0x31, 0x31, 0x31, 0x31, 0x31, 0x31, 0x31, 0x31, 0x31]
  const LETTER: Bytes := [0x43]

  lemma {:induction false} DigitsToEnd(s: Bytes, p: nat, q: nat)
    requires p <= q <= |s| && !Digit(At(s, q)) && forall i | p <= i < q :: Digit(s[i])
    ensures DigitsEnd(s, p) == q
    decreases q - p
  {
    if p < q {
      DigitsToEnd(s, p + 1, q);
    }
  }
}
