/** The words of the two codes in which a QR symbol announces its format and its version
    (ISO/IEC 18004:2006, annexes C and D). */
module Bch {
  import opened QRSpec
  import opened QRFrame

  /** A polynomial over GF(2): its coefficients, the lowest last. */
  type Poly = bv18

  function Term(q: Poly, i: nat, g: Poly): Poly
    requires i < 6
  {
    if (q >> i) & 1 == 1 then g << i else 0
  }

  /** The product with a polynomial of six coefficients. */
  function Times(q: Poly, g: Poly): Poly {
    Term(q, 0, g) ^ Term(q, 1, g) ^ Term(q, 2, g) ^ Term(q, 3, g) ^ Term(q, 4, g) ^ Term(q, 5, g)
  }

  // x^10 + x^8 + x^5 + x^4 + x^2 + x + 1 and x^12 + x^11 + x^10 + x^9 + x^8 + x^5 + x^2 + 1
  const FORMAT_GENERATOR: Poly := 0x537
  const VERSION_GENERATOR: Poly := 0x1F25
  /** Added to every format word, so that none is zero. */
  const FORMAT_MASK: Poly := 0x5412

  // ----- Format words

  /** The level that two bits stand for: L is 1, M is 0, Q is 3 and H is 2. */
  function LevelOf(code: Poly): Level {
    if code == 0 then M else if code == 1 then L else if code == 2 then H else Q
  }

  datatype Format = Format(level: Level, mask: nat)

  /** What a reader takes from a format word: two bits for the level and three for the mask, the others check them. */
  function FormatOf(word: nat): Format
    requires word < 0x8000
  {
    var v := (word as Poly) ^ FORMAT_MASK;
    Format(LevelOf(v >> 13), ((v >> 10) & 7) as nat)
  }

  ghost predicate InCode(word: nat)
    requires word < 0x8000
  {
    exists q: Poly :: q < 32 && Times(q, FORMAT_GENERATOR) == (word as Poly) ^ FORMAT_MASK
  }

  /** A word of the code, with its quotient by the generator, and what a reader takes from it. */
  predicate IsWord(word: nat, q: Poly, level: Level, m: nat) {
    && word < 0x8000
    && q < 32 && Times(q, FORMAT_GENERATOR) == (word as Poly) ^ FORMAT_MASK
    && FormatOf(word) == Format(level, m)
  }

  lemma WordsL()
    ensures IsWord(0x77C4, 10, L, 0) && IsWord(0x72F3, 11, L, 1) && IsWord(0x7DAA, 8, L, 2) && IsWord(0x789D, 9, L, 3)
    ensures IsWord(0x662F, 15, L, 4) && IsWord(0x6318, 14, L, 5) && IsWord(0x6C41, 13, L, 6) && IsWord(0x6976, 12, L, 7)
  {
  }

  lemma WordsM()
    ensures IsWord(0x5412, 0, M, 0) && IsWord(0x5125, 1, M, 1) && IsWord(0x5E7C, 2, M, 2) && IsWord(0x5B4B, 3, M, 3)
    ensures IsWord(0x45F9, 5, M, 4) && IsWord(0x40CE, 4, M, 5) && IsWord(0x4F97, 7, M, 6) && IsWord(0x4AA0, 6, M, 7)
  {
  }

  lemma WordsQ()
    ensures IsWord(0x355F, 31, Q, 0) && IsWord(0x3068, 30, Q, 1) && IsWord(0x3F31, 29, Q, 2) && IsWord(0x3A06, 28, Q, 3)
    ensures IsWord(0x24B4, 26, Q, 4) && IsWord(0x2183, 27, Q, 5) && IsWord(0x2EDA, 24, Q, 6) && IsWord(0x2BED, 25, Q, 7)
  {
  }

  lemma WordsH()
    ensures IsWord(0x1689, 21, H, 0) && IsWord(0x13BE, 20, H, 1) && IsWord(0x1CE7, 23, H, 2) && IsWord(0x19D0, 22, H, 3)
    ensures IsWord(0x0762, 16, H, 4) && IsWord(0x0255, 17, H, 5) && IsWord(0x0D0C, 18, H, 6) && IsWord(0x083B, 19, H, 7)
  {
  }

  /** Every format word is one of the code, and a reader takes its own level and mask from it. */
  lemma FormatWords(level: Level, m: nat)
    requires m < 8
    ensures FormatInfo(level)[m] < 0x8000 && InCode(FormatInfo(level)[m])
    ensures FormatOf(FormatInfo(level)[m]) == Format(level, m)
  {
    var q := WordOf(level, m);
  }

  lemma WordOf(level: Level, m: nat) returns (q: Poly)
    requires m < 8
    ensures IsWord(FormatInfo(level)[m], q, level, m)
  {
    hide IsWord;
    WordsL();
    WordsM();
    WordsQ();
    WordsH();
    q :| IsWord(FormatInfo(level)[m], q, level, m);
  }

  // ----- Version words

  /** A word of eighteen bits that starts with the version and is a multiple of the generator. */
  predicate IsVersionWord(word: nat, q: Poly, version: Version) {
    word < 0x40000 && q < 64 && Times(q, VERSION_GENERATOR) == word as Poly && word / 4096 == version
  }

  lemma VersionWords1()
    ensures IsVersionWord(0x07C94, 4, 7) && IsVersionWord(0x085BC, 12, 8) && IsVersionWord(0x09A99, 13, 9)
    ensures IsVersionWord(0x0A4D3, 15, 10) && IsVersionWord(0x0BBF6, 14, 11) && IsVersionWord(0x0C762, 10, 12)
    ensures IsVersionWord(0x0D847, 11, 13) && IsVersionWord(0x0E60D, 9, 14) && IsVersionWord(0x0F928, 8, 15)
  {
  }

  lemma VersionWords2()
    ensures IsVersionWord(0x10B78, 24, 16) && IsVersionWord(0x1145D, 25, 17) && IsVersionWord(0x12A17, 27, 18)
    ensures IsVersionWord(0x13532, 26, 19) && IsVersionWord(0x149A6, 30, 20) && IsVersionWord(0x15683, 31, 21)
    ensures IsVersionWord(0x168C9, 29, 22) && IsVersionWord(0x177EC, 28, 23) && IsVersionWord(0x18EC4, 20, 24)
  {
  }

  lemma VersionWords3()
    ensures IsVersionWord(0x191E1, 21, 25) && IsVersionWord(0x1AFAB, 23, 26) && IsVersionWord(0x1B08E, 22, 27)
    ensures IsVersionWord(0x1CC1A, 18, 28) && IsVersionWord(0x1D33F, 19, 29) && IsVersionWord(0x1ED75, 17, 30)
    ensures IsVersionWord(0x1F250, 16, 31) && IsVersionWord(0x209D5, 49, 32)
  {
  }

  lemma VersionWords4()
    ensures IsVersionWord(0x216F0, 48, 33) && IsVersionWord(0x228BA, 50, 34) && IsVersionWord(0x2379F, 51, 35)
    ensures IsVersionWord(0x24B0B, 55, 36) && IsVersionWord(0x2542E, 54, 37) && IsVersionWord(0x26A64, 52, 38)
    ensures IsVersionWord(0x27541, 53, 39) && IsVersionWord(0x28C69, 61, 40)
  {
  }

  lemma VersionWords(version: Version) returns (q: Poly)
    requires version >= 7
    ensures IsVersionWord(VersionPattern(version), q, version)
  {
    hide IsVersionWord;
    VersionWords1();
    VersionWords2();
    VersionWords3();
    VersionWords4();
    q :| IsVersionWord(VersionPattern(version), q, version);
  }
}
