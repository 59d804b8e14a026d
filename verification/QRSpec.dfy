/** Capacity of QR symbols by version and error correction level, and the sizes of length fields. */
module QRSpec {
  import opened Bytes

  const VERSION_MAX := 40

  type Version = v: nat | v <= VERSION_MAX

  datatype Level = L | M | Q | H

  datatype Mode = Num | An | Eight | Kanji | Structure

  /** Width, data capacity in bytes, remainder bits, and error correction bytes by level. */
  datatype Capacity = Capacity(width: nat, words: nat, remainder: nat, ecL: nat, ecM: nat, ecQ: nat, ecH: nat)

  function CapacityOf(version: Version): Capacity {
    match version
    case 0 => Capacity(0, 0, 0, 0, 0, 0, 0)
    case 1 => Capacity(21, 26, 0, 7, 10, 13, 17)
    case 2 => Capacity(25, 44, 7, 10, 16, 22, 28)
    case 3 => Capacity(29, 70, 7, 15, 26, 36, 44)
    case 4 => Capacity(33, 100, 7, 20, 36, 52, 64)
    case 5 => Capacity(37, 134, 7, 26, 48, 72, 88)
    case 6 => Capacity(41, 172, 7, 36, 64, 96, 112)
    case 7 => Capacity(45, 196, 0, 40, 72, 108, 130)
    case 8 => Capacity(49, 242, 0, 48, 88, 132, 156)
    case 9 => Capacity(53, 292, 0, 60, 110, 160, 192)
    case 10 => Capacity(57, 346, 0, 72, 130, 192, 224)
    case 11 => Capacity(61, 404, 0, 80, 150, 224, 264)
    case 12 => Capacity(65, 466, 0, 96, 176, 260, 308)
    case 13 => Capacity(69, 532, 0, 104, 198, 288, 352)
    case 14 => Capacity(73, 581, 3, 120, 216, 320, 384)
    case 15 => Capacity(77, 655, 3, 132, 240, 360, 432)
    case 16 => Capacity(81, 733, 3, 144, 280, 408, 480)
    case 17 => Capacity(85, 815, 3, 168, 308, 448, 532)
    case 18 => Capacity(89, 901, 3, 180, 338, 504, 588)
    case 19 => Capacity(93, 991, 3, 196, 364, 546, 650)
    case 20 => Capacity(97, 1085, 3, 224, 416, 600, 700)
    case 21 => Capacity(101, 1156, 4, 224, 442, 644, 750)
    case 22 => Capacity(105, 1258, 4, 252, 476, 690, 816)
    case 23 => Capacity(109, 1364, 4, 270, 504, 750, 900)
    case 24 => Capacity(113, 1474, 4, 300, 560, 810, 960)
    case 25 => Capacity(117, 1588, 4, 312, 588, 870, 1050)
    case 26 => Capacity(121, 1706, 4, 336, 644, 952, 1110)
    case 27 => Capacity(125, 1828, 4, 360, 700, 1020, 1200)
    case 28 => Capacity(129, 1921, 3, 390, 728, 1050, 1260)
    case 29 => Capacity(133, 2051, 3, 420, 784, 1140, 1350)
    case 30 => Capacity(137, 2185, 3, 450, 812, 1200, 1440)
    case 31 => Capacity(141, 2323, 3, 480, 868, 1290, 1530)
    case 32 => Capacity(145, 2465, 3, 510, 924, 1350, 1620)
    case 33 => Capacity(149, 2611, 3, 540, 980, 1440, 1710)
    case 34 => Capacity(153, 2761, 3, 570, 1036, 1530, 1800)
    case 35 => Capacity(157, 2876, 0, 570, 1064, 1590, 1890)
    case 36 => Capacity(161, 3034, 0, 600, 1120, 1680, 1980)
    case 37 => Capacity(165, 3196, 0, 630, 1204, 1770, 2100)
    case 38 => Capacity(169, 3362, 0, 660, 1260, 1860, 2220)
    case 39 => Capacity(173, 3532, 0, 720, 1316, 1950, 2310)
    case _ => Capacity(177, 3706, 0, 750, 1372, 2040, 2430)
  }

  function EccLength(version: Version, level: Level): nat {
    var c := CapacityOf(version);
    match level
    case L => c.ecL
    case M => c.ecM
    case Q => c.ecQ
    case H => c.ecH
  }

  function DataLength(version: Version, level: Level): int {
    CapacityOf(version).words - EccLength(version, level)
  }

  /** Numbers of shorter and of longer Reed-Solomon blocks, by level. */
  datatype BlockCounts = BlockCounts(l1: nat, l2: nat, m1: nat, m2: nat, q1: nat, q2: nat, h1: nat, h2: nat)

  function BlockCountsOf(version: Version): BlockCounts {
    match version
    case 0 => BlockCounts(0, 0, 0, 0, 0, 0, 0, 0)
    case 1 => BlockCounts(1, 0, 1, 0, 1, 0, 1, 0)
    case 2 => BlockCounts(1, 0, 1, 0, 1, 0, 1, 0)
    case 3 => BlockCounts(1, 0, 1, 0, 2, 0, 2, 0)
    case 4 => BlockCounts(1, 0, 2, 0, 2, 0, 4, 0)
    case 5 => BlockCounts(1, 0, 2, 0, 2, 2, 2, 2)
    case 6 => BlockCounts(2, 0, 4, 0, 4, 0, 4, 0)
    case 7 => BlockCounts(2, 0, 4, 0, 2, 4, 4, 1)
    case 8 => BlockCounts(2, 0, 2, 2, 4, 2, 4, 2)
    case 9 => BlockCounts(2, 0, 3, 2, 4, 4, 4, 4)
    case 10 => BlockCounts(2, 2, 4, 1, 6, 2, 6, 2)
    case 11 => BlockCounts(4, 0, 1, 4, 4, 4, 3, 8)
    case 12 => BlockCounts(2, 2, 6, 2, 4, 6, 7, 4)
    case 13 => BlockCounts(4, 0, 8, 1, 8, 4, 12, 4)
    case 14 => BlockCounts(3, 1, 4, 5, 11, 5, 11, 5)
    case 15 => BlockCounts(5, 1, 5, 5, 5, 7, 11, 7)
    case 16 => BlockCounts(5, 1, 7, 3, 15, 2, 3, 13)
    case 17 => BlockCounts(1, 5, 10, 1, 1, 15, 2, 17)
    case 18 => BlockCounts(5, 1, 9, 4, 17, 1, 2, 19)
    case 19 => BlockCounts(3, 4, 3, 11, 17, 4, 9, 16)
    case 20 => BlockCounts(3, 5, 3, 13, 15, 5, 15, 10)
    case 21 => BlockCounts(4, 4, 17, 0, 17, 6, 19, 6)
    case 22 => BlockCounts(2, 7, 17, 0, 7, 16, 34, 0)
    case 23 => BlockCounts(4, 5, 4, 14, 11, 14, 16, 14)
    case 24 => BlockCounts(6, 4, 6, 14, 11, 16, 30, 2)
    case 25 => BlockCounts(8, 4, 8, 13, 7, 22, 22, 13)
    case 26 => BlockCounts(10, 2, 19, 4, 28, 6, 33, 4)
    case 27 => BlockCounts(8, 4, 22, 3, 8, 26, 12, 28)
    case 28 => BlockCounts(3, 10, 3, 23, 4, 31, 11, 31)
    case 29 => BlockCounts(7, 7, 21, 7, 1, 37, 19, 26)
    case 30 => BlockCounts(5, 10, 19, 10, 15, 25, 23, 25)
    case 31 => BlockCounts(13, 3, 2, 29, 42, 1, 23, 28)
    case 32 => BlockCounts(17, 0, 10, 23, 10, 35, 19, 35)
    case 33 => BlockCounts(17, 1, 14, 21, 29, 19, 11, 46)
    case 34 => BlockCounts(13, 6, 14, 23, 44, 7, 59, 1)
    case 35 => BlockCounts(12, 7, 12, 26, 39, 14, 22, 41)
    case 36 => BlockCounts(6, 14, 6, 34, 46, 10, 2, 64)
    case 37 => BlockCounts(17, 4, 29, 14, 49, 10, 24, 46)
    case 38 => BlockCounts(4, 18, 13, 32, 48, 14, 42, 32)
    case 39 => BlockCounts(20, 4, 40, 7, 43, 22, 10, 67)
    case _ => BlockCounts(19, 6, 18, 31, 34, 34, 20, 61)
  }

  /** Blocks of dataCodes1 bytes, then blocks of dataCodes2 bytes, all with eccCodes parity bytes. */
  datatype EccSpec = EccSpec(blocks1: nat, dataCodes1: nat, eccCodes: nat, blocks2: nat, dataCodes2: nat)

  function FirstBlocks(version: Version, level: Level): nat {
    var c := BlockCountsOf(version);
    match level
    case L => c.l1
    case M => c.m1
    case Q => c.q1
    case H => c.h1
  }

  function SecondBlocks(version: Version, level: Level): nat {
    var c := BlockCountsOf(version);
    match level
    case L => c.l2
    case M => c.m2
    case Q => c.q2
    case H => c.h2
  }

  /** QRspec_getEccSpec. */
  function GetEccSpec(version: Version, level: Level): EccSpec
    requires version >= 1
  {
    var b1, b2 := FirstBlocks(version, level), SecondBlocks(version, level);
    var data, ecc := DataLength(version, level), EccLength(version, level);
    ConsistentAt(version, level);
    if b2 == 0 then EccSpec(b1, data / b1, ecc / b1, 0, 0)
    else EccSpec(b1, data / (b1 + b2), ecc / (b1 + b2), b2, data / (b1 + b2) + 1)
  }

  /** The two tables fit together: blocks share data and parity without rest, and are short enough for the code. */
  predicate Consistent(version: Version, level: Level) {
    var b1, b2 := FirstBlocks(version, level), SecondBlocks(version, level);
    var n, data, ecc := b1 + b2, DataLength(version, level), EccLength(version, level);
    b1 >= 1
    && var dl, el := data / n, ecc / n;
      data == n * dl + b2 && ecc == n * el && dl >= 1 && el >= 1 && dl + 1 + el <= 255
  }

  predicate AllConsistent(lo: nat, hi: nat, level: Level)
    requires lo <= hi <= VERSION_MAX + 1
    decreases hi - lo
  {
    lo == hi || (Consistent(lo, level) && AllConsistent(lo + 1, hi, level))
  }

  lemma {:induction false} ConsistentIn(lo: nat, hi: nat, level: Level, version: Version)
    requires lo <= version < hi <= VERSION_MAX + 1 && AllConsistent(lo, hi, level)
    ensures Consistent(version, level)
    decreases hi - lo
  {
    hide Consistent;
    if lo < version {
      ConsistentIn(lo + 1, hi, level, version);
    }
  }

  // The tables are evaluated a few versions at a time.

  lemma ConsistentL1() ensures AllConsistent(1, 5, L) {}
  lemma ConsistentL5() ensures AllConsistent(5, 9, L) {}
  lemma ConsistentL9() ensures AllConsistent(9, 13, L) {}
  lemma ConsistentL13() ensures AllConsistent(13, 17, L) {}
  lemma ConsistentL17() ensures AllConsistent(17, 21, L) {}
  lemma ConsistentL21() ensures AllConsistent(21, 25, L) {}
  lemma ConsistentL25() ensures AllConsistent(25, 29, L) {}
  lemma ConsistentL29() ensures AllConsistent(29, 33, L) {}
  lemma ConsistentL33() ensures AllConsistent(33, 37, L) {}
  lemma ConsistentL37() ensures AllConsistent(37, 41, L) {}

  lemma ConsistentM1() ensures AllConsistent(1, 5, M) {}
  lemma ConsistentM5() ensures AllConsistent(5, 9, M) {}
  lemma ConsistentM9() ensures AllConsistent(9, 13, M) {}
  lemma ConsistentM13() ensures AllConsistent(13, 17, M) {}
  lemma ConsistentM17() ensures AllConsistent(17, 21, M) {}
  lemma ConsistentM21() ensures AllConsistent(21, 25, M) {}
  lemma ConsistentM25() ensures AllConsistent(25, 29, M) {}
  lemma ConsistentM29() ensures AllConsistent(29, 33, M) {}
  lemma ConsistentM33() ensures AllConsistent(33, 37, M) {}
  lemma ConsistentM37() ensures AllConsistent(37, 41, M) {}

  lemma ConsistentQ1() ensures AllConsistent(1, 5, Q) {}
  lemma ConsistentQ5() ensures AllConsistent(5, 9, Q) {}
  lemma ConsistentQ9() ensures AllConsistent(9, 13, Q) {}
  lemma ConsistentQ13() ensures AllConsistent(13, 17, Q) {}
  lemma ConsistentQ17() ensures AllConsistent(17, 21, Q) {}
  lemma ConsistentQ21() ensures AllConsistent(21, 25, Q) {}
  lemma ConsistentQ25() ensures AllConsistent(25, 29, Q) {}
  lemma ConsistentQ29() ensures AllConsistent(29, 33, Q) {}
  lemma ConsistentQ33() ensures AllConsistent(33, 37, Q) {}
  lemma ConsistentQ37() ensures AllConsistent(37, 41, Q) {}

  lemma ConsistentH1() ensures AllConsistent(1, 5, H) {}
  lemma ConsistentH5() ensures AllConsistent(5, 9, H) {}
  lemma ConsistentH9() ensures AllConsistent(9, 13, H) {}
  lemma ConsistentH13() ensures AllConsistent(13, 17, H) {}
  lemma ConsistentH17() ensures AllConsistent(17, 21, H) {}
  lemma ConsistentH21() ensures AllConsistent(21, 25, H) {}
  lemma ConsistentH25() ensures AllConsistent(25, 29, H) {}
  lemma ConsistentH29() ensures AllConsistent(29, 33, H) {}
  lemma ConsistentH33() ensures AllConsistent(33, 37, H) {}
  lemma ConsistentH37() ensures AllConsistent(37, 41, H) {}

  lemma AllAreConsistent(level: Level)
    ensures AllConsistent(1, 5, level) && AllConsistent(5, 9, level)
    ensures AllConsistent(9, 13, level) && AllConsistent(13, 17, level)
    ensures AllConsistent(17, 21, level) && AllConsistent(21, 25, level)
    ensures AllConsistent(25, 29, level) && AllConsistent(29, 33, level)
    ensures AllConsistent(33, 37, level) && AllConsistent(37, 41, level)
  {
    hide AllConsistent;
    match level
    case L =>
      ConsistentL1(); ConsistentL5(); ConsistentL9(); ConsistentL13(); ConsistentL17();
      ConsistentL21(); ConsistentL25(); ConsistentL29(); ConsistentL33(); ConsistentL37();
    case M =>
      ConsistentM1(); ConsistentM5(); ConsistentM9(); ConsistentM13(); ConsistentM17();
      ConsistentM21(); ConsistentM25(); ConsistentM29(); ConsistentM33(); ConsistentM37();
    case Q =>
      ConsistentQ1(); ConsistentQ5(); ConsistentQ9(); ConsistentQ13(); ConsistentQ17();
      ConsistentQ21(); ConsistentQ25(); ConsistentQ29(); ConsistentQ33(); ConsistentQ37();
    case H =>
      ConsistentH1(); ConsistentH5(); ConsistentH9(); ConsistentH13(); ConsistentH17();
      ConsistentH21(); ConsistentH25(); ConsistentH29(); ConsistentH33(); ConsistentH37();
  }

  lemma ConsistentAt(version: Version, level: Level)
    requires version >= 1
    ensures Consistent(version, level)
  {
    hide Consistent, AllConsistent;
    AllAreConsistent(level);
    if version < 5 {
      ConsistentIn(1, 5, level, version);
    } else if version < 9 {
      ConsistentIn(5, 9, level, version);
    } else if version < 13 {
      ConsistentIn(9, 13, level, version);
    } else if version < 17 {
      ConsistentIn(13, 17, level, version);
    } else if version < 21 {
      ConsistentIn(17, 21, level, version);
    } else if version < 25 {
      ConsistentIn(21, 25, level, version);
    } else if version < 29 {
      ConsistentIn(25, 29, level, version);
    } else if version < 33 {
      ConsistentIn(29, 33, level, version);
    } else if version < 37 {
      ConsistentIn(33, 37, level, version);
    } else {
      ConsistentIn(37, 41, level, version);
    }
  }

  // ----- Capacity

  lemma CapacityRises(version: Version, level: Level)
    requires version < VERSION_MAX
    ensures 0 <= DataLength(version, level) < DataLength(version + 1, level)
  {
  }

  lemma {:induction false} CapacityMonotone(v: Version, w: Version, level: Level)
    requires v <= w
    ensures 0 <= DataLength(v, level) <= DataLength(w, level)
    decreases w - v
  {
    hide DataLength;
    if v < w {
      CapacityRises(v, level);
      CapacityMonotone(v + 1, w, level);
    } else if v > 0 {
      CapacityRises(v - 1, level);
    } else {
      CapacityRises(v, level);
    }
  }

  /** The smallest version from v on that holds so many bytes. */
  function LeastVersion(size: nat, level: Level, v: nat): (r: Option<Version>)
    requires 1 <= v <= VERSION_MAX + 1
    ensures r.Some? ==> v <= r.value && size <= DataLength(r.value, level)
    decreases VERSION_MAX + 1 - v
  {
    if v > VERSION_MAX then None
    else if DataLength(v, level) >= size then Some(v)
    else LeastVersion(size, level, v + 1)
  }

  /** The smallest version that holds so many bytes, found by trying one after the other. */
  method GetMinimumVersion(size: nat, level: Level) returns (version: Option<Version>)
    ensures version.Some? ==> version.value >= 1 && size <= DataLength(version.value, level)
    ensures version.Some? ==> forall v: Version | 1 <= v < version.value :: DataLength(v, level) < size
    ensures version.None? ==> forall v: Version | 1 <= v :: DataLength(v, level) < size
    ensures version == LeastVersion(size, level, 1)
  {
    hide DataLength;
    for i := 1 to VERSION_MAX + 1
      invariant LeastVersion(size, level, 1) == LeastVersion(size, level, i)
      invariant forall v: Version | 1 <= v < i :: DataLength(v, level) < size
    {
      if DataLength(i, level) >= size {
        return Some(i);
      }
    }
    return None;
  }

  // ----- Length fields

  /** Versions fall into three groups with length fields of the same size. */
  function VersionGroup(version: Version): nat {
    if version <= 9 then 0 else if version <= 26 then 1 else 2
  }

  function LengthIndicator(mode: Mode, version: Version): (bits: nat)
    ensures bits <= 16
  {
    var g := VersionGroup(version);
    match mode
    case Num => if g == 0 then 10 else if g == 1 then 12 else 14
    case An => if g == 0 then 9 else if g == 1 then 11 else 13
    case Eight => if g == 0 then 8 else 16
    case Kanji => if g == 0 then 8 else if g == 1 then 10 else 12
    case Structure => 0
  }

  /** The most bytes one segment can hold; zero where there is no limit. */
  function MaximumWords(mode: Mode, version: Version): nat {
    match mode
    case Structure => 0
    case Kanji => 2 * (Pow2(LengthIndicator(mode, version)) - 1)
    case _ => Pow2(LengthIndicator(mode, version)) - 1
  }

  /** No symbol has room for as many bits as a segment longer than its length field allows would take. */
  lemma GroupCapacity(version: Version, level: Level)
    ensures 8 * DataLength(version, level)
         <= if VersionGroup(version) == 0 then 1856 else if VersionGroup(version) == 1 then 10960 else 23648
  {
    hide DataLength;
    if version <= 9 {
      CapacityMonotone(version, 9, level);
      CapacityAtEnds(level);
    } else if version <= 26 {
      CapacityMonotone(version, 26, level);
      CapacityAtEnds(level);
    } else {
      CapacityMonotone(version, 40, level);
      CapacityAtEnds(level);
    }
  }

  lemma CapacityAtEnds(level: Level)
    ensures 8 * DataLength(9, level) <= 1856 && 8 * DataLength(26, level) <= 10960
    ensures 8 * DataLength(40, level) <= 23648 && 8 * DataLength(1, level) >= 72
  {
  }

  // ----- Format information

  /** formatInfo: the format word of each mask, by level. */
  function FormatInfo(level: Level): (words: seq<nat>)
    ensures |words| == 8
  {
    match level
    case L => [0x77C4, 0x72F3, 0x7DAA, 0x789D, 0x662F, 0x6318, 0x6C41, 0x6976]
    case M => [0x5412, 0x5125, 0x5E7C, 0x5B4B, 0x45F9, 0x40CE, 0x4F97, 0x4AA0]
    case Q => [0x355F, 0x3068, 0x3F31, 0x3A06, 0x24B4, 0x2183, 0x2EDA, 0x2BED]
    case H => [0x1689, 0x13BE, 0x1CE7, 0x19D0, 0x0762, 0x0255, 0x0D0C, 0x083B]
  }
}
