/** The cutting of a string into segments of the cheapest modes (split.c). */
module Segmentation {
  import opened Bytes
  import opened QRSpec
  import opened QRSegments
  import opened QREncoder
  import opened QREstimates
  import opened QRInputs

  /** The character at a place of a C string: NUL behind its end. */
  function At(s: Bytes, p: nat): Byte {
    if p < |s| then s[p] else 0
  }

  predicate CString(s: Bytes) {
    forall i | 0 <= i < |s| :: s[i] != 0
  }

  predicate IsAlnum(c: Byte) {
    LookAnTable(c) >= 0
  }

  /** Split_identifyMode; None at the end of the string. */
  function IdentifyMode(s: Bytes, p: nat, hint: Mode): (mode: Option<Mode>)
    ensures p < |s| && CString(s) ==> mode.Some?
    ensures mode.Some? ==> p < |s|
    ensures mode == Some(Kanji) ==> p + 1 < |s| && KanjiValue(s[p], s[p + 1])
    ensures mode == Some(Num) <==> p < |s| && Digit(s[p])
    ensures mode == Some(An) ==> p < |s| && IsAlnum(s[p]) && !Digit(s[p])
    ensures mode != Some(Structure) && (mode == Some(Kanji) ==> hint == Kanji)
  {
    var c := At(s, p);
    if c == 0 then None
    else if Digit(c) then Some(Num)
    else if IsAlnum(c) then Some(An)
    else if hint == Kanji && At(s, p + 1) != 0 && KanjiValue(c, At(s, p + 1)) then Some(Kanji)
    else Some(Eight)
  }

  /** The end of the digits from p on, and of the alphanumeric characters. */
  function DigitsEnd(s: Bytes, p: nat): (q: nat)
    requires p <= |s|
    ensures p <= q <= |s| && !Digit(At(s, q))
    ensures forall i | p <= i < q :: Digit(s[i])
    ensures p < |s| && Digit(s[p]) ==> p < q
    decreases |s| - p
  {
    if p < |s| && Digit(s[p]) then DigitsEnd(s, p + 1) else p
  }

  method ScanDigits(s: Bytes, p: nat) returns (q: nat)
    requires p <= |s|
    ensures q == DigitsEnd(s, p)
  {
    q := p;
    while Digit(At(s, q))
      invariant p <= q <= |s| && DigitsEnd(s, p) == DigitsEnd(s, q)
      decreases |s| - q
    {
      q := q + 1;
    }
  }

  function AlnumEnd(s: Bytes, p: nat): (q: nat)
    requires p <= |s|
    ensures p <= q <= |s| && !IsAlnum(At(s, q))
    ensures forall i | p <= i < q :: IsAlnum(s[i])
    ensures p < |s| && IsAlnum(s[p]) ==> p < q
    decreases |s| - p
  {
    if p < |s| && IsAlnum(s[p]) then AlnumEnd(s, p + 1) else p
  }

  method ScanAlnum(s: Bytes, p: nat) returns (q: nat)
    requires p <= |s|
    ensures q == AlnumEnd(s, p)
  {
    NulIsNoCharacter();
    q := p;
    while IsAlnum(At(s, q))
      invariant p <= q <= |s| && AlnumEnd(s, p) == AlnumEnd(s, q)
      decreases |s| - q
    {
      q := q + 1;
    }
  }

  lemma NulIsNoCharacter()
    ensures !IsAlnum(0) && !Digit(0)
  {
  }

  // ----- Where each mode stops, as the code weighs the bits

  /** What a return to 8 bit mode would cost after place q. */
  function SwitchCost(s: Bytes, q: nat, version: Version, hint: Mode): nat {
    if IdentifyMode(s, q, hint) == Some(Eight) then 4 + LengthIndicator(Eight, version) else 0
  }

  /** The end of an 8 bit segment that has reached p. */
  function EightEnd(s: Bytes, p: nat, version: Version, hint: Mode): (e: nat)
    requires CString(s) && p <= |s|
    ensures p <= e <= |s| && IdentifyMode(s, e, hint) != Some(Eight)
    decreases |s| - p
  {
    var mode := IdentifyMode(s, p, hint);
    if mode == None || mode == Some(Kanji) then p
    else if mode == Some(Num) then
      var q := DigitsEnd(s, p);
      if EstimateBits(Eight, p) + EstimateBits(Num, q - p) + 4 + LengthIndicator(Num, version)
        + SwitchCost(s, q, version, hint)
         < EstimateBits(Eight, q) then p
      else EightEnd(s, q, version, hint)
    else if mode == Some(An) then
      var q := AlnumEnd(s, p);
      if EstimateBits(Eight, p) + EstimateBits(An, q - p) + 4 + LengthIndicator(An, version)
        + SwitchCost(s, q, version, hint)
         < EstimateBits(Eight, q) then p
      else EightEnd(s, q, version, hint)
    else EightEnd(s, p + 1, version, hint)
  }

  /** The end of an alphanumeric segment that has reached p. */
  function AnEnd(s: Bytes, p: nat, version: Version): (e: nat)
    requires p <= |s|
    ensures p <= e <= |s| && (IsAlnum(At(s, e)) ==> Digit(At(s, e)))
    ensures forall i | p <= i < e :: IsAlnum(s[i])
    decreases |s| - p
  {
    if !(p < |s| && IsAlnum(s[p])) then p
    else if Digit(s[p]) then
      var q, ln := DigitsEnd(s, p), LengthIndicator(Num, version);
      DigitsAreAlnum(s, p, q);
      if EstimateBits(An, p) + EstimateBits(Num, q - p) + 4 + ln + (if IsAlnum(At(s, q)) then 4 + ln else 0)
         < EstimateBits(An, q) then p
      else AnEnd(s, q, version)
    else AnEnd(s, p + 1, version)
  }

  predicate KanjiAt(s: Bytes, p: nat) {
    p + 1 < |s| && KanjiValue(s[p], s[p + 1])
  }

  function KanjiEnd(s: Bytes, p: nat, hint: Mode): (e: nat)
    requires p <= |s|
    ensures p <= e <= |s| && (e - p) % 2 == 0
    ensures forall j | p <= j < e && (j - p) % 2 == 0 :: KanjiAt(s, j)
    ensures IdentifyMode(s, p, hint) == Some(Kanji) ==> p < e
    ensures IdentifyMode(s, e, hint) != Some(Kanji)
    decreases |s| - p
  {
    if IdentifyMode(s, p, hint) == Some(Kanji) then KanjiEnd(s, p + 2, hint) else p
  }

  /** A mode, and how many bytes of the string go into it. */
  datatype Choice = Choice(mode: Mode, run: nat)

  function EightChoice(s: Bytes, version: Version, hint: Mode): (c: Choice)
    requires CString(s) && s != []
    ensures 1 <= c.run <= |s| && c.mode == Eight
  {
    Choice(Eight, EightEnd(s, 1, version, hint))
  }

  /** Alphanumeric, unless the next character makes 8 bit mode cheaper for both. */
  function AnChoice(s: Bytes, version: Version, hint: Mode): (c: Choice)
    requires CString(s) && AnStart(s, version)
    ensures 1 <= c.run <= |s|
  {
    AnNotEmpty(s, version);
    var run := AnEnd(s, 0, version);
    if At(s, run) != 0 && !IsAlnum(At(s, run))
       && EstimateBits(An, run) + 4 + LengthIndicator(An, version) + EstimateBits(Eight, 1)
         > EstimateBits(Eight, run + 1)
    then EightChoice(s, version, hint)
    else Choice(An, run)
  }

  /** Numeric, unless what follows the digits makes a wider mode cheaper for both. */
  function NumChoice(s: Bytes, version: Version, hint: Mode): (c: Choice)
    requires CString(s) && s != [] && Digit(s[0])
    ensures 1 <= c.run <= |s|
  {
    var run, ln := DigitsEnd(s, 0), LengthIndicator(Num, version);
    var mode := IdentifyMode(s, run, hint);
    if mode == Some(Eight) && EstimateBits(Num, run) + 4 + ln + EstimateBits(Eight, 1) > EstimateBits(Eight, run + 1)
    then EightChoice(s, version, hint)
    else if mode == Some(An) && EstimateBits(Num, run) + 4 + ln + EstimateBits(An, 1) > EstimateBits(An, run + 1)
    then
      DigitsAreAlnum(s, 0, run);
      AnChoice(s, version, hint)
    else Choice(Num, run)
  }

  function FirstChoice(s: Bytes, version: Version, hint: Mode): (c: Choice)
    requires CString(s) && s != []
    ensures 1 <= c.run <= |s|
  {
    var mode := IdentifyMode(s, 0, hint);
    if mode == Some(Num) then NumChoice(s, version, hint)
    else if mode == Some(An) then AnChoice(s, version, hint)
    else if mode == Some(Kanji) then Choice(Kanji, KanjiEnd(s, 0, hint))
    else EightChoice(s, version, hint)
  }

  /** Where alphanumeric mode may start: not with digits that would be cheaper on their own. */
  predicate AnStart(s: Bytes, version: Version) {
    && s != [] && IsAlnum(s[0])
    && (Digit(s[0]) ==>
          var run := DigitsEnd(s, 0);
          EstimateBits(Num, run) + 2 * (4 + LengthIndicator(Num, version)) >= EstimateBits(An, run)
            && IsAlnum(At(s, run)))
  }

  lemma AnNotEmpty(s: Bytes, version: Version)
    requires AnStart(s, version)
    ensures AnEnd(s, 0, version) >= 1
  {
    EstimateNothing();
  }

  lemma DigitsAreAlnum(s: Bytes, p: nat, q: nat)
    requires p <= q <= |s| && forall i | p <= i < q :: Digit(s[i])
    ensures forall i | p <= i < q :: IsAlnum(s[i])
  {
  }

  lemma EstimateNothing()
    ensures EstimateBits(An, 0) == 0
  {
  }

  /** The segments of a string, one after the other. */
  function Cut(s: Bytes, version: Version, hint: Mode): seq<Entry>
    requires CString(s)
    decreases |s|
  {
    if s == [] then []
    else
      var c := FirstChoice(s, version, hint);
      [Entry(c.mode, s[..c.run])] + Cut(s[c.run..], version, hint)
  }

  /** One unfolding of the 8 bit scan. */
  lemma EightStep(s: Bytes, p: nat, version: Version, hint: Mode)
    requires CString(s) && p <= |s|
    ensures var mode := IdentifyMode(s, p, hint);
      && (At(s, p) == 0 || mode == Some(Kanji) ==> EightEnd(s, p, version, hint) == p)
      && (At(s, p) != 0 ==> p < |s|)
      && (mode == Some(Num) ==>
            var q := DigitsEnd(s, p);
            p < q && EightEnd(s, p, version, hint) ==
              if EstimateBits(Eight, p) + EstimateBits(Num, q - p) + 4 + LengthIndicator(Num, version)
                 + SwitchCost(s, q, version, hint) < EstimateBits(Eight, q) then p
              else EightEnd(s, q, version, hint))
      && (mode == Some(An) ==>
            var q := AlnumEnd(s, p);
            p < q && EightEnd(s, p, version, hint) ==
              if EstimateBits(Eight, p) + EstimateBits(An, q - p) + 4 + LengthIndicator(An, version)
                 + SwitchCost(s, q, version, hint) < EstimateBits(Eight, q) then p
              else EightEnd(s, q, version, hint))
      && (mode == Some(Eight) ==> EightEnd(s, p, version, hint) == EightEnd(s, p + 1, version, hint))
      && (At(s, p) != 0 ==> mode in {Some(Num), Some(An), Some(Kanji), Some(Eight)})
  {
    hide LookAnTable, EstimateBits, DigitsEnd, AlnumEnd, LengthIndicator, SwitchCost;
  }

  // ----- The eaters: each appends one entry, the front of the string, and says how long it is

  method Eat8(s: Bytes, input: QRInput, hint: Mode) returns (run: nat)
    requires input.Valid() && CString(s) && s != []
    modifies input`entries
    ensures input.Valid() && run == EightChoice(s, input.version, hint).run
    ensures input.entries == old(input.entries) + [Entry(Eight, s[..run])]
  {
    hide LookAnTable, EstimateBits, DigitsEnd, AlnumEnd, EightEnd, IdentifyMode, LengthIndicator;
    var la := LengthIndicator(An, input.version);
    var ln := LengthIndicator(Num, input.version);
    var l8 := LengthIndicator(Eight, input.version);
    var p, q, swcost, dif := 1, 0, 0, 0;
    while At(s, p) != 0
      invariant 1 <= p <= |s| && input.entries == old(input.entries)
      invariant EightEnd(s, 1, input.version, hint) == EightEnd(s, p, input.version, hint)
      decreases |s| - p
    {
      EightStep(s, p, input.version, hint);
      var mode := IdentifyMode(s, p, hint);
      if mode == Some(Kanji) {
        break;
      }
      if mode == Some(Num) {
        q := ScanDigits(s, p);
        swcost := if IdentifyMode(s, q, hint) == Some(Eight) then 4 + l8 else 0;
        dif := EstimateBits(Eight, p) + EstimateBits(Num, q - p) + 4 + ln + swcost - EstimateBits(Eight, q);
        if dif < 0 {
          break;
        } else {
          p := q;
        }
      } else if mode == Some(An) {
        q := ScanAlnum(s, p);
        swcost := if IdentifyMode(s, q, hint) == Some(Eight) then 4 + l8 else 0;
        dif := EstimateBits(Eight, p) + EstimateBits(An, q - p) + 4 + la + swcost - EstimateBits(Eight, q);
        if dif < 0 {
          break;
        } else {
          p := q;
        }
      } else {
        p := p + 1;
      }
    }
    EightStep(s, p, input.version, hint);
    run := p;
    var ok := input.Append(Eight, s[..run]);
    assert ok;
  }

  method EatAn(s: Bytes, input: QRInput, hint: Mode) returns (run: nat)
    requires input.Valid() && CString(s) && AnStart(s, input.version)
    modifies input`entries
    ensures var c := AnChoice(s, input.version, hint);
      input.Valid() && run == c.run && input.entries == old(input.entries) + [Entry(c.mode, s[..run])]
  {
    hide LookAnTable, EstimateBits;
    NulIsNoCharacter();
    var la := LengthIndicator(An, input.version);
    var ln := LengthIndicator(Num, input.version);
    var p, q, dif := 0, 0, 0;
    while IsAlnum(At(s, p))
      invariant 0 <= p <= |s| && input.entries == old(input.entries)
      invariant AnEnd(s, 0, input.version) == AnEnd(s, p, input.version)
      decreases |s| - p
    {
      if Digit(At(s, p)) {
        q := ScanDigits(s, p);
        dif := EstimateBits(An, p) + EstimateBits(Num, q - p) + 4 + ln
               + (if IsAlnum(At(s, q)) then 4 + ln else 0)
               - EstimateBits(An, q);
        if dif < 0 {
          break;
        } else {
          p := q;
        }
      } else {
        p := p + 1;
      }
    }
    run := p;
    AnNotEmpty(s, input.version);
    if At(s, p) != 0 && !IsAlnum(At(s, p)) {
      dif := EstimateBits(An, run) + 4 + la + EstimateBits(Eight, 1) - EstimateBits(Eight, run + 1);
      if dif > 0 {
        run := Eat8(s, input, hint);
        return;
      }
    }
    var ok := input.Append(An, s[..run]);
    assert ok;
  }

  method EatNum(s: Bytes, input: QRInput, hint: Mode) returns (run: nat)
    requires input.Valid() && CString(s) && s != [] && Digit(s[0])
    modifies input`entries
    ensures var c := NumChoice(s, input.version, hint);
      input.Valid() && run == c.run && input.entries == old(input.entries) + [Entry(c.mode, s[..run])]
  {
    hide LookAnTable;
    var ln := LengthIndicator(Num, input.version);
    run := ScanDigits(s, 0);
    var mode := IdentifyMode(s, run, hint);
    var dif;
    if mode == Some(Eight) {
      dif := EstimateBits(Num, run) + 4 + ln + EstimateBits(Eight, 1) - EstimateBits(Eight, run + 1);
      if dif > 0 {
        run := Eat8(s, input, hint);
        return;
      }
    }
    if mode == Some(An) {
      dif := EstimateBits(Num, run) + 4 + ln + EstimateBits(An, 1) - EstimateBits(An, run + 1);
      if dif > 0 {
        DigitsAreAlnum(s, 0, run);
        run := EatAn(s, input, hint);
        return;
      }
    }
    var ok := input.Append(Num, s[..run]);
    assert ok;
  }

  method EatKanji(s: Bytes, input: QRInput, hint: Mode) returns (run: nat)
    requires input.Valid() && CString(s) && hint == Kanji && IdentifyMode(s, 0, hint) == Some(Kanji)
    modifies input`entries
    ensures input.Valid() && run == KanjiEnd(s, 0, hint)
    ensures input.entries == old(input.entries) + [Entry(Kanji, s[..run])]
  {
    hide LookAnTable;
    var p := 0;
    while IdentifyMode(s, p, hint) == Some(Kanji)
      invariant 0 <= p <= |s|
      invariant KanjiEnd(s, 0, hint) == KanjiEnd(s, p, hint)
      decreases |s| - p
    {
      p := p + 2;
    }
    run := p;
    ghost var data := s[..run];
    forall i | 0 <= i < |data| / 2 ensures KanjiValue(data[2 * i], data[2 * i + 1]) {
      assert KanjiAt(s, 2 * i);
    }
    var ok := input.Append(Kanji, s[..run]);
    assert ok;
  }

  // ----- The whole string

  /** The data of entries, one after the other. */
  function Joined(es: seq<Entry>): Bytes {
    if es == [] then [] else es[0].data + Joined(es[1..])
  }

  /** Nothing of the string is lost. */
  lemma {:induction false} CutJoins(s: Bytes, version: Version, hint: Mode)
    requires CString(s)
    ensures Joined(Cut(s, version, hint)) == s
    decreases |s|
  {
    hide FirstChoice, IdentifyMode;
    if s != [] {
      var c := FirstChoice(s, version, hint);
      var rest := Cut(s[c.run..], version, hint);
      CutJoins(s[c.run..], version, hint);
      assert ([Entry(c.mode, s[..c.run])] + rest)[1..] == rest;
      assert s == s[..c.run] + s[c.run..];
    }
  }

  /** Split_splitString. */
  method SplitString(s: Bytes, input: QRInput, hint: Mode)
    requires input.Valid() && CString(s)
    modifies input`entries
    ensures input.Valid() && input.entries == old(input.entries) + Cut(s, input.version, hint)
    decreases |s|
  {
    hide IdentifyMode, NumChoice, AnChoice, EightChoice, KanjiEnd, Cut, Digit, IsAlnum, AnStart;
    if At(s, 0) == 0 {
      AnAtStart(s, input.version, hint);
      return;
    }
    var length;
    var mode := IdentifyMode(s, 0, hint);
    AnAtStart(s, input.version, hint);
    if mode == Some(Num) {
      length := EatNum(s, input, hint);
    } else if mode == Some(An) {
      length := EatAn(s, input, hint);
    } else if mode == Some(Kanji) && hint == Kanji {
      length := EatKanji(s, input, hint);
    } else {
      length := Eat8(s, input, hint);
    }
    if length == 0 {
      return;
    }
    ghost var first, rest := input.entries, Cut(s[length..], input.version, hint);
    SplitString(s[length..], input, hint);
    assert input.entries == first + rest;
    CutFirst(s, input.version, hint, old(input.entries), first, length);
  }

  lemma AnAtStart(s: Bytes, version: Version, hint: Mode)
    ensures IdentifyMode(s, 0, hint) == Some(An) ==> AnStart(s, version)
    ensures IdentifyMode(s, 0, hint) == Some(Num) ==> s != [] && Digit(s[0])
    ensures CString(s) ==> Cut([], version, hint) == []
  {
  }

  lemma CutFirst(s: Bytes, version: Version, hint: Mode, before: seq<Entry>, first: seq<Entry>, run: nat)
    requires CString(s) && s != []
    requires var c := FirstChoice(s, version, hint); run == c.run && first == before + [Entry(c.mode, s[..run])]
    ensures first + Cut(s[run..], version, hint) == before + Cut(s, version, hint)
  {
    hide FirstChoice;
  }

  // ----- Kanji along the string

  /** Where the scan finds a Kanji, its trail byte can be recovered by a reader. */
  predicate KanjiTrails(s: Bytes, hint: Mode) {
    if s == [] then true
    else if IdentifyMode(s, 0, hint) == Some(Kanji) then s[1] >= 0x40 && KanjiTrails(s[2..], hint)
    else KanjiTrails(s[1..], hint)
  }

  /** No Kanji is found from place p to place e. */
  predicate Plain(s: Bytes, p: nat, e: nat, hint: Mode) {
    forall i | p <= i < e :: IdentifyMode(s, i, hint) != Some(Kanji)
  }

  lemma IdentifyFrom(s: Bytes, p: nat, hint: Mode)
    requires p <= |s|
    ensures IdentifyMode(s[p..], 0, hint) == IdentifyMode(s, p, hint)
  {
    assert At(s[p..], 0) == At(s, p) && At(s[p..], 1) == At(s, p + 1);
  }

  lemma {:induction false} SkipPlain(s: Bytes, p: nat, e: nat, hint: Mode)
    requires p <= e <= |s| && Plain(s, p, e, hint)
    ensures KanjiTrails(s[p..], hint) <==> KanjiTrails(s[e..], hint)
    decreases e - p
  {
    hide IdentifyMode;
    if p < e {
      IdentifyFrom(s, p, hint);
      assert s[p..][1..] == s[p + 1..];
      SkipPlain(s, p + 1, e, hint);
    }
  }

  lemma {:induction false} SkipKanji(s: Bytes, p: nat, hint: Mode)
    requires p <= |s|
    ensures var e := KanjiEnd(s, p, hint);
      KanjiTrails(s[p..], hint) <==> ClearTrails(Kanji, s[p..e]) && KanjiTrails(s[e..], hint)
    decreases |s| - p
  {
    hide IdentifyMode, LookAnTable;
    var e := KanjiEnd(s, p, hint);
    if IdentifyMode(s, p, hint) == Some(Kanji) {
      IdentifyFrom(s, p, hint);
      assert s[p..][2..] == s[p + 2..] && s[p..][1] == s[p + 1];
      SkipKanji(s, p + 2, hint);
      TrailsParts(Kanji, s[p..e], 2);
      assert s[p..e][..2] == s[p..p + 2] && s[p..e][2..] == s[p + 2..e];
      OneTrail(s[p..p + 2]);
    }
  }

  lemma OneTrail(g: Bytes)
    requires |g| == 2
    ensures ClearTrails(Kanji, g) <==> g[1] >= 0x40
  {
  }

  lemma AlnumPlain(s: Bytes, p: nat, e: nat, hint: Mode)
    requires p <= e <= |s| && forall i | p <= i < e :: IsAlnum(s[i])
    ensures Plain(s, p, e, hint)
  {
    hide LookAnTable;
    forall i | p <= i < e ensures IdentifyMode(s, i, hint) != Some(Kanji) {
      assert IsAlnum(s[i]);
    }
  }

  lemma {:induction false} EightPlain(s: Bytes, p: nat, version: Version, hint: Mode)
    requires CString(s) && p <= |s|
    ensures Plain(s, p, EightEnd(s, p, version, hint), hint)
    decreases |s| - p
  {
    hide LookAnTable, EstimateBits, DigitsEnd, AlnumEnd;
    var mode := IdentifyMode(s, p, hint);
    if mode == Some(Num) {
      DigitsAreAlnum(s, p, DigitsEnd(s, p));
      AlnumPlain(s, p, DigitsEnd(s, p), hint);
      EightPlain(s, DigitsEnd(s, p), version, hint);
    } else if mode == Some(An) {
      AlnumPlain(s, p, AlnumEnd(s, p), hint);
      EightPlain(s, AlnumEnd(s, p), version, hint);
    } else if mode == Some(Eight) {
      EightPlain(s, p + 1, version, hint);
    }
  }

  /** The first segment is either a run of Kanji, or there is no Kanji in it. */
  lemma FirstPlain(s: Bytes, version: Version, hint: Mode)
    requires CString(s) && s != []
    ensures var c := FirstChoice(s, version, hint);
      if c.mode == Kanji then c.run == KanjiEnd(s, 0, hint) else Plain(s, 0, c.run, hint)
  {
    hide LookAnTable, EstimateBits, IdentifyMode, EightEnd, AnEnd, DigitsEnd, IsAlnum;
    EightPlain(s, 1, version, hint);
    assert IdentifyMode(s, 0, hint) != Some(Kanji) ==> Plain(s, 0, EightEnd(s, 1, version, hint), hint);
    AlnumPlain(s, 0, AnEnd(s, 0, version), hint);
    DigitsAreAlnum(s, 0, DigitsEnd(s, 0));
    AlnumPlain(s, 0, DigitsEnd(s, 0), hint);
  }

  /** All Kanji of the segments can be recovered exactly if the scan finds none with a small trail byte. */
  lemma {:induction false} CutClear(s: Bytes, version: Version, hint: Mode)
    requires CString(s)
    ensures AllClear(Cut(s, version, hint)) <==> KanjiTrails(s, hint)
    decreases |s|
  {
    hide FirstChoice, IdentifyMode, KanjiTrails, ClearTrails;
    if s == [] {
      NoTrails(hint);
    } else {
      var c := FirstChoice(s, version, hint);
      var rest := Cut(s[c.run..], version, hint);
      FirstPlain(s, version, hint);
      CutClear(s[c.run..], version, hint);
      AllClearFirst(Entry(c.mode, s[..c.run]), rest);
      assert s[0..] == s && s[0..c.run] == s[..c.run];
      if c.mode == Kanji {
        SkipKanji(s, 0, hint);
      } else {
        SkipPlain(s, 0, c.run, hint);
        NotKanji(c.mode, s[..c.run]);
      }
    }
  }

  /** A string that is encoded as a Kanji, and read as another one. */
  lemma KanjiMayChange(version: Version)
    ensures var s: Bytes := [0x82, 0x20];
      && Cut(s, version, Kanji) == [Entry(Kanji, s)] && !KanjiTrails(s, Kanji)
      && Joined(AsRead(Cut(s, version, Kanji))) == [0x82, 0x60]
  {
    var s: Bytes := [0x82, 0x20];
    assert KanjiEnd(s, 2, Kanji) == 2;
    assert FirstChoice(s, version, Kanji) == Choice(Kanji, 2);
    assert s[..2] == s && s[2..] == [];
    var e := Entry(Kanji, s);
    assert Group(Kanji, s) && GroupRead(Kanji, s) == [0x82, 0x60];
    assert DataRead(Kanji, s) == [0x82, 0x60] + [];
    assert AsRead([e]) == [EntryRead(e)];
    assert [EntryRead(e)][1..] == [];
  }

  lemma NoTrails(hint: Mode)
    ensures KanjiTrails([], hint) && AllClear([])
  {
  }

  lemma NotKanji(mode: Mode, data: Bytes)
    requires mode != Kanji
    ensures ClearTrails(mode, data)
  {
  }

  lemma AllClearFirst(e: Entry, es: seq<Entry>)
    ensures AllClear([e] + es) <==> ClearTrails(e.mode, e.data) && AllClear(es)
  {
    hide ClearTrails;
    var all := [e] + es;
    assert all[0] == e;
    assert forall i | 0 <= i < |es| :: es[i] == all[i + 1];
    assert forall i | 1 <= i < |all| :: all[i] == es[i - 1];
  }

  // ----- Case

  function UpperCase(c: Byte): Byte {
    if 0x61 <= c <= 0x7A then c - 32 else c
  }

  /** Letters in capitals, but for the bytes of Kanji. */
  function Upper(s: Bytes, hint: Mode): (r: Bytes)
    ensures |r| == |s|
  {
    if s == [] then []
    else if IdentifyMode(s, 0, hint) == Some(Kanji) then s[..2] + Upper(s[2..], hint)
    else [UpperCase(s[0])] + Upper(s[1..], hint)
  }

  /** dupAndToUpper, in the copy of the string. */
  method DupAndToUpper(s: Bytes, hint: Mode) returns (newstr: Bytes)
    requires CString(s)
    ensures newstr == Upper(s, hint)
  {
    hide LookAnTable, IdentifyMode, Upper;
    newstr := s;
    var p := 0;
    ghost var done: Bytes, rest := [], s;
    UpperNext(s, hint);
    while At(newstr, p) != 0
      invariant p == |done| && newstr == done + rest
      invariant |newstr| == |s| && CString(rest)
      invariant Upper(s, hint) == done + Upper(rest, hint)
      decreases |s| - p
    {
      SameSuffix(done, rest, hint);
      UpperNext(rest, hint);
      var mode := IdentifyMode(newstr, p, hint);
      if mode == Some(Kanji) {
        TakeTwo(done, rest);
        done, rest := done + rest[..2], rest[2..];
        p := p + 2;
      } else {
        var c := newstr[p];
        ReplaceFirst(done, rest, UpperCase(c));
        if 0x61 <= c <= 0x7A {
          newstr := newstr[p := c - 32];
        }
        done, rest := done + [UpperCase(c)], rest[1..];
        p := p + 1;
      }
    }
    SameSuffix(done, rest, hint);
    UpperNext([], hint);
  }

  lemma ReplaceFirst(done: Bytes, rest: Bytes, c: Byte)
    requires rest != []
    ensures (done + rest)[|done| := c] == (done + [c]) + rest[1..]
    ensures done + rest == (done + [rest[0]]) + rest[1..]
  {
  }

  lemma TakeTwo(done: Bytes, rest: Bytes)
    requires |rest| >= 2
    ensures done + rest == (done + rest[..2]) + rest[2..]
  {
  }

  lemma UpperNext(s: Bytes, hint: Mode)
    ensures Upper([], hint) == []
    ensures s != [] && IdentifyMode(s, 0, hint) == Some(Kanji) ==>
      |s| >= 2 && Upper(s, hint) == s[..2] + Upper(s[2..], hint)
    ensures s != [] && IdentifyMode(s, 0, hint) != Some(Kanji) ==>
      Upper(s, hint) == [UpperCase(s[0])] + Upper(s[1..], hint)
  {
    hide LookAnTable;
  }

  lemma SameSuffix(done: Bytes, rest: Bytes, hint: Mode)
    ensures var a, p := done + rest, |done|;
      && IdentifyMode(a, p, hint) == IdentifyMode(rest, 0, hint)
      && (p < |a| <==> rest != [])
      && (p < |a| ==> a[p] == rest[0])
  {
    var a, p := done + rest, |done|;
    assert At(a, p) == At(rest, 0) && At(a, p + 1) == At(rest, 1);
  }

  /** Capitals make no new Kanji and spoil none. */
  lemma {:induction false} UpperTrails(s: Bytes, hint: Mode)
    ensures KanjiTrails(Upper(s, hint), hint) <==> KanjiTrails(s, hint)
  {
    hide LookAnTable, IdentifyMode;
    if s != [] {
      var u := Upper(s, hint);
      UpperNext(s, hint);
      UpperKeepsKanji(s, hint);
      if IdentifyMode(s, 0, hint) == Some(Kanji) {
        UpperTrails(s[2..], hint);
        assert u[2..] == Upper(s[2..], hint);
      } else {
        UpperTrails(s[1..], hint);
        assert u[1..] == Upper(s[1..], hint);
      }
    }
  }

  lemma UpperKeepsKanji(s: Bytes, hint: Mode)
    requires s != []
    ensures IdentifyMode(Upper(s, hint), 0, hint) == Some(Kanji) <==> IdentifyMode(s, 0, hint) == Some(Kanji)
  {
    hide Upper;
    UpperNext(s, hint);
    var u := Upper(s, hint);
    UpperAt(s, hint);
    if IdentifyMode(s, 0, hint) == Some(Kanji) {
      assert u[0] == s[0] && u[1] == s[1];
    } else {
      assert u[0] == UpperCase(s[0]);
      if |s| > 1 {
        assert u[1] == s[1] || u[1] == UpperCase(s[1]);
      }
    }
  }

  lemma {:induction false} UpperCString(s: Bytes, hint: Mode)
    requires CString(s)
    ensures CString(Upper(s, hint))
  {
    hide LookAnTable, IdentifyMode;
    UpperAt(s, hint);
  }

  lemma {:induction false} UpperAt(s: Bytes, hint: Mode)
    ensures forall i | 0 <= i < |s| :: Upper(s, hint)[i] == s[i] || Upper(s, hint)[i] == UpperCase(s[i])
  {
    hide LookAnTable, IdentifyMode;
    if s != [] {
      if IdentifyMode(s, 0, hint) == Some(Kanji) {
        UpperAt(s[2..], hint);
      } else {
        UpperAt(s[1..], hint);
      }
    }
  }

  /** Split_splitStringToQRinput: refuses the empty string only. */
  method SplitStringToQRInput(s: Bytes, input: QRInput, hint: Mode, caseSensitive: bool) returns (ok: bool)
    requires input.Valid() && input.entries == [] && CString(s)
    modifies input`entries
    ensures input.Valid() && (ok <==> s != [])
    ensures var t := if caseSensitive then s else Upper(s, hint);
      ok ==> CString(t) && input.entries == Cut(t, input.version, hint) && Joined(input.entries) == t
  {
    if At(s, 0) == 0 {
      return false;
    }
    if !caseSensitive {
      var newstr := DupAndToUpper(s, hint);
      UpperCString(s, hint);
      SplitString(newstr, input, hint);
      CutJoins(newstr, input.version, hint);
    } else {
      SplitString(s, input, hint);
      CutJoins(s, input.version, hint);
    }
    return true;
  }

  lemma {:induction false} JoinedIsTagged(es: seq<Entry>)
    ensures |Joined(es)| == |Tagged(es)|
    ensures forall i | 0 <= i < |Joined(es)| :: Joined(es)[i] == Tagged(es)[i].1
  {
    if es != [] {
      JoinedIsTagged(es[1..]);
    }
  }

  lemma {:induction false} AsReadModes(es: seq<Entry>)
    requires Good(es)
    ensures |Tagged(AsRead(es))| == |Tagged(es)|
    ensures forall i | 0 <= i < |Tagged(es)| :: Tagged(AsRead(es))[i].0 == Tagged(es)[i].0
  {
    hide GoodEntry, EntryRead;
    if es != [] {
      AsReadModes(es[1..]);
      assert AsRead(es)[1..] == AsRead(es[1..]);
    }
  }

  /** The bytes that were read are those of the entries exactly if every Kanji can be recovered. */
  lemma RecoveredData(es: seq<Entry>, read: seq<Entry>)
    requires Good(es) && Recovers(Some(read), es)
    ensures |Joined(read)| == |Joined(es)|
    ensures Joined(read) == Joined(es) <==> AllClear(es)
  {
    hide Tagged, Joined, AsRead, GoodEntry, AllClear;
    JoinedIsTagged(es);
    JoinedIsTagged(read);
    AsReadModes(es);
    if Joined(read) == Joined(es) {
      forall i | 0 <= i < |Tagged(es)| ensures Tagged(read)[i] == Tagged(es)[i] {
        assert Joined(read)[i] == Joined(es)[i];
      }
      assert Tagged(read) == Tagged(es);
    }
  }
}
