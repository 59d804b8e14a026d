/** Signature hashes: the string that is signed, the memo of its parts, and what a signature commits to
    (BIP143, "Specification", for inputs with a witness). */
module SigHash {
  import opened Bytes
  import opened Wire
  import opened TxFormat

  const SIGHASH_ALL: UInt32 := 1

  // ----- The strings that are hashed

  function OutPointOf(i: TxIn): Bytes {
    WriteOutPoint(i.previousOut)
  }

  function SequenceOf(i: TxIn): Bytes {
    LE32(i.sequence)
  }

  function Prevouts(tx: Tx): Bytes {
    Written(OutPointOf, tx.inputs)
  }

  function Sequences(tx: Tx): Bytes {
    Written(SequenceOf, tx.inputs)
  }

  function Outputs(tx: Tx): Bytes {
    Written(WriteTxOut, tx.outputs)
  }

  /** The memo of the three sub-hashes; an empty string is one not yet computed. */
  datatype Memo = Memo(prevouts: Bytes, sequence: Bytes, outputs: Bytes)

  const EMPTY_MEMO := Memo([], [], [])

  function FilledMemo(h: HashFn, tx: Tx, m: Memo): Memo {
    Memo(if m.prevouts == [] then h(Prevouts(tx)) else m.prevouts,
         if m.sequence == [] then h(Sequences(tx)) else m.sequence,
         if m.outputs == [] then h(Outputs(tx)) else m.outputs)
  }

  function WitnessPreimage(tx: Tx, m: Memo, index: nat, script: Script, value: UInt64): Bytes
    requires index < |tx.inputs|
  {
    LE32(tx.version) + m.prevouts + m.sequence + WriteOutPoint(tx.inputs[index].previousOut)
      + VarBytes(script) + LE64(value) + LE32(tx.inputs[index].sequence) + m.outputs
      + LE32(tx.lockTime) + LE32(SIGHASH_ALL)
  }

  /** The copy that is signed for an input without witness: no scripts but the given one. */
  function LegacyCopy(tx: Tx, index: nat, script: Script): Tx {
    tx.(inputs := seq(|tx.inputs|, i requires 0 <= i < |tx.inputs| =>
      tx.inputs[i].(scriptSig := if i == index then script else [])))
  }

  function LegacyPreimage(tx: Tx, index: nat, script: Script): Bytes {
    WriteTx(LegacyCopy(tx, index, script), false) + LE32(SIGHASH_ALL)
  }

  datatype SigError = IndexOutOfRange | UnsupportedHashType
  datatype SigResult = Refused(error: SigError) | Digest(digest: Bytes)

  /** What the program computes, given the memo it holds; and the memo it holds afterwards. */
  function MemoSigHash(h: HashFn, tx: Tx, m: Memo, hashType: UInt32, index: nat, script: Script,
                       value: UInt64): (SigResult, Memo)
  {
    if index >= |tx.inputs| then (Refused(IndexOutOfRange), m)
    else if hashType != SIGHASH_ALL then (Refused(UnsupportedHashType), m)
    else if tx.inputs[index].scriptWitness == [] then (Digest(h(LegacyPreimage(tx, index, script))), m)
    else
      var m' := FilledMemo(h, tx, m);
      (Digest(h(WitnessPreimage(tx, m', index, script, value))), m')
  }

  /** The definition: an input without witness signs the whole transaction with the given script in its
      place and no other, and an input with witness signs the BIP143 string, every sub-hash computed afresh. */
  function ReferenceSigHash(h: HashFn, tx: Tx, hashType: UInt32, index: nat, script: Script, value: UInt64): SigResult {
    if index >= |tx.inputs| then Refused(IndexOutOfRange)
    else if hashType != SIGHASH_ALL then Refused(UnsupportedHashType)
    else if tx.inputs[index].scriptWitness == [] then Digest(h(LegacyPreimage(tx, index, script)))
    else Digest(h(WitnessPreimage(tx, SubHashes(h, tx), index, script, value)))
  }

  function SubHashes(h: HashFn, tx: Tx): Memo {
    Memo(h(Prevouts(tx)), h(Sequences(tx)), h(Outputs(tx)))
  }

  // ----- The memo along a run

  /** Every sub-hash that is remembered is that of the transaction as it is now. */
  ghost predicate Coherent(h: HashFn, tx: Tx, m: Memo) {
    FilledMemo(h, tx, m) == SubHashes(h, tx)
  }

  lemma CoherentSigHash(h: HashFn, tx: Tx, m: Memo, hashType: UInt32, index: nat, script: Script, value: UInt64)
    requires Coherent(h, tx, m)
    ensures var (r, m') := MemoSigHash(h, tx, m, hashType, index, script, value);
      r == ReferenceSigHash(h, tx, hashType, index, script, value) && Coherent(h, tx, m')
  {
  }

  /** What can be done to a transaction object. Every field is public, so that an edit may leave any
      transaction behind; the memo is touched only by signing and by resetSigHash. */
  datatype Op =
    | SetScriptSig(index: nat, script: Script)
    | ClearScriptSigs
    | SetWitness(index: nat, stack: Stack)
    | Edit(tx: Tx)
    | Reset
    | Sign(hashType: UInt32, index: nat, script: Script, value: UInt64)

  datatype State = State(tx: Tx, memo: Memo)

  function WithInput(tx: Tx, index: nat, i: TxIn): Tx
    requires index < |tx.inputs|
  {
    tx.(inputs := tx.inputs[index := i])
  }

  function WithoutScripts(tx: Tx): Tx {
    tx.(inputs := seq(|tx.inputs|, i requires 0 <= i < |tx.inputs| => tx.inputs[i].(scriptSig := [])))
  }

  function Step(h: HashFn, s: State, op: Op): State {
    match op
    case SetScriptSig(i, script) =>
      if i < |s.tx.inputs| then s.(tx := WithInput(s.tx, i, s.tx.inputs[i].(scriptSig := script))) else s
    case ClearScriptSigs => s.(tx := WithoutScripts(s.tx))
    case SetWitness(i, stack) =>
      if i < |s.tx.inputs| then s.(tx := WithInput(s.tx, i, s.tx.inputs[i].(scriptWitness := stack))) else s
    case Edit(tx) => s.(tx := tx)
    case Reset => s.(memo := EMPTY_MEMO)
    case Sign(t, i, script, v) => s.(memo := MemoSigHash(h, s.tx, s.memo, t, i, script, v).1)
  }

  function Run(h: HashFn, s: State, ops: seq<Op>): State
    decreases |ops|
  {
    if ops == [] then s else Run(h, Step(h, s, ops[0]), ops[1..])
  }

  /** Nothing is signed between an edit and the next reset. */
  predicate Disciplined(ops: seq<Op>, edited: bool) {
    ops == [] ||
    match ops[0]
    case Edit(_) => Disciplined(ops[1..], true)
    case Reset => Disciplined(ops[1..], false)
    case Sign(_, _, _, _) => !edited && Disciplined(ops[1..], edited)
    case _ => Disciplined(ops[1..], edited)
  }

  /** Every digest that the run hands out is the one the definition gives. */
  ghost predicate AllDigestsCorrect(h: HashFn, s: State, ops: seq<Op>)
    decreases |ops|
  {
    ops == [] ||
    ((ops[0].Sign? ==>
        MemoSigHash(h, s.tx, s.memo, ops[0].hashType, ops[0].index, ops[0].script, ops[0].value).0
        == ReferenceSigHash(h, s.tx, ops[0].hashType, ops[0].index, ops[0].script, ops[0].value))
     && AllDigestsCorrect(h, Step(h, s, ops[0]), ops[1..]))
  }

  /** Signature scripts and witnesses are not part of the sub-hashes. */
  lemma {:induction false} SameParts(a: TxIns, b: TxIns)
    requires |a| == |b|
    requires forall i :: 0 <= i < |a| ==> a[i].previousOut == b[i].previousOut && a[i].sequence == b[i].sequence
    ensures Written(OutPointOf, a) == Written(OutPointOf, b)
    ensures Written(SequenceOf, a) == Written(SequenceOf, b)
  {
    if a != [] {
      SameParts(a[1..], b[1..]);
    }
  }

  lemma StepKeepsCoherence(h: HashFn, s: State, op: Op)
    requires !op.Edit? && (!op.Reset? ==> Coherent(h, s.tx, s.memo))
    ensures var s' := Step(h, s, op); Coherent(h, s'.tx, s'.memo)
  {
    hide Coherent, MemoSigHash;
    match op
    case Reset => NothingCoherent(h, s.tx);
    case Sign(t, i, script, v) => CoherentSigHash(h, s.tx, s.memo, t, i, script, v);
    case _ => SameCoherence(h, s.tx, Step(h, s, op).tx, s.memo);
  }

  lemma NothingCoherent(h: HashFn, tx: Tx)
    ensures Coherent(h, tx, EMPTY_MEMO)
  {
  }

  lemma SameCoherence(h: HashFn, a: Tx, b: Tx, m: Memo)
    requires a.outputs == b.outputs && |a.inputs| == |b.inputs|
    requires forall i :: 0 <= i < |a.inputs| ==>
      a.inputs[i].previousOut == b.inputs[i].previousOut && a.inputs[i].sequence == b.inputs[i].sequence
    requires Coherent(h, a, m)
    ensures Coherent(h, b, m)
  {
    hide Written;
    SameParts(a.inputs, b.inputs);
  }

  /** Along every disciplined run from a fresh object, however many signatures and resets it has. */
  lemma {:induction false} RunCorrect(h: HashFn, s: State, ops: seq<Op>, edited: bool)
    requires Disciplined(ops, edited)
    requires edited || Coherent(h, s.tx, s.memo)
    ensures AllDigestsCorrect(h, s, ops)
    decreases |ops|
  {
    if ops != [] {
      var op := ops[0];
      if op.Edit? {
        RunCorrect(h, Step(h, s, op), ops[1..], true);
      } else if !edited || op.Reset? {
        StepKeepsCoherence(h, s, op);
        RunCorrect(h, Step(h, s, op), ops[1..], false);
      } else {
        RunCorrect(h, Step(h, s, op), ops[1..], true);
      }
    }
  }

  /** A digest made from a memo is right exactly if the memo is, unless it is a collision. */
  lemma MemoCorrectIff(h: HashFn, tx: Tx, m: Memo, index: nat, script: Script, value: UInt64)
    requires index < |tx.inputs| && tx.inputs[index].scriptWitness != []
    requires forall part :: part in {m.prevouts, m.sequence, m.outputs} ==> |part| in {0, 32}
    ensures var right := WitnessPreimage(tx, SubHashes(h, tx), index, script, value);
      var used := WitnessPreimage(tx, FilledMemo(h, tx, m), index, script, value);
      MemoSigHash(h, tx, m, SIGHASH_ALL, index, script, value).0
        == ReferenceSigHash(h, tx, SIGHASH_ALL, index, script, value)
      <==> Coherent(h, tx, m) || Collision(h, right, used)
  {
    var good, held := SubHashes(h, tx), FilledMemo(h, tx, m);
    var right := WitnessPreimage(tx, good, index, script, value);
    var used := WitnessPreimage(tx, held, index, script, value);
    if right == used {
      PreimageParts(tx, good, index, script, value);
      PreimageParts(tx, held, index, script, value);
    }
  }

  ghost predicate MemoOfHashes(m: Memo) {
    |m.prevouts| == |m.sequence| == |m.outputs| == 32
  }

  /** Where the parts of the signed string stand. */
  lemma PreimageParts(tx: Tx, m: Memo, index: nat, script: Script, value: UInt64)
    requires index < |tx.inputs| && MemoOfHashes(m)
    ensures var s := WitnessPreimage(tx, m, index, script, value);
      var n := |VarBytes(script)|;
      && |s| == 156 + n
      && s[..4] == LE32(tx.version) && s[4..36] == m.prevouts && s[36..68] == m.sequence
      && s[68..104] == WriteOutPoint(tx.inputs[index].previousOut)
      && ReadVarBytes(s[104..]) == Some(script)
      && s[104 + n..112 + n] == LE64(value) && s[112 + n..116 + n] == LE32(tx.inputs[index].sequence)
      && s[116 + n..148 + n] == m.outputs && s[148 + n..152 + n] == LE32(tx.lockTime) && s[152 + n..] == [1, 0, 0, 0]
  {
    hide VarBytes, ReadVarBytes, WriteOutPoint, LE32, LE64;
    var s := WitnessPreimage(tx, m, index, script, value);
    var version, outPoint, code := LE32(tx.version), WriteOutPoint(tx.inputs[index].previousOut), VarBytes(script);
    var amount, sequence := LE64(value), LE32(tx.inputs[index].sequence);
    var lockTime, hashType := LE32(tx.lockTime), LE32(SIGHASH_ALL);
    var tail := amount + sequence + m.outputs + lockTime + hashType;
    TenParts(version, m.prevouts, m.sequence, outPoint, code, amount, sequence, m.outputs, lockTime, hashType);
    HeadParts(version, m.prevouts, m.sequence, outPoint, code + tail);
    TailParts(version + m.prevouts + m.sequence + outPoint + code, amount, sequence, m.outputs, lockTime, hashType);
    ReadVarBytesAhead(script, tail);
    HashTypeBytes();
  }

  lemma HashTypeBytes()
    ensures LE32(SIGHASH_ALL) == [1, 0, 0, 0]
  {
    assert LE(0, 0) == [] && LE(0, 1) == [0] && LE(0, 2) == [0, 0] && LE(0, 3) == [0, 0, 0];
  }

  lemma TenParts(a: Bytes, b: Bytes, c: Bytes, d: Bytes, e: Bytes, f: Bytes, g: Bytes, i: Bytes, j: Bytes, k: Bytes)
    ensures a + b + c + d + e + f + g + i + j + k == (a + b + c + d) + (e + (f + g + i + j + k))
    ensures a + b + c + d + e + f + g + i + j + k == (a + b + c + d + e) + (f + g + i + j + k)
  {
  }

  lemma HeadParts(a: Bytes, b: Bytes, c: Bytes, d: Bytes, rest: Bytes)
    requires |a| == 4 && |b| == 32 && |c| == 32 && |d| == 36
    ensures var s := (a + b + c + d) + rest;
      s[..4] == a && s[4..36] == b && s[36..68] == c && s[68..104] == d && s[104..] == rest
  {
  }

  lemma TailParts(before: Bytes, a: Bytes, b: Bytes, c: Bytes, d: Bytes, e: Bytes)
    requires |a| == 8 && |b| == 4 && |c| == 32 && |d| == 4
    ensures var s := before + (a + b + c + d + e);
      var n := |before|;
      s[n..n + 8] == a && s[n + 8..n + 12] == b && s[n + 12..n + 44] == c && s[n + 44..n + 48] == d
        && s[n + 48..] == e
  {
  }

  /** What discipline is for: a signature, an edit, and another signature without a reset. The second
      digest is right exactly if the edit kept all three sub-hashes, unless it is a collision. */
  lemma EditWithoutReset(h: HashFn, before: Tx, i: nat, script: Script, value: UInt64,
                         after: Tx, j: nat, script': Script, value': UInt64)
    requires i < |before.inputs| && before.inputs[i].scriptWitness != []
    requires j < |after.inputs| && after.inputs[j].scriptWitness != []
    ensures var s := Run(h, State(before, EMPTY_MEMO), [Sign(SIGHASH_ALL, i, script, value), Edit(after)]);
      var right := WitnessPreimage(after, SubHashes(h, after), j, script', value');
      var used := WitnessPreimage(after, SubHashes(h, before), j, script', value');
      s.tx == after &&
      (MemoSigHash(h, after, s.memo, SIGHASH_ALL, j, script', value').0
          == ReferenceSigHash(h, after, SIGHASH_ALL, j, script', value')
       <==> SubHashes(h, before) == SubHashes(h, after) || Collision(h, right, used))
  {
    var ops := [Sign(SIGHASH_ALL, i, script, value), Edit(after)];
    var s1 := Step(h, State(before, EMPTY_MEMO), ops[0]);
    var s2 := Step(h, s1, ops[1]);
    assert ops[1..] == [Edit(after)] && ops[1..][1..] == [];
    assert Run(h, s2, []) == s2;
    assert Run(h, s1, [Edit(after)]) == s2;
    MemoCorrectIff(h, after, s2.memo, j, script', value');
  }

  // ----- What a signature commits to

  lemma {:induction false} OutPointsInjective(a: TxIns, b: TxIns)
    requires Written(OutPointOf, a) == Written(OutPointOf, b)
    ensures |a| == |b| && forall i :: 0 <= i < |a| ==> a[i].previousOut == b[i].previousOut
  {
    if a != [] && b != [] {
      var (ra, rb) := (Written(OutPointOf, a[1..]), Written(OutPointOf, b[1..]));
      OutPointAhead(a[0].previousOut, ra);
      OutPointAhead(b[0].previousOut, rb);
      assert (OutPointOf(a[0]) + ra)[36..] == ra && (OutPointOf(b[0]) + rb)[36..] == rb;
      OutPointsInjective(a[1..], b[1..]);
      assert forall i :: 1 <= i < |a| ==> a[i] == a[1..][i - 1] && b[i] == b[1..][i - 1];
    }
  }

  lemma {:induction false} SequencesInjective(a: TxIns, b: TxIns)
    requires Written(SequenceOf, a) == Written(SequenceOf, b)
    ensures |a| == |b| && forall i :: 0 <= i < |a| ==> a[i].sequence == b[i].sequence
  {
    if a != [] && b != [] {
      var (ra, rb) := (Written(SequenceOf, a[1..]), Written(SequenceOf, b[1..]));
      assert LE32(a[0].sequence) == (SequenceOf(a[0]) + ra)[..4] == (SequenceOf(b[0]) + rb)[..4] == LE32(b[0].sequence);
      assert (SequenceOf(a[0]) + ra)[4..] == ra && (SequenceOf(b[0]) + rb)[4..] == rb;
      SequencesInjective(a[1..], b[1..]);
      assert forall i :: 1 <= i < |a| ==> a[i] == a[1..][i - 1] && b[i] == b[1..][i - 1];
    }
  }

  lemma {:induction false} OutputsInjective(a: TxOuts, b: TxOuts)
    requires Written(WriteTxOut, a) == Written(WriteTxOut, b)
    ensures a == b
  {
    if a != [] && b != [] {
      var (ra, rb) := (Written(WriteTxOut, a[1..]), Written(WriteTxOut, b[1..]));
      TxOutReadable(a[0]);
      TxOutReadable(b[0]);
      assert Some(a[0]) == ReadTxOut(WriteTxOut(a[0]) + ra) == ReadTxOut(WriteTxOut(b[0]) + rb) == Some(b[0]);
      var n := |WriteTxOut(a[0])|;
      assert (WriteTxOut(a[0]) + ra)[n..] == ra && (WriteTxOut(b[0]) + rb)[n..] == rb;
      OutputsInjective(a[1..], b[1..]);
      assert a == [a[0]] + a[1..] && b == [b[0]] + b[1..];
    }
  }

  /** Two transactions that spend the same outputs, in the same order, to the same ends. */
  ghost predicate SameEffect(a: Tx, b: Tx) {
    && a.version == b.version && a.lockTime == b.lockTime && a.outputs == b.outputs && |a.inputs| == |b.inputs|
    && forall i :: 0 <= i < |a.inputs| ==>
      a.inputs[i].previousOut == b.inputs[i].previousOut && a.inputs[i].sequence == b.inputs[i].sequence
  }

  /** The strings hashed for a signature of an input with witness. */
  function WitnessStrings(h: HashFn, tx: Tx, index: nat, script: Script, value: UInt64): set<Bytes>
    requires index < |tx.inputs|
  {
    {Prevouts(tx), Sequences(tx), Outputs(tx), WitnessPreimage(tx, SubHashes(h, tx), index, script, value)}
  }

  /** One digest for two inputs with witness: the transactions have the same effect, and the input, the
      script and the value are the same; or two of the strings that were hashed collide. */
  lemma WitnessSigHashBinds(h: HashFn, a: Tx, i: nat, scriptA: Script, valueA: UInt64,
                            b: Tx, j: nat, scriptB: Script, valueB: UInt64) returns (x: Bytes, y: Bytes)
    requires i < |a.inputs| && j < |b.inputs| && a.inputs[i].scriptWitness != [] && b.inputs[j].scriptWitness != []
    requires ReferenceSigHash(h, a, SIGHASH_ALL, i, scriptA, valueA)
      == ReferenceSigHash(h, b, SIGHASH_ALL, j, scriptB, valueB)
    ensures
      || (Collision(h, x, y) && x in WitnessStrings(h, a, i, scriptA, valueA)
        && y in WitnessStrings(h, b, j, scriptB, valueB))
      || (SameEffect(a, b) && scriptA == scriptB && valueA == valueB
          && a.inputs[i].previousOut == b.inputs[j].previousOut && a.inputs[i].sequence == b.inputs[j].sequence)
  {
    hide WriteOutPoint, Written, WitnessPreimage, VarBytes, ReadVarBytes;
    var ma, mb := SubHashes(h, a), SubHashes(h, b);
    x, y := WitnessPreimage(a, ma, i, scriptA, valueA), WitnessPreimage(b, mb, j, scriptB, valueB);
    if x == y {
      PreimageParts(a, ma, i, scriptA, valueA);
      PreimageParts(b, mb, j, scriptB, valueB);
      OutPointAhead(a.inputs[i].previousOut, []);
      OutPointAhead(b.inputs[j].previousOut, []);
      if Prevouts(a) != Prevouts(b) {
        x, y := Prevouts(a), Prevouts(b);
      } else if Sequences(a) != Sequences(b) {
        x, y := Sequences(a), Sequences(b);
      } else if Outputs(a) != Outputs(b) {
        x, y := Outputs(a), Outputs(b);
      } else {
        OutPointsInjective(a.inputs, b.inputs);
        SequencesInjective(a.inputs, b.inputs);
        OutputsInjective(a.outputs, b.outputs);
        assert WriteOutPoint(a.inputs[i].previousOut) + [] == WriteOutPoint(a.inputs[i].previousOut);
        assert WriteOutPoint(b.inputs[j].previousOut) + [] == WriteOutPoint(b.inputs[j].previousOut);
      }
    }
  }

  /** Where the parts of the string signed for an input without witness stand: a reader of the format
      finds the transaction in front of the hash type, with the script in its place and no other. */
  lemma LegacyParts(tx: Tx, index: nat, script: Script)
    requires index < |tx.inputs|
    ensures var s := LegacyPreimage(tx, index, script);
      |s| >= 4 && s[|s| - 4..] == [1, 0, 0, 0] &&
      var signed := ReadTx(s);
      && signed.Some? && signed == ReadTx(s[..|s| - 4]) && SameEffect(tx, signed.value)
      && forall k :: 0 <= k < |tx.inputs| ==>
        signed.value.inputs[k].scriptSig == (if k == index then script else [])
        && signed.value.inputs[k].scriptWitness == []
  {
    hide ReadTx, WriteTx;
    var s, copy := LegacyPreimage(tx, index, script), LegacyCopy(tx, index, script);
    var written := WriteTx(copy, false);
    HashTypeBytes();
    TxRoundTrip(copy, false, LE32(SIGHASH_ALL));
    TxRoundTrip(copy, false, []);
    assert s[..|s| - 4] == written == written + [];
  }

  /** One digest for two inputs without witness, exactly if the transactions have the same effect and the
      script is the same, in the same place unless it is empty; or the two strings that were hashed
      collide. The value is not signed. */
  lemma LegacySigHashBinds(h: HashFn, a: Tx, i: nat, scriptA: Script, valueA: UInt64,
                           b: Tx, j: nat, scriptB: Script, valueB: UInt64)
    requires i < |a.inputs| && j < |b.inputs| && a.inputs[i].scriptWitness == [] && b.inputs[j].scriptWitness == []
    ensures
      ReferenceSigHash(h, a, SIGHASH_ALL, i, scriptA, valueA) == ReferenceSigHash(h, b, SIGHASH_ALL, j, scriptB, valueB)
      <==>
      || Collision(h, LegacyPreimage(a, i, scriptA), LegacyPreimage(b, j, scriptB))
      || (SameEffect(a, b) && scriptA == scriptB && (scriptA != [] ==> i == j))
  {
    hide ReadTx, WriteTx;
    if LegacyPreimage(a, i, scriptA) == LegacyPreimage(b, j, scriptB) {
      LegacyParts(a, i, scriptA);
      LegacyParts(b, j, scriptB);
    } else if SameEffect(a, b) && scriptA == scriptB && (scriptA != [] ==> i == j) {
      SameLegacyPreimage(a, i, b, j, scriptA);
    }
  }

  lemma SameLegacyPreimage(a: Tx, i: nat, b: Tx, j: nat, script: Script)
    requires SameEffect(a, b) && (script != [] ==> i == j)
    ensures LegacyPreimage(a, i, script) == LegacyPreimage(b, j, script)
  {
    hide WriteTxIn;
    var ca, cb := LegacyCopy(a, i, script), LegacyCopy(b, j, script);
    forall k | 0 <= k < |ca.inputs|
      ensures WriteTxIn(ca.inputs[k]) == WriteTxIn(cb.inputs[k])
    {
      SameWithoutWitness(ca.inputs[k], cb.inputs[k]);
    }
    SameWritten(ca.inputs, cb.inputs);
  }

  lemma SameWithoutWitness(i: TxIn, j: TxIn)
    requires WithoutWitness(i) == WithoutWitness(j)
    ensures WriteTxIn(i) == WriteTxIn(j)
  {
  }

  lemma {:induction false} SameWritten(a: TxIns, b: TxIns)
    requires |a| == |b| && forall k :: 0 <= k < |a| ==> WriteTxIn(a[k]) == WriteTxIn(b[k])
    ensures Written(WriteTxIn, a) == Written(WriteTxIn, b)
  {
    if a != [] {
      SameWritten(a[1..], b[1..]);
    }
  }

  /** No digest depends on the scripts that the inputs hold, so that a signature stays good when the
      signatures of the other inputs, or its own, are put in. */
  lemma ScriptSigsUnsigned(h: HashFn, tx: Tx, scripts: seq<Script>, hashType: UInt32, index: nat, script: Script,
                           value: UInt64)
    requires |scripts| == |tx.inputs|
    ensures ReferenceSigHash(h, WithScripts(tx, scripts), hashType, index, script, value)
      == ReferenceSigHash(h, tx, hashType, index, script, value)
  {
    hide WriteTx, Written;
    var edited := WithScripts(tx, scripts);
    if index < |tx.inputs| {
      SameLegacyPreimage(tx, index, edited, index, script);
      SameParts(tx.inputs, edited.inputs);
    }
  }

  function WithScripts(tx: Tx, scripts: seq<Script>): Tx
    requires |scripts| == |tx.inputs|
  {
    tx.(inputs := seq(|tx.inputs|, i requires 0 <= i < |tx.inputs| => tx.inputs[i].(scriptSig := scripts[i])))
  }
}
