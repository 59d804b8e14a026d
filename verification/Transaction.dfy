/** The transaction object: it is parsed into and edited in place, and remembers parts of its
    signature hash between calls. */
module Transaction {
  import opened Bytes
  import opened Wire
  import opened TxFormat
  import opened SigHash

  class Transaction {
    const sha256d: HashFn
    var version: UInt32
    var inputs: TxIns
    var outputs: TxOuts
    var lockTime: UInt32
    var hashPrevouts: Bytes
    var hashSequence: Bytes
    var hashOutputs: Bytes

    constructor (sha256d: HashFn)
      ensures this.sha256d == sha256d && AsState() == State(Tx(1, [], [], 0), EMPTY_MEMO)
    {
      this.sha256d := sha256d;
      version, inputs, outputs, lockTime := 1, [], [], 0;
      hashPrevouts, hashSequence, hashOutputs := [], [], [];
    }

    /** A copy has the same fields, and an empty memo. */
    constructor Copy(tx: Transaction)
      ensures this.sha256d == tx.sha256d && AsState() == State(tx.AsTx(), EMPTY_MEMO)
    {
      sha256d := tx.sha256d;
      version, inputs, outputs, lockTime := tx.version, tx.inputs, tx.outputs, tx.lockTime;
      hashPrevouts, hashSequence, hashOutputs := [], [], [];
    }

    function AsTx(): Tx
      reads this
    {
      Tx(version, inputs, outputs, lockTime)
    }

    function AsState(): State
      reads this
    {
      State(AsTx(), Memo(hashPrevouts, hashSequence, hashOutputs))
    }

    // ----- Serialisation

    method GetSize(bWithWitness: bool) returns (count: nat)
      ensures count == TxSize(AsTx(), bWithWitness)
    {
      count := 8;
      count := count + VarIntSize(|inputs|);
      count := count + VarIntSize(|outputs|);
      ghost var start := count;
      for i := 0 to |inputs|
        invariant count == start + SizeOf(TxInSize, inputs[..i])
      {
        SizeOfAppend(TxInSize, inputs[..i], inputs[i]);
        assert inputs[..i + 1] == inputs[..i] + [inputs[i]];
        count := count + TxInSize(inputs[i]);
      }
      assert inputs[..|inputs|] == inputs;
      start := count;
      for i := 0 to |outputs|
        invariant count == start + SizeOf(TxOutSize, outputs[..i])
      {
        SizeOfAppend(TxOutSize, outputs[..i], outputs[i]);
        assert outputs[..i + 1] == outputs[..i] + [outputs[i]];
        count := count + TxOutSize(outputs[i]);
      }
      assert outputs[..|outputs|] == outputs;
      if bWithWitness && HasWitness(AsTx()) {
        count := count + 2;
        start := count;
        for i := 0 to |inputs|
          invariant count == start + SizeOf(InWitnessSize, inputs[..i])
        {
          SizeOfAppend(InWitnessSize, inputs[..i], inputs[i]);
          assert inputs[..i + 1] == inputs[..i] + [inputs[i]];
          count := count + WitnessSize(inputs[i].scriptWitness);
        }
        assert inputs[..|inputs|] == inputs;
      }
    }

    method GetSerialized(bWithWitness: bool) returns (rval: Bytes)
      ensures rval == WriteTx(AsTx(), bWithWitness)
    {
      var w := bWithWitness && HasWitness(AsTx());
      rval := LE32(version);
      if w {
        rval := rval + [0x00];
        rval := rval + [0x01];
        assert rval == LE32(version) + [0x00, 0x01];
      }
      var body := SerializedBody(w);
      rval := rval + body;
    }

    method SerializedBody(w: bool) returns (rval: Bytes)
      ensures rval == WriteBody(AsTx(), w)
    {
      rval := VarInt(|inputs|);
      var part := AppendInputs();
      rval := rval + part;
      rval := rval + VarInt(|outputs|);
      part := AppendOutputs();
      rval := rval + part;
      if w {
        part := AppendWitnesses();
        rval := rval + part;
      }
      rval := rval + LE32(lockTime);
    }

    method AppendInputs() returns (part: Bytes)
      ensures part == Written(WriteTxIn, inputs)
    {
      part := [];
      for i := 0 to |inputs|
        invariant part == Written(WriteTxIn, inputs[..i])
      {
        WrittenAppend(WriteTxIn, inputs[..i], inputs[i]);
        assert inputs[..i + 1] == inputs[..i] + [inputs[i]];
        part := part + WriteTxIn(inputs[i]);
      }
      assert inputs[..|inputs|] == inputs;
    }

    method AppendOutputs() returns (part: Bytes)
      ensures part == Written(WriteTxOut, outputs)
    {
      part := [];
      for i := 0 to |outputs|
        invariant part == Written(WriteTxOut, outputs[..i])
      {
        WrittenAppend(WriteTxOut, outputs[..i], outputs[i]);
        assert outputs[..i + 1] == outputs[..i] + [outputs[i]];
        part := part + WriteTxOut(outputs[i]);
      }
      assert outputs[..|outputs|] == outputs;
    }

    method AppendWitnesses() returns (part: Bytes)
      ensures part == Written(WriteInWitness, inputs)
    {
      part := [];
      for i := 0 to |inputs|
        invariant part == Written(WriteInWitness, inputs[..i])
      {
        WrittenAppend(WriteInWitness, inputs[..i], inputs[i]);
        assert inputs[..i + 1] == inputs[..i] + [inputs[i]];
        part := part + WriteWitness(inputs[i].scriptWitness);
      }
      assert inputs[..|inputs|] == inputs;
    }

    /** Reads the fields from bytes; false stands for the exception. The memo is left as it is. */
    method SetSerialized(bytes: Bytes) returns (ok: bool)
      modifies `version, `inputs, `outputs, `lockTime
      ensures ok <==> ReadTx(bytes).Some?
      ensures ok ==> AsTx() == ReadTx(bytes).value
    {
      if |bytes| < 10 {
        return false;
      }
      version := From32(bytes[..4]);
      var pos := 4;
      var flags: Byte := 0;
      if bytes[pos] == 0 {
        pos := pos + 1;
        flags := bytes[pos];
        pos := pos + 1;
        if flags != 1 {
          return false;
        }
      }
      ok := SetBody(bytes, pos, flags != 0);
    }

    /** The part after the version and the mark of a witness. */
    method SetBody(bytes: Bytes, pos0: nat, w: bool) returns (ok: bool)
      requires pos0 <= |bytes|
      modifies `inputs, `outputs, `lockTime
      ensures ok <==> ReadBody(version, bytes[pos0..], w).Some?
      ensures ok ==> AsTx() == ReadBody(version, bytes[pos0..], w).value
    {
      hide ReadTxIn, ReadTxOut, ReadWitness, ReadList, ReadMany, From32;
      var pos := pos0;
      // inputs
      ok, inputs, pos := ReadCounted(ReadTxIn, TxInSize, bytes, pos);
      if !ok {
        return;
      }
      // outputs
      ok, outputs, pos := ReadCounted(ReadTxOut, TxOutSize, bytes, pos);
      if !ok {
        return;
      }
      // witness
      if w {
        ok, pos := ReadWitnesses(bytes, pos);
        if !ok {
          return;
        }
      }
      if |bytes| < pos + 4 {
        return false;
      }
      assert bytes[pos..][..4] == bytes[pos..pos + 4];
      lockTime := From32(bytes[pos..pos + 4]);
    }

    // ----- Edits. None of them touches the memo of the signature hash, except the last.

    method SetScriptSig(index: nat, scriptSig: Script) returns (ok: bool)
      modifies this
      ensures ok <==> index < |old(inputs)|
      ensures AsState() == Step(sha256d, old(AsState()), Op.SetScriptSig(index, scriptSig))
    {
      if index >= |inputs| {
        return false;
      }
      inputs := inputs[index := inputs[index].(scriptSig := scriptSig)];
      ok := true;
    }

    method ClearScriptSigs()
      modifies this
      ensures AsState() == Step(sha256d, old(AsState()), Op.ClearScriptSigs)
    {
      for i := 0 to |inputs|
        invariant |inputs| == |old(inputs)|
        invariant unchanged(`version, `outputs, `lockTime, `hashPrevouts, `hashSequence, `hashOutputs)
        invariant inputs[..i] == WithoutScripts(old(AsTx())).inputs[..i] && inputs[i..] == old(inputs)[i..]
      {
        inputs := inputs[i := inputs[i].(scriptSig := [])];
      }
      assert inputs == WithoutScripts(old(AsTx())).inputs;
    }

    method AddInput(txIn: TxIn)
      requires |inputs| + 1 < 0x1_0000_0000_0000_0000
      modifies this
      ensures inputs == old(inputs) + [txIn]
      ensures AsState() == Step(sha256d, old(AsState()), Edit(AsTx()))
    {
      inputs := inputs + [txIn];
    }

    method AddOutput(txOut: TxOut)
      requires |outputs| + 1 < 0x1_0000_0000_0000_0000
      modifies this
      ensures outputs == old(outputs) + [txOut]
      ensures AsState() == Step(sha256d, old(AsState()), Edit(AsTx()))
    {
      outputs := outputs + [txOut];
    }

    method ResetSigHash()
      modifies this
      ensures AsState() == Step(sha256d, old(AsState()), Reset)
    {
      hashPrevouts := [];
      hashSequence := [];
      hashOutputs := [];
    }

    // ----- Signature hash

    method GetSigHash(hashType: UInt32, index: nat, script: Script, value: UInt64) returns (r: SigResult)
      modifies this
      ensures r == MemoSigHash(sha256d, old(AsTx()), old(AsState()).memo, hashType, index, script, value).0
      ensures AsState() == Step(sha256d, old(AsState()), Sign(hashType, index, script, value))
      ensures Coherent(sha256d, old(AsTx()), old(AsState()).memo) ==>
        r == ReferenceSigHash(sha256d, old(AsTx()), hashType, index, script, value)
    {
      if Coherent(sha256d, AsTx(), AsState().memo) {
        CoherentSigHash(sha256d, AsTx(), AsState().memo, hashType, index, script, value);
      }
      if index >= |inputs| {
        return Refused(IndexOutOfRange);
      }
      if hashType != SIGHASH_ALL {
        return Refused(UnsupportedHashType);
      }
      if inputs[index].scriptWitness == [] {
        var copy := new Transaction.Copy(this);
        copy.KeepOneScript(index, script);
        var unsigned := copy.GetSerialized(false);
        return Digest(sha256d(unsigned + LE32(hashType)));
      }
      FillMemo();
      var ss := LE32(version);
      ss := ss + hashPrevouts;
      ss := ss + hashSequence;
      ss := ss + WriteOutPoint(inputs[index].previousOut);
      ss := ss + VarInt(|script|);
      ss := ss + script;
      ss := ss + LE64(value);
      ss := ss + LE32(inputs[index].sequence);
      ss := ss + hashOutputs;
      ss := ss + LE32(lockTime);
      ss := ss + LE32(hashType);
      ScriptInPlace(LE32(version) + hashPrevouts + hashSequence + WriteOutPoint(inputs[index].previousOut), script);
      r := Digest(sha256d(ss));
    }

    /** Puts the script that is signed in its place, and empties the others. */
    method KeepOneScript(index: nat, script: Script)
      modifies this
      ensures AsState() == old(AsState()).(tx := LegacyCopy(old(AsTx()), index, script))
    {
      for i := 0 to |inputs|
        invariant |inputs| == |old(inputs)|
        invariant unchanged(`version, `outputs, `lockTime, `hashPrevouts, `hashSequence, `hashOutputs)
        invariant forall k :: 0 <= k < i ==>
                    inputs[k] == old(inputs)[k].(scriptSig := if k == index then script else [])
        invariant forall k :: i <= k < |inputs| ==> inputs[k] == old(inputs)[k]
      {
        if index == i {
          inputs := inputs[i := inputs[i].(scriptSig := script)];
        } else {
          inputs := inputs[i := inputs[i].(scriptSig := [])];
        }
      }
      assert inputs == LegacyCopy(old(AsTx()), index, script).inputs;
    }

    /** Computes the sub-hashes that are not yet there. */
    method FillMemo()
      modifies `hashPrevouts, `hashSequence, `hashOutputs
      ensures AsState().memo == FilledMemo(sha256d, AsTx(), old(AsState()).memo)
    {
      if hashPrevouts == [] {
        var ss := AppendOutPoints();
        hashPrevouts := sha256d(ss);
      }
      if hashSequence == [] {
        var ss := AppendSequences();
        hashSequence := sha256d(ss);
      }
      if hashOutputs == [] {
        var ss := AppendOutputs();
        hashOutputs := sha256d(ss);
      }
    }

    method AppendOutPoints() returns (ss: Bytes)
      ensures ss == Prevouts(AsTx())
    {
      ss := [];
      for i := 0 to |inputs|
        invariant ss == Written(OutPointOf, inputs[..i])
      {
        WrittenAppend(OutPointOf, inputs[..i], inputs[i]);
        assert inputs[..i + 1] == inputs[..i] + [inputs[i]];
        ss := ss + WriteOutPoint(inputs[i].previousOut);
      }
      assert inputs[..|inputs|] == inputs;
    }

    method AppendSequences() returns (ss: Bytes)
      ensures ss == Sequences(AsTx())
    {
      ss := [];
      for i := 0 to |inputs|
        invariant ss == Written(SequenceOf, inputs[..i])
      {
        WrittenAppend(SequenceOf, inputs[..i], inputs[i]);
        assert inputs[..i + 1] == inputs[..i] + [inputs[i]];
        ss := ss + LE32(inputs[i].sequence);
      }
      assert inputs[..|inputs|] == inputs;
    }

    lemma ScriptInPlace(head: Bytes, script: Script)
      ensures head + VarInt(|script|) + script == head + VarBytes(script)
    {
    }

    /** Reads the witness of each input in turn. */
    method ReadWitnesses(bytes: Bytes, pos0: nat) returns (ok: bool, pos: nat)
      requires pos0 <= |bytes|
      modifies `inputs
      ensures var r := ReadMany(ReadWitness, WitnessSize, bytes[pos0..], |old(inputs)|);
        && (ok <==> r.Some?)
        && (ok ==> pos <= |bytes| && bytes[pos..] == r.value.1 && inputs == AttachWitnesses(old(inputs), r.value.0))
    {
      hide ReadWitness, WitnessSize, ReadMany, Prepend;
      pos := pos0;
      ghost var stacks: seq<Stack> := [];
      PrependNothing(ReadMany(ReadWitness, WitnessSize, bytes[pos0..], |inputs|));
      for i := 0 to |inputs|
        invariant |inputs| == |old(inputs)| && |stacks| == i && pos <= |bytes|
        invariant ReadMany(ReadWitness, WitnessSize, bytes[pos0..], |inputs|) ==
          Prepend(stacks, ReadMany(ReadWitness, WitnessSize, bytes[pos..], |inputs| - i))
        invariant forall k :: 0 <= k < i ==> inputs[k] == old(inputs)[k].(scriptWitness := stacks[k])
        invariant forall k :: i <= k < |inputs| ==> inputs[k] == old(inputs)[k]
      {
        ReadManyNext(ReadWitness, WitnessSize, stacks, bytes, pos, |inputs| - i);
        var stack := ReadWitness(bytes[pos..]);
        if stack.None? || pos + WitnessSize(stack.value) > |bytes| {
          return false, pos;
        }
        inputs := inputs[i := inputs[i].(scriptWitness := stack.value)];
        pos := pos + WitnessSize(stack.value);
        stacks := stacks + [stack.value];
      }
      ReadManyNone(ReadWitness, WitnessSize, stacks, bytes[pos..]);
      assert inputs == AttachWitnesses(old(inputs), stacks);
      ok := true;
    }
  }

  /** Reads a count, then that many elements, each at the position after the last. */
  method ReadCounted<T>(read: Bytes -> Option<T>, size: T -> nat, bytes: Bytes, pos0: nat)
    returns (ok: bool, xs: seq<T>, pos: nat)
    requires pos0 <= |bytes|
    ensures |xs| < 0x1_0000_0000_0000_0000
    ensures var r := ReadList(read, size, bytes[pos0..]);
      && (ok <==> r.Some?)
      && (ok ==> pos <= |bytes| && r == Some((xs, bytes[pos..])))
  {
    hide ReadMany, Prepend;
    xs, pos := [], pos0;
    var count := ParseVarInt(bytes[pos0..]);
    if count.None? {
      return false, [], pos0;
    }
    VarIntFits(bytes[pos0..]);
    pos := pos + VarIntSize(count.value);
    ghost var start := bytes[pos..];
    assert bytes[pos0..][VarIntSize(count.value)..] == start;
    PrependNothing(ReadMany(read, size, start, count.value));
    for i := 0 to count.value
      invariant |xs| == i && pos <= |bytes|
      invariant ReadMany(read, size, start, count.value)
             == Prepend(xs, ReadMany(read, size, bytes[pos..], count.value - i))
    {
      ReadManyNext(read, size, xs, bytes, pos, count.value - i);
      var x := read(bytes[pos..]);
      if x.None? || pos + size(x.value) > |bytes| {
        return false, [], pos;
      }
      xs := xs + [x.value];
      pos := pos + size(x.value);
    }
    ReadManyNone(read, size, xs, bytes[pos..]);
    ok := true;
  }

  /** One more element read, behind those read so far. */
  lemma ReadManyNext<T>(read: Bytes -> Option<T>, size: T -> nat, xs: seq<T>, bytes: Bytes, pos: nat, n: nat)
    requires pos <= |bytes| && n > 0
    ensures var x := read(bytes[pos..]);
      Prepend(xs, ReadMany(read, size, bytes[pos..], n)) ==
        if x.None? || pos + size(x.value) > |bytes| then None
        else Prepend(xs + [x.value], ReadMany(read, size, bytes[pos + size(x.value)..], n - 1))
  {
    var x := read(bytes[pos..]);
    if x.Some? && pos + size(x.value) <= |bytes| {
      assert bytes[pos..][size(x.value)..] == bytes[pos + size(x.value)..];
      PrependMore(xs, x.value, ReadMany(read, size, bytes[pos + size(x.value)..], n - 1));
    }
  }

  lemma ReadManyNone<T>(read: Bytes -> Option<T>, size: T -> nat, xs: seq<T>, bytes: Bytes)
    ensures Prepend(xs, ReadMany(read, size, bytes, 0)) == Some((xs, bytes))
  {
    assert xs + [] == xs;
  }

  /** A list read so far, in front of what is still to be read. */
  function Prepend<T>(xs: seq<T>, r: Option<(seq<T>, Bytes)>): Option<(seq<T>, Bytes)> {
    match r
    case None => None
    case Some((ys, rest)) => Some((xs + ys, rest))
  }

  lemma PrependNothing<T>(r: Option<(seq<T>, Bytes)>)
    ensures Prepend([], r) == r
  {
    if r.Some? {
      assert [] + r.value.0 == r.value.0;
    }
  }

  lemma PrependMore<T>(xs: seq<T>, x: T, r: Option<(seq<T>, Bytes)>)
    ensures Prepend(xs + [x], r) == Prepend(xs, Prepend([x], r))
  {
    if r.Some? {
      assert xs + ([x] + r.value.0) == xs + [x] + r.value.0;
    }
  }

  lemma {:induction false} WrittenAppend<T>(write: T -> Bytes, xs: seq<T>, x: T)
    ensures Written(write, xs + [x]) == Written(write, xs) + write(x)
  {
    if xs == [] {
      assert [x][1..] == [];
    } else {
      WrittenAppend(write, xs[1..], x);
      assert (xs + [x])[1..] == xs[1..] + [x];
    }
  }

  lemma {:induction false} SizeOfAppend<T>(size: T -> nat, xs: seq<T>, x: T)
    ensures SizeOf(size, xs + [x]) == SizeOf(size, xs) + size(x)
  {
    if xs == [] {
      assert [x][1..] == [];
    } else {
      SizeOfAppend(size, xs[1..], x);
      assert (xs + [x])[1..] == xs[1..] + [x];
    }
  }
}
