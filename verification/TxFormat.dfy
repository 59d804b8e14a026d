/** Transactions on the wire, with and without witness (BIP144, "Serialization"). */
module TxFormat {
  import opened Bytes
  import opened Wire

  // The length of a list is a machine number, as it is in the program.
  type Script = s: Bytes | |s| < 0x1_0000_0000_0000_0000
  type Stack = s: seq<Script> | |s| < 0x1_0000_0000_0000_0000
  type TxIns = s: seq<TxIn> | |s| < 0x1_0000_0000_0000_0000
  type TxOuts = s: seq<TxOut> | |s| < 0x1_0000_0000_0000_0000

  datatype OutPoint = OutPoint(hash: Hash, index: UInt32)
  datatype TxIn = TxIn(previousOut: OutPoint, scriptSig: Script, sequence: UInt32, scriptWitness: Stack)
  datatype TxOut = TxOut(value: UInt64, scriptPubKey: Script)
  datatype Tx = Tx(version: UInt32, inputs: TxIns, outputs: TxOuts, lockTime: UInt32)

  // ----- Lists: each element written after the other, and read back by count

  function Written<T>(write: T -> Bytes, xs: seq<T>): Bytes {
    if xs == [] then [] else write(xs[0]) + Written(write, xs[1..])
  }

  function SizeOf<T>(size: T -> nat, xs: seq<T>): nat {
    if xs == [] then 0 else size(xs[0]) + SizeOf(size, xs[1..])
  }

  /** Reads n elements. After each one the program goes on by the size the element would be written
      with, whatever was read; going past the end of the bytes is undefined there and None here. */
  function ReadMany<T>(read: Bytes -> Option<T>, size: T -> nat, bytes: Bytes, n: nat): (r: Option<(seq<T>, Bytes)>)
    ensures r.Some? ==> |r.value.0| == n
    decreases n
  {
    if n == 0 then Some(([], bytes))
    else
      match read(bytes)
      case None => None
      case Some(x) =>
        if size(x) > |bytes| then None
        else
          match ReadMany(read, size, bytes[size(x)..], n - 1)
          case None => None
          case Some((xs, rest)) => Some(([x] + xs, rest))
  }

  /** What is written can be read, in front of anything. */
  ghost predicate Readable<T(!new)>(write: T -> Bytes, read: Bytes -> Option<T>, size: T -> nat, x: T, y: T) {
    |write(x)| == size(x) == size(y) && forall suffix: Bytes :: read(write(x) + suffix) == Some(y)
  }

  ghost predicate AllReadable<T(!new)>(write: T -> Bytes, read: Bytes -> Option<T>, size: T -> nat, xs: seq<T>,
                                        ys: seq<T>)
  {
    |xs| == |ys| && forall i :: 0 <= i < |xs| ==> Readable(write, read, size, xs[i], ys[i])
  }

  lemma {:induction false} ReadWritten<T(!new)>(write: T -> Bytes, read: Bytes -> Option<T>, size: T -> nat,
                                               xs: seq<T>, ys: seq<T>, suffix: Bytes)
    requires AllReadable(write, read, size, xs, ys)
    ensures ReadMany(read, size, Written(write, xs) + suffix, |xs|) == Some((ys, suffix))
    ensures |Written(write, xs)| == SizeOf(size, xs)
  {
    var bytes := Written(write, xs) + suffix;
    if xs == [] {
      assert bytes == suffix;
    } else {
      var tail := Written(write, xs[1..]) + suffix;
      assert Readable(write, read, size, xs[0], ys[0]);
      ReadWritten(write, read, size, xs[1..], ys[1..], suffix);
      assert bytes == write(xs[0]) + tail;
      assert read(write(xs[0]) + tail) == Some(ys[0]);
      assert bytes[size(ys[0])..] == tail;
      assert [ys[0]] + ys[1..] == ys;
    }
  }

  /** The elements read account for all the bytes that are gone. */
  lemma {:induction false} ReadManySize<T(!new)>(read: Bytes -> Option<T>, size: T -> nat, bytes: Bytes, n: nat)
    requires ReadMany(read, size, bytes, n).Some?
    ensures var (xs, rest) := ReadMany(read, size, bytes, n).value;
      |bytes| == SizeOf(size, xs) + |rest|
  {
    if n > 0 {
      var x := read(bytes).value;
      ReadManySize(read, size, bytes[size(x)..], n - 1);
    }
  }

  // ----- Strings with their length in front

  function VarBytes(s: Script): Bytes {
    VarInt(|s|) + s
  }

  function VarBytesSize(s: Script): nat {
    VarIntSize(|s|) + |s|
  }

  function ReadVarBytes(bytes: Bytes): Option<Script> {
    match ParseVarInt(bytes)
    case None => None
    case Some(n) =>
      var pos := VarIntSize(n);
      if |bytes| < pos + n then None else Some(bytes[pos..pos + n])
  }

  lemma VarBytesReadable(s: Script)
    ensures Readable(VarBytes, ReadVarBytes, VarBytesSize, s, s)
  {
    forall suffix: Bytes ensures ReadVarBytes(VarBytes(s) + suffix) == Some(s) {
      ReadVarBytesAhead(s, suffix);
    }
  }

  lemma ReadVarBytesAhead(s: Script, suffix: Bytes)
    ensures ReadVarBytes(VarBytes(s) + suffix) == Some(s)
  {
    VarIntRoundTrip(|s|, s + suffix);
    assert VarBytes(s) + suffix == VarInt(|s|) + (s + suffix);
    Slices(VarInt(|s|), s, suffix);
  }

  // ----- Outpoints, inputs, outputs, witnesses

  function WriteOutPoint(o: OutPoint): (b: Bytes)
    ensures |b| == 36
  {
    Reverse(o.hash) + LE32(o.index)
  }

  function ReadOutPoint(bytes: Bytes): (o: Option<OutPoint>)
    ensures o.Some? <==> |bytes| >= 36
  {
    if |bytes| < 36 then None else Some(OutPoint(Reverse(bytes[..32]), From32(bytes[32..36])))
  }

  function WriteTxIn(i: TxIn): Bytes {
    WriteOutPoint(i.previousOut) + VarBytes(i.scriptSig) + LE32(i.sequence)
  }

  function TxInSize(i: TxIn): nat {
    VarBytesSize(i.scriptSig) + 40
  }

  function ReadTxIn(bytes: Bytes): Option<TxIn> {
    if |bytes| < 41 then None
    else
      match (ReadOutPoint(bytes), ReadVarBytes(bytes[36..]))
      case (Some(o), Some(script)) =>
        var pos := VarBytesSize(script) + 36;
        if |bytes| < pos + 4 then None
        else Some(TxIn(o, script, From32(bytes[pos..pos + 4]), []))
      case _ => None
  }

  function WriteTxOut(o: TxOut): Bytes {
    LE64(o.value) + VarBytes(o.scriptPubKey)
  }

  function TxOutSize(o: TxOut): nat {
    VarBytesSize(o.scriptPubKey) + 8
  }

  function ReadTxOut(bytes: Bytes): Option<TxOut> {
    if |bytes| < 9 then None
    else
      match ReadVarBytes(bytes[8..])
      case None => None
      case Some(script) => Some(TxOut(From64(bytes[..8]), script))
  }

  function WriteWitness(stack: Stack): Bytes {
    VarInt(|stack|) + Written(VarBytes, stack)
  }

  function WitnessSize(stack: Stack): nat {
    VarIntSize(|stack|) + SizeOf(VarBytesSize, stack)
  }

  function ReadWitness(bytes: Bytes): Option<Stack> {
    match ParseVarInt(bytes)
    case None => None
    case Some(n) =>
      if |bytes| < VarIntSize(n) then None
      else
        match ReadMany(ReadVarBytes, VarBytesSize, bytes[VarIntSize(n)..], n)
        case None => None
        case Some((stack, _)) => Some(stack)
  }

  function WithoutWitness(i: TxIn): TxIn {
    i.(scriptWitness := [])
  }

  lemma TxInReadable(i: TxIn)
    ensures Readable(WriteTxIn, ReadTxIn, TxInSize, i, WithoutWitness(i))
  {
    forall suffix: Bytes ensures ReadTxIn(WriteTxIn(i) + suffix) == Some(WithoutWitness(i)) {
      var o, script, sequence := WriteOutPoint(i.previousOut), VarBytes(i.scriptSig), LE32(i.sequence);
      var bytes := WriteTxIn(i) + suffix;
      assert bytes == o + script + (sequence + suffix);
      Slices(o, script, sequence + suffix);
      assert bytes[36..] == script + (sequence + suffix);
      ReadVarBytesAhead(i.scriptSig, sequence + suffix);
      OutPointAhead(i.previousOut, script + (sequence + suffix));
      assert bytes == o + (script + (sequence + suffix));
      assert bytes[|o| + |script|..|o| + |script| + 4] == sequence;
    }
  }

  lemma OutPointAhead(o: OutPoint, suffix: Bytes)
    ensures ReadOutPoint(WriteOutPoint(o) + suffix) == Some(o)
  {
    var bytes := WriteOutPoint(o) + suffix;
    assert bytes[..32] == Reverse(o.hash) && bytes[32..36] == LE32(o.index);
    ReverseReverse(o.hash);
  }

  lemma TxOutReadable(o: TxOut)
    ensures Readable(WriteTxOut, ReadTxOut, TxOutSize, o, o)
  {
    forall suffix: Bytes ensures ReadTxOut(WriteTxOut(o) + suffix) == Some(o) {
      var bytes := WriteTxOut(o) + suffix;
      assert bytes == LE64(o.value) + (VarBytes(o.scriptPubKey) + suffix);
      assert bytes[..8] == LE64(o.value) && bytes[8..] == VarBytes(o.scriptPubKey) + suffix;
      ReadVarBytesAhead(o.scriptPubKey, suffix);
    }
  }

  lemma WitnessReadable(stack: Stack)
    ensures Readable(WriteWitness, ReadWitness, WitnessSize, stack, stack)
  {
    forall k | 0 <= k < |stack| ensures Readable(VarBytes, ReadVarBytes, VarBytesSize, stack[k], stack[k]) {
      VarBytesReadable(stack[k]);
    }
    ReadWritten(VarBytes, ReadVarBytes, VarBytesSize, stack, stack, []);
    forall suffix: Bytes ensures ReadWitness(WriteWitness(stack) + suffix) == Some(stack) {
      ReadWitnessAhead(stack, suffix);
    }
  }

  lemma ReadWitnessAhead(stack: Stack, suffix: Bytes)
    requires AllReadable(VarBytes, ReadVarBytes, VarBytesSize, stack, stack)
    ensures ReadWitness(WriteWitness(stack) + suffix) == Some(stack)
  {
    hide AllReadable;
    var items := Written(VarBytes, stack);
    ReadWritten(VarBytes, ReadVarBytes, VarBytesSize, stack, stack, suffix);
    VarIntRoundTrip(|stack|, items + suffix);
    assert WriteWitness(stack) + suffix == VarInt(|stack|) + (items + suffix);
    assert (WriteWitness(stack) + suffix)[VarIntSize(|stack|)..] == items + suffix;
  }

  // ----- Transactions

  predicate HasWitness(tx: Tx) {
    exists i :: 0 <= i < |tx.inputs| && tx.inputs[i].scriptWitness != []
  }

  function WriteInWitness(i: TxIn): Bytes {
    WriteWitness(i.scriptWitness)
  }

  function InWitnessSize(i: TxIn): nat {
    WitnessSize(i.scriptWitness)
  }

  function WriteTx(tx: Tx, bWithWitness: bool): Bytes {
    var w := bWithWitness && HasWitness(tx);
    LE32(tx.version) + (if w then [0, 1] else []) + WriteBody(tx, w)
  }

  function WriteBody(tx: Tx, w: bool): Bytes {
    VarInt(|tx.inputs|) + Written(WriteTxIn, tx.inputs) + VarInt(|tx.outputs|) + Written(WriteTxOut, tx.outputs)
      + (if w then Written(WriteInWitness, tx.inputs) else []) + LE32(tx.lockTime)
  }

  function TxSize(tx: Tx, bWithWitness: bool): nat {
    8 + VarIntSize(|tx.inputs|) + VarIntSize(|tx.outputs|) + SizeOf(TxInSize, tx.inputs) + SizeOf(TxOutSize, tx.outputs)
      + if bWithWitness && HasWitness(tx) then 2 + SizeOf(InWitnessSize, tx.inputs) else 0
  }

  /** Reads a count, then so many elements. */
  function ReadList<T>(read: Bytes -> Option<T>, size: T -> nat, bytes: Bytes): (r: Option<(seq<T>, Bytes)>)
    ensures r.Some? ==> |r.value.0| < 0x1_0000_0000_0000_0000
  {
    match ParseVarInt(bytes)
    case None => None
    case Some(n) =>
      VarIntFits(bytes);
      ReadMany(read, size, bytes[VarIntSize(n)..], n)
  }

  function AttachWitnesses(inputs: TxIns, stacks: seq<Stack>): (r: TxIns)
    requires |inputs| == |stacks|
    ensures |r| == |inputs|
  {
    seq(|inputs|, i requires 0 <= i < |inputs| => inputs[i].(scriptWitness := stacks[i]))
  }

  /** A zero where the count of inputs is expected announces a witness. */
  function ReadTx(bytes: Bytes): Option<Tx> {
    if |bytes| < 10 then None
    else if bytes[4] != 0 then ReadBody(From32(bytes[..4]), bytes[4..], false)
    else if bytes[5] != 1 then None
    else ReadBody(From32(bytes[..4]), bytes[6..], true)
  }

  function ReadBody(version: UInt32, bytes: Bytes, w: bool): Option<Tx> {
    match ReadList(ReadTxIn, TxInSize, bytes)
    case None => None
    case Some((inputs, rest1)) =>
      match ReadList(ReadTxOut, TxOutSize, rest1)
      case None => None
      case Some((outputs, rest2)) =>
        if !w then ReadLockTime(version, inputs, outputs, rest2)
        else
          match ReadMany(ReadWitness, WitnessSize, rest2, |inputs|)
          case None => None
          case Some((stacks, rest3)) => ReadLockTime(version, AttachWitnesses(inputs, stacks), outputs, rest3)
  }

  function ReadLockTime(version: UInt32, inputs: TxIns, outputs: TxOuts, bytes: Bytes): Option<Tx> {
    if |bytes| < 4 then None else Some(Tx(version, inputs, outputs, From32(bytes[..4])))
  }

  function StripWitness(tx: Tx): Tx {
    tx.(inputs := seq(|tx.inputs|, i requires 0 <= i < |tx.inputs| => WithoutWitness(tx.inputs[i])))
  }

  lemma StripNothing(tx: Tx)
    ensures !HasWitness(tx) ==> StripWitness(tx) == tx
  {
    if !HasWitness(tx) {
      assert forall i :: 0 <= i < |tx.inputs| ==> tx.inputs[i].scriptWitness == [];
    }
  }

  lemma ReadListAhead<T(!new)>(write: T -> Bytes, read: Bytes -> Option<T>, size: T -> nat, xs: seq<T>, ys: seq<T>,
      suffix: Bytes)
    requires AllReadable(write, read, size, xs, ys) && |xs| < 0x1_0000_0000_0000_0000
    ensures ReadList(read, size, VarInt(|xs|) + Written(write, xs) + suffix) == Some((ys, suffix))
    ensures |Written(write, xs)| == SizeOf(size, xs)
  {
    hide AllReadable;
    var items := Written(write, xs);
    ReadWritten(write, read, size, xs, ys, suffix);
    VarIntRoundTrip(|xs|, items + suffix);
    assert VarInt(|xs|) + items + suffix == VarInt(|xs|) + (items + suffix);
    assert (VarInt(|xs|) + (items + suffix))[VarIntSize(|xs|)..] == items + suffix;
  }

  lemma InputsReadable(tx: Tx)
    ensures AllReadable(WriteTxIn, ReadTxIn, TxInSize, tx.inputs, StripWitness(tx).inputs)
    ensures AllReadable(WriteTxOut, ReadTxOut, TxOutSize, tx.outputs, tx.outputs)
  {
    forall i | 0 <= i < |tx.inputs|
      ensures Readable(WriteTxIn, ReadTxIn, TxInSize, tx.inputs[i], StripWitness(tx).inputs[i])
    {
      TxInReadable(tx.inputs[i]);
    }
    forall i | 0 <= i < |tx.outputs| ensures Readable(WriteTxOut, ReadTxOut, TxOutSize, tx.outputs[i], tx.outputs[i]) {
      TxOutReadable(tx.outputs[i]);
    }
  }

  function StacksOf(inputs: TxIns): (r: seq<Stack>)
    ensures |r| == |inputs|
  {
    seq(|inputs|, i requires 0 <= i < |inputs| => inputs[i].scriptWitness)
  }

  lemma {:induction false} WitnessesAsStacks(inputs: TxIns)
    ensures Written(WriteInWitness, inputs) == Written(WriteWitness, StacksOf(inputs))
    ensures SizeOf(InWitnessSize, inputs) == SizeOf(WitnessSize, StacksOf(inputs))
  {
    if inputs != [] {
      WitnessesAsStacks(inputs[1..]);
      assert StacksOf(inputs)[1..] == StacksOf(inputs[1..]);
    }
  }

  lemma ReadBodyAhead(tx: Tx, w: bool, suffix: Bytes)
    ensures ReadBody(tx.version, WriteBody(tx, w) + suffix, w) == Some(if w then tx else StripWitness(tx))
    ensures |WriteBody(tx, w)| == TxSize(tx, false) - 4 + if w then SizeOf(InWitnessSize, tx.inputs) else 0
  {
    hide AllReadable, ReadTxIn, ReadTxOut, ReadWitness, WriteTxIn, WriteTxOut, WriteWitness, Written, ReadMany,
      ReadList, SizeOf;
    InputsReadable(tx);
    var part3 := if w then Written(WriteInWitness, tx.inputs) else [];
    var rest2 := part3 + (LE32(tx.lockTime) + suffix);
    var rest1 := VarInt(|tx.outputs|) + Written(WriteTxOut, tx.outputs) + rest2;
    BodyRegroups(VarInt(|tx.inputs|), Written(WriteTxIn, tx.inputs), VarInt(|tx.outputs|),
      Written(WriteTxOut, tx.outputs),
      part3, LE32(tx.lockTime), suffix);
    ReadListAhead(WriteTxIn, ReadTxIn, TxInSize, tx.inputs, StripWitness(tx).inputs, rest1);
    ReadListAhead(WriteTxOut, ReadTxOut, TxOutSize, tx.outputs, tx.outputs, rest2);
    ReadWitnessesAhead(tx, LE32(tx.lockTime) + suffix);
    assert (LE32(tx.lockTime) + suffix)[..4] == LE32(tx.lockTime);
    assert !w ==> rest2 == LE32(tx.lockTime) + suffix;
  }

  lemma BodyRegroups(a: Bytes, b: Bytes, c: Bytes, d: Bytes, e: Bytes, f: Bytes, suffix: Bytes)
    ensures (a + b + c + d + e + f) + suffix == a + b + (c + d + (e + (f + suffix)))
  {
  }

  lemma ReadWitnessesAhead(tx: Tx, suffix: Bytes)
    ensures var stacks := StacksOf(tx.inputs);
      && ReadMany(ReadWitness, WitnessSize, Written(WriteInWitness, tx.inputs) + suffix, |tx.inputs|)
        == Some((stacks, suffix))
      && AttachWitnesses(StripWitness(tx).inputs, stacks) == tx.inputs
    ensures |Written(WriteInWitness, tx.inputs)| == SizeOf(InWitnessSize, tx.inputs)
  {
    hide AllReadable, ReadWitness, WriteWitness, ReadMany;
    var stacks := StacksOf(tx.inputs);
    WitnessesAsStacks(tx.inputs);
    StacksReadable(stacks);
    ReadWritten(WriteWitness, ReadWitness, WitnessSize, stacks, stacks, suffix);
  }

  lemma StacksReadable(stacks: seq<Stack>)
    ensures AllReadable(WriteWitness, ReadWitness, WitnessSize, stacks, stacks)
  {
    forall i | 0 <= i < |stacks| ensures Readable(WriteWitness, ReadWitness, WitnessSize, stacks[i], stacks[i]) {
      WitnessReadable(stacks[i]);
    }
  }

  /** The size that is computed is the size that is written. */
  lemma WriteTxSize(tx: Tx, bWithWitness: bool)
    ensures |WriteTx(tx, bWithWitness)| == TxSize(tx, bWithWitness)
  {
    ReadBodyAhead(tx, bWithWitness && HasWitness(tx), []);
  }

  /** A transaction with an input is read back in front of anything: whole if it was written with its
      witness, without it otherwise. */
  lemma TxRoundTrip(tx: Tx, bWithWitness: bool, suffix: Bytes)
    requires tx.inputs != []
    ensures ReadTx(WriteTx(tx, bWithWitness) + suffix) == Some(if bWithWitness then tx else StripWitness(tx))
  {
    hide ReadBody, WriteBody;
    var w := bWithWitness && HasWitness(tx);
    var bytes := WriteTx(tx, bWithWitness) + suffix;
    ReadBodyAhead(tx, w, suffix);
    StripNothing(tx);
    WriteTxSize(tx, bWithWitness);
    BodyStart(tx, w);
    var body := WriteBody(tx, w) + suffix;
    assert bytes[..4] == LE32(tx.version);
    if w {
      assert bytes == LE32(tx.version) + [0, 1] + body;
      assert bytes[6..] == body;
    } else {
      assert bytes == LE32(tx.version) + body;
      assert bytes[4..] == body;
    }
  }

  lemma BodyStart(tx: Tx, w: bool)
    ensures |WriteBody(tx, w)| > 4 && (WriteBody(tx, w)[0] == 0 <==> tx.inputs == [])
  {
    assert WriteBody(tx, w)[0] == VarInt(|tx.inputs|)[0];
  }

  /** Exactly the transactions with an input are read back. Without one, the count of inputs is taken
      for the mark of a witness. */
  lemma TxRoundTripIff(tx: Tx)
    ensures ReadTx(WriteTx(tx, true)) == Some(tx) <==> tx.inputs != []
  {
    var bytes := WriteTx(tx, true);
    assert bytes + [] == bytes;
    if tx.inputs != [] {
      TxRoundTrip(tx, true, []);
    } else {
      WriteTxSize(tx, true);
      BodyStart(tx, false);
      assert bytes == LE32(tx.version) + WriteBody(tx, false);
      if ReadTx(bytes) == Some(tx) {
        ReadBodySize(tx.version, bytes[6..], true);
      }
    }
  }

  /** What was read accounts for at least its own size. */
  lemma ReadBodySize(version: UInt32, bytes: Bytes, w: bool)
    requires ReadBody(version, bytes, w).Some?
    ensures var tx := ReadBody(version, bytes, w).value;
      tx.inputs == [] ==> |bytes| >= TxSize(tx, false) - 4
  {
    ReadListSize(ReadTxIn, TxInSize, bytes);
    var (inputs, rest1) := ReadList(ReadTxIn, TxInSize, bytes).value;
    ReadListSize(ReadTxOut, TxOutSize, rest1);
    var (outputs, rest2) := ReadList(ReadTxOut, TxOutSize, rest1).value;
    if w {
      ReadManySize(ReadWitness, WitnessSize, rest2, |inputs|);
    }
  }

  lemma ReadListSize<T(!new)>(read: Bytes -> Option<T>, size: T -> nat, bytes: Bytes)
    requires ReadList(read, size, bytes).Some?
    ensures var (xs, rest) := ReadList(read, size, bytes).value;
      |bytes| == VarIntSize(|xs|) + SizeOf(size, xs) + |rest|
  {
    VarIntFits(bytes);
    var n := ParseVarInt(bytes).value;
    ReadManySize(read, size, bytes[VarIntSize(n)..], n);
  }
}
