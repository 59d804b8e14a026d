# The hard core of a Bitcoin wallet, modelled in Dafny

The wallet rests on a few pieces of logic where a slip costs money or makes a symbol unreadable. This
project models them and proves what they are for, for every input:

* **Partial Merkle trees** (`MerkleTree.cpp`). A light client keeps the path of hashes to its own
  transactions. The trees are built by pruning, written as hashes and bits, decoded again and merged.
  Built trees merge to the tree of the united matches; whatever the decoder accepts is proved by the
  root; and the way the decoder sees that a right subtree is missing, by running out of hashes, is
  compared with the rule of BIP37, which goes by the transaction count. Modules `MerkleSpec`,
  `MerkleCodec`, `MerkleMerge`, `MerkleShape`, `MerkleRoot`, `MerkleFlags` and the object in
  `PartialMerkleTree`.
* **Transactions and their signatures** (`CoinNodeData.cpp`). The segwit format (BIP144) with its sizes,
  the memoised sub-hashes of the signature digest (BIP143) along whole runs of edits, and what a
  digest commits to. Modules `Wire`, `TxFormat`, `SigHash`, `Transaction`.
* **Compact targets, base 58 and amounts.** The lossy target encoding of block headers, Base58Check with
  its leading zeros, and the three texts of an amount: parser, validator and printer. Modules `Target`,
  `Numerals`, `Base58`, `Amounts`, `AmountText`.
* **QR codes** (`qrencode-3.4.3`), from the string to the finished symbol and back. A string is cut
  into segments (`Segmentation`, `Weighing`), segments become bits (`QRSegments`, `QREncoder`,
  `BitStreams`), a version is chosen for them (`QREstimates`, `QRVersions`) and the rest is padded
  (`QRInputs`), or an input is split over several symbols (`QRSplit`). Data go into Reed-Solomon blocks (`GF256`, `GF256Log`, `Polynomial`,
  `ReedSolomon`), which are interleaved (`RawCode`), laid along a zigzag path (`Placement`,
  `FrameFillers`, `QRSymbol`, `QRCode`) through the free modules of the empty symbol (`QRFrame`,
  `QRFrameCount`), scored and masked (`Mask`, `MaskScore`, `MaskChoice`), and announced by the words of two
  codes (`Bch`). The last theorem, `QRString.EncodeString`, joins all of it: who sees the colours of the
  modules and nothing else (`QRReader`) takes level and mask from the format, the mask off, follows the
  path, decodes the segments, and has the string.

Code that works in place is modelled in place: objects with fields, loops with invariants, recursion on
shared queues. Each such method is tied to a function on values, and the theorems are about those
functions. The double SHA-256 is a parameter, a function from byte strings to 32 bytes about which
nothing is assumed; results that need it to be free of collisions name the collision instead. Random
numbers, clocks and the network do not occur.

Some properties turned out not to hold of the code. They are stated as lemmas with an input that shows
it, next to the exact condition under which the code is right:

* The decoder accepts streams that the format's own rule refuses (`MerkleCodec.DecodeAcceptsMore`), namely
  those whose bits do not ask for as many hashes as there are (`MerkleCodec.AcceptedConformsIff`).
* Merging such trees can lose the root (`MerkleShape.MergeMayLoseTheRoot`). Merged lists are read back as
  the merged tree exactly if no node is stranded (`MerkleShape.MergedReadsBackIff`); trees of the
  right shape are safe (`MerkleMerge.MergeConforming`). Without a stranded node the root is kept, with one
  it is lost, up to a collision and one exception (`MerkleShape.MergedKeepsRoot`,
  `MerkleShape.StrandedLosesRoot`): a subtree may stand where the decoder looks for it and be a copy of its
  sibling, and then the root survives by accident (`MerkleShape.StrandedMayKeepRoot`). So for the root
  alone no condition on the shape of the trees is exact.
* A transaction without inputs does not parse back (`TxFormat.TxRoundTripIff`).
* A Base58Check string of zero bytes is rejected by its own decoder unless the checksum starts with
  another byte (`Base58.RoundTripIff`).
* The amount parser may take a wrapped amount for a valid one (`AmountText.ParserMayWrap`,
  `Amounts.ParsedIff`).
* A target of zero counts as no work, although it is the hardest (`Target.WorkAntitoneIff`).
* The version of a symbol is not always the least that holds the input: the estimates may pass over a version
  (`QRVersions.VersionSkipped`), exactly if `QRVersions.Skipped` holds of it
  (`QRVersions.FinalVersionLeast`), and never if all entries have at most 256 bytes
  (`QRVersions.LeastForShort`). And an input that fits version 40 alone may be refused
  (`QRVersions.LargestRefused`).
* An alphanumeric segment is not broken at digits where that would save a single bit
  (`Weighing.AnBreaks`, `Weighing.AnBreakMisses`).
* Splitting over several symbols can give up on Kanji (`QRSplit.KanjiMayLeaveNothing`): exactly in the
  states `QRSplit.NothingLeft` describes, and never with Kanji entries of moderate length
  (`QRSplit.NeverStuck`).
* The check of Kanji admits bytes that cannot be read back (`QRSegments.KanjiRoundTripIff`,
  `Segmentation.KanjiMayChange`). Every string is encoded; it is read back exactly if the scan finds no such
  bytes (`Segmentation.CutClear`, `QRString.EncodeString`).

Where comments and code differ, the model follows the code: `decimalStringToInteger` is said to
constrain its input to valid values, which is true under the bounds above; `QRinput_encodeBitStream` is
said to return a positive number of bits, and the model returns the stream; the run-length scorer cites
section 8.8.2 of JIS X0510:2004, whose rule is taken for patterns of every size.

## Model

| member | source | states |
|---|---|---|
| PartialMerkleTree.PartialMerkleTree.Merge | deps/CoinCore/src/MerkleTree.cpp:248-276 | Trees over the same leaves always merge, and the result is the tree built from the union of their matches. For any two trees the decoder has accepted, the merge ends without reading an empty queue, only the four documented exceptions are possible, and after success exactly the transactions of both are reported, each with a proof. Trees of the format's shape keep it. After a merge the indices are the places of the reported hashes in the merged list, each once and rising. |
| PartialMerkleTree.PartialMerkleTree.MergeFrom | deps/CoinCore/src/MerkleTree.cpp:278-376 | The recursion on four queues computes the merge on values and leaves the queues exactly where both trees end, also where the queues change places. |
| PartialMerkleTree.PartialMerkleTree.MergeHere | deps/CoinCore/src/MerkleTree.cpp:289-376 | The branch for a bit that is set in one tree or both: left subtrees, then right subtrees where hashes remain. |
| PartialMerkleTree.PartialMerkleTree.MergeLists | deps/CoinCore/src/MerkleTree.cpp:248-276 | Count, depth and root are compared in this order; otherwise the lists become those of the merge, or its exception is passed on. The indices are set anew for the merged lists. |
| MerkleMerge.MergeBuilt | deps/CoinCore/src/MerkleTree.cpp:278-376 | On queues that start with two built trees over the same leaf hashes, merging never fails, yields the tree of the united matches and leaves what followed the trees. |
| MerkleMerge.MergeInnerBuilt | deps/CoinCore/src/MerkleTree.cpp:309-376 | The same below an inner node, for complete subtrees and for the right edge where subtrees are missing. |
| MerkleMerge.MergeSafe | deps/CoinCore/src/MerkleTree.cpp:278-376 | For any two streams the decoder accepts: the only possible failure is a hash mismatch, both streams are read to the ends of their trees, and the reported transactions are the union. |
| MerkleMerge.MergeFailureIsCollision | deps/CoinCore/src/MerkleTree.cpp:303-306 | If two accepted trees have one root and their merge still fails, two different strings hashed while decoding them have the same hash. |
| MerkleMerge.MergeConforming | deps/CoinCore/src/MerkleTree.cpp:278-376 | Merging two trees of the shape the transaction count demands gives a tree of that shape. |
| MerkleShape.MergeIsTogether | deps/CoinCore/src/MerkleTree.cpp:278-376 | For any two accepted streams, merging lays the two trees over each other: tips give way to subtrees, missing right subtrees to present ones. It fails, with a hash mismatch, exactly if a tip disagrees with what stands in its place. |
| MerkleShape.ReadBackIff | deps/CoinCore/src/MerkleTree.cpp:122-167 | The hashes and bits of a tree are read back as that tree exactly if right subtrees are missing at its right edge only. |
| MerkleShape.MergedReadsBackIff | deps/CoinCore/src/MerkleTree.cpp:278-376 | The merged lists of any two accepted trees are read back as the merged tree exactly if no node is stranded: both trees go on there, one alone has hashes for a right subtree, and the merged left subtree misses one itself. |
| MerkleShape.MergedKeepsRoot | deps/CoinCore/src/MerkleTree.cpp:278-376 | Two trees with one root and no stranded node merge into lists that decode, whole, to themselves and that root, unless two strings hashed in them collide. |
| MerkleShape.StrandedLosesRoot | deps/CoinCore/src/MerkleTree.cpp:278-376 | With a stranded node they do not decode, or to another root, unless two strings hashed there collide, or the decoder finds, where the merged tree misses a subtree, one with the root of its left sibling. |
| MerkleShape.StrandedMayKeepRoot | deps/CoinCore/src/MerkleTree.cpp:278-376 | That last exception is real, for every hash function: two trees with a stranded node whose merged lists decode, whole, to the common root, although as another tree. |
| MerkleShape.MisreadRoot | deps/CoinCore/src/MerkleTree.cpp:153 | Any tree the decoder reads wrongly, because hashes follow where a subtree is missing, gets another root, up to those two exceptions. |
| MerkleShape.MergeMayLoseTheRoot | deps/CoinCore/src/MerkleTree.cpp:278-376 | A stranded node can cost the root: two accepted trees with one root whose merged lists decode to another root, unless two strings named here have one hash. |
| PartialMerkleTree.MergeOfStored | deps/CoinCore/src/MerkleTree.cpp:248-276 | For two stored trees with one root: a mismatch of hashes is the only failure; otherwise every reported hash of the result is authenticated by the common root. |
| PartialMerkleTree.MergeOfUnstranded | deps/CoinCore/src/MerkleTree.cpp:248-276 | Two stored trees with one root and no stranded node merge into a stored tree: it decodes to itself under that root, unless two strings hashed in them collide. |
| PartialMerkleTree.MergeOfConforming | deps/CoinCore/src/MerkleTree.cpp:248-276 | The merged lists of two conforming trees decode to themselves under the common root. |
| PartialMerkleTree.MergeOfBuilt | deps/CoinCore/src/MerkleTree.cpp:248-276 | Two built trees over the same leaf hashes have one root, and their merge is the tree of the united matches. |
| PartialMerkleTree.PartialMerkleTree.SetUncompressed | deps/CoinCore/src/MerkleTree.cpp:169-188 | Refuses an empty list and changes nothing; otherwise the object is the partial tree of the leaves, and the indices are the places of the reported hashes in the stored list, each once and rising. |
| PartialMerkleTree.PartialMerkleTree.BuildRange | deps/CoinCore/src/MerkleTree.cpp:190-246 | The in-place recursion over a range of leaves, with its splice of subtrees and its pruning, gives the tree of that range. |
| PartialMerkleTree.PartialMerkleTree.SetCompressed | deps/CoinCore/src/MerkleTree.cpp:87-120 | Every outcome of decoding a message: which exception, or the decoded tree, with each reported transaction authenticated by its root, and the indices the places of the reported hashes in the stored list, each once and rising. |
| PartialMerkleTree.PartialMerkleTree.DecodeQueues | deps/CoinCore/src/MerkleTree.cpp:122-167 | The recursion on the two queues ends, refuses exactly what the decoder on values refuses, and leaves the same rest. |
| PartialMerkleTree.PartialMerkleTree.UpdateTxIndices | deps/CoinCore/src/MerkleTree.cpp:398-410 | Every index is a place in the stored list, the indices rise, and a place is among them exactly if the hash there is among the reported ones. |
| PartialMerkleTree.IndexesUnique | deps/CoinCore/src/MerkleTree.cpp:398-410 | Only one list of indices has these properties. |
| PartialMerkleTree.PartialMerkleTree.GetFlags | deps/CoinCore/src/MerkleTree.cpp:378-396 | The bytes carry the bits, lowest first, with zero bits up to a whole byte. |
| PartialMerkleTree.HoldsMeans | deps/CoinCore/src/MerkleTree.cpp:169-246 | A tree set from leaves has the block's Merkle root, reports the matched leaves in order, each with a proof, and has at most m * (depth + 1) hashes for m matches. |
| PartialMerkleTree.PaddingIsIgnored | deps/CoinCore/src/MerkleTree.cpp:87-120 | Decoding a built tree from its flag bytes restores it and leaves only padding zeros unread. |
| PartialMerkleTree.MerkleBlock.MerkleTree | deps/CoinCore/src/CoinNodeData.cpp:1992-1995 | The tree comes back from the block message as it was built; whatever the message, a tree that is returned is authenticated and has the message's root. |
| PartialMerkleTree.ComputeDepth | deps/CoinCore/src/MerkleTree.cpp:93-98 | The shift loop computes the logarithm of the count, rounded up. |
| PartialMerkleTree.UnpackFlags | deps/CoinCore/src/MerkleTree.cpp:106-111 | The queue holds the bits of the bytes, lowest first. |
| MerkleCodec.DecodeFrame | deps/CoinCore/src/MerkleTree.cpp:122-167 | Decoding depends only on the prefix it reads: the same tree comes back in front of any other rest, except that hashes may not appear where there were none. |
| MerkleCodec.DecodePrefix | deps/CoinCore/src/MerkleTree.cpp:122-167 | The decoder consumes exactly the hashes and bits of the tree it returns. |
| MerkleCodec.DecodeBuild | deps/CoinCore/src/MerkleTree.cpp:122-246 | Decoding what was built gives the same root, hashes, bits and reported transactions, with whatever followed left over. |
| MerkleCodec.DecodedIsAuthentic | deps/CoinCore/src/MerkleTree.cpp:122-167 | Whatever is accepted, every reported transaction has a path of exactly depth siblings that folds to the root. |
| MerkleCodec.DecodedIsSelfDecoding | deps/CoinCore/src/MerkleTree.cpp:122-167 | What was decoded can be stored and decodes to itself. |
| MerkleCodec.DecodeRefinesReference | deps/CoinCore/src/MerkleTree.cpp:153 | The test on remaining hashes agrees with the parser of BIP37, which goes by the transaction count, on every tree the latter accepts that is complete or reaches the end of the hashes. |
| MerkleCodec.DecodeAcceptsMore | deps/CoinCore/src/MerkleTree.cpp:153 | The converse fails: a stream with one hash that the parser of BIP37 refuses for three and four transactions. |
| MerkleCodec.AcceptedConformsIff | deps/CoinCore/src/MerkleTree.cpp:153 | When it does hold: what the decoder accepts to the last hash is what the parser of BIP37 reads exactly if the bits, read under the transaction count, ask for as many hashes as there are. |
| MerkleCodec.StoredConformsIff | deps/CoinCore/src/MerkleTree.cpp:122-167 | A stored tree has the shape of BIP37 exactly if its bits ask for as many hashes as it has, and no bits are left. |
| MerkleCodec.ReferenceReadsAsked | deps/CoinCore/src/MerkleTree.cpp:153 | The parser of BIP37 reads a stream exactly if it has the hashes its bits ask for, and leaves the rest. |
| MerkleCodec.BuildConforms | deps/CoinCore/src/MerkleTree.cpp:190-246 | The parser of BIP37 reads a built tree back whole, whatever follows it. |
| MerkleCodec.ReferenceDecodeConforms | deps/CoinCore/src/MerkleTree.cpp:122-167 | What the parser of BIP37 has read, it reads again from the tree's own hashes and bits. |
| MerkleCodec.BuildReportsMatches | deps/CoinCore/src/MerkleTree.cpp:190-246 | The reported transactions are the matched leaves in leaf order. |
| MerkleCodec.BuildRootOfHashes | deps/CoinCore/src/MerkleTree.cpp:190-246 | The root is that of the leaf hashes, whichever of them are matched. |
| MerkleCodec.BuildSize | deps/CoinCore/src/MerkleTree.cpp:190-246 | m matches at depth d need at most m * (d + 1) hashes, no match needs one. |
| MerkleRoot.TopDownRootIsLevelRoot | deps/CoinCore/src/MerkleTree.cpp:26-51 | Splitting at powers of two from the top and doubling a lone left subtree gives the root computed level by level, for every number of leaves. |
| MerkleRoot.TopDownOverPaired | deps/CoinCore/src/MerkleTree.cpp:26-51 | Pairing neighbours first and splitting one level less gives the same root. |
| MerkleRoot.MerkleTree.GetRoot | deps/CoinCore/src/MerkleTree.cpp:26-51 | The loop over levels computes the level root, and refuses the empty tree. |
| MerkleFlags.PackFlags | deps/CoinCore/src/MerkleTree.cpp:378-396 | The written bytes, unpacked, are the bits followed by fewer than eight zeros. |
| MerkleFlags.BitsOfPacked | deps/CoinCore/src/MerkleTree.cpp:378-396 | Unpacking a packed number gives the packed bits and zeros. |
| ReedSolomon.RS.EncodeRsChar | deps/qrencode-3.4.3/rscode.c:301-327 | For every data block, data followed by the parity the shift register leaves is a codeword: a polynomial over GF(256) that vanishes at every root of the generator. |
| ReedSolomon.RS.NextByte | deps/qrencode-3.4.3/rscode.c:308-325 | One byte through the register is one step of polynomial division by the generator. |
| ReedSolomon.RS.AddFeedback | deps/qrencode-3.4.3/rscode.c:312-325 | The inner loop in log form adds the feedback times the generator. |
| ReedSolomon.RS.InitRsChar | deps/qrencode-3.4.3/rscode.c:99-210 | Null exactly for parameters out of range; otherwise the tables are those of the field and the generator is stored in log form. |
| ReedSolomon.RS.FillTables | deps/qrencode-3.4.3/rscode.c:150-169 | The walk through the powers of alpha fills mutually inverse tables and comes back to one: the polynomial 0x11d is primitive. |
| ReedSolomon.RS.FormGenerator | deps/qrencode-3.4.3/rscode.c:190-206 | The in-place product of the roots is the generator polynomial, then stored as logarithms. |
| ReedSolomon.RS.MultiplyByRoot | deps/qrencode-3.4.3/rscode.c:193-203 | One round in place, from the top coefficient down, multiplies by x + alpha^root; a zero coefficient takes the branch without a log. |
| ReedSolomon.RS.Modnn | deps/qrencode-3.4.3/rscode.c:67-73 | Adding the digits to base 256 reduces modulo 255. |
| ReedSolomon.ParityUnique | deps/qrencode-3.4.3/rscode.c:301-327 | Only one parity makes a codeword of given data. |
| ReedSolomon.TablesInverse | deps/qrencode-3.4.3/rscode.c:150-165 | Log and antilog tables undo each other for every byte but zero. |
| ReedSolomon.TableProduct | deps/qrencode-3.4.3/rscode.c:317-323 | Adding logarithms modulo 255 multiplies field elements that are not zero. |
| ReedSolomon.CodewordStep | deps/qrencode-3.4.3/rscode.c:308-325 | A register step multiplies the value of data and register at a root of the generator by that root. |
| Polynomial.GeneratorVanishes | deps/qrencode-3.4.3/rscode.c:190-206 | The generator vanishes at each of its roots. |
| Polynomial.CoefficientNonzero | deps/qrencode-3.4.3/rscode.c:317-323 | No coefficient of the generator is zero when the powers alpha^prim, alpha^2prim, ... up to the number of roots differ from one: multiplication in log form without a test for zero is right. |
| Polynomial.Absorption | deps/qrencode-3.4.3/rscode.c:190-206 | The q-binomial recurrence between neighbouring coefficients of the generator, from which that follows. |
| Polynomial.CoprimePrim | deps/qrencode-3.4.3/rscode.c:190-206 | Every prim without a common factor with 255, so also prim = 1, meets that condition for fewer than 255 roots. |
| Polynomial.TooManyRoots | deps/qrencode-3.4.3/rscode.c:301-327 | A polynomial with as many different roots as coefficients is zero. |
| GF256Log.AlphaOrder | deps/qrencode-3.4.3/rscode.c:150-169 | alpha^k is one exactly if 255 divides k. |
| GF256Log.AlphaOnto | deps/qrencode-3.4.3/rscode.c:150-169 | Every element but zero is a power of alpha. |
| GF256Log.MulZeroIff | deps/qrencode-3.4.3/rscode.c:317-323 | A product is zero exactly if a factor is. |
| GF256.MulAssociates | deps/qrencode-3.4.3/rscode.c:150-169 | Multiplication modulo 0x11d is associative. |
| GF256.MulCommutes | deps/qrencode-3.4.3/rscode.c:150-169 | Multiplication modulo 0x11d is commutative. |
| GF256.MulDistributes | deps/qrencode-3.4.3/rscode.c:150-169 | Multiplication distributes over exclusive or. |
| TxFormat.TxRoundTripIff | deps/CoinCore/src/CoinNodeData.cpp:1432-1523 | A serialised transaction parses back to itself exactly if it has an input; with none, the count is read as the witness marker. |
| TxFormat.TxRoundTrip | deps/CoinCore/src/CoinNodeData.cpp:1432-1523 | A transaction with an input is read back from its serialisation followed by any bytes, with witnesses or without. |
| TxFormat.WriteTxSize | deps/CoinCore/src/CoinNodeData.cpp:1385-1407 | The computed size is the length of the serialisation, in both forms. |
| TxFormat.ReadListAhead | deps/CoinCore/src/CoinNodeData.cpp:1488-1507 | A count and its items are read back in front of any bytes. |
| TxFormat.WitnessReadable | deps/CoinCore/src/CoinNodeData.cpp:1124-1165 | A witness stack is read back in front of any bytes, and advances by its size. |
| TxFormat.TxInReadable | deps/CoinCore/src/CoinNodeData.cpp:1178-1204 | The same for inputs. |
| TxFormat.TxOutReadable | deps/CoinCore/src/CoinNodeData.cpp:1270-1290 | The same for outputs. |
| Wire.VarIntRoundTrip | deps/CoinCore/src/CoinNodeData.cpp:131-176 | Every 64-bit count is read back from its serialisation followed by any bytes, and its size is that of the serialisation. |
| Wire.LERoundTrip | deps/CoinCore/src/CoinNodeData.cpp:139-176 | Little-endian integers are read back. |
| Transaction.Transaction.GetSize | deps/CoinCore/src/CoinNodeData.cpp:1385-1407 | The loop adds up to the size of the fields, with or without witnesses. |
| Transaction.Transaction.GetSerialized | deps/CoinCore/src/CoinNodeData.cpp:1432-1466 | The bytes are the format's for the object's fields; marker and flag only if some input has a witness. |
| Transaction.Transaction.SetSerialized | deps/CoinCore/src/CoinNodeData.cpp:1468-1523 | Succeeds exactly on the strings the format accepts, and then sets the fields to what was read. |
| Transaction.Transaction.GetSigHash | deps/CoinCore/src/CoinNodeData.cpp:1608-1667 | If the memo is that of the object as it is, the digest and the refused cases are those of the definition, which computes everything afresh; with any memo they are those of the memoised form. Only the memo changes. |
| Transaction.Transaction.SetScriptSig | deps/CoinCore/src/CoinNodeData.cpp:1581-1586 | Sets one script if the index is in range, and keeps the memo. |
| Transaction.Transaction.ClearScriptSigs | deps/CoinCore/src/CoinNodeData.cpp:1575-1579 | Empties all scripts, and keeps the memo. |
| Transaction.Transaction.ResetSigHash | deps/CoinCore/src/CoinNodeData.cpp:1669-1674 | Forgets all sub-hashes. |
| SigHash.RunCorrect | deps/CoinCore/src/CoinNodeData.cpp:1608-1674 | Along every run of signing steps, script and witness edits, and other edits followed by resetSigHash before the next signature, every digest equals the one computed afresh. |
| SigHash.StepKeepsCoherence | deps/CoinCore/src/CoinNodeData.cpp:1608-1674 | Each such step leaves only sub-hashes that are those of the transaction as it is now. |
| SigHash.MemoCorrectIff | deps/CoinCore/src/CoinNodeData.cpp:1608-1674 | With any memo, a witness digest is right exactly if the memo completes to the right sub-hashes, or the two strings that were hashed collide. |
| SigHash.EditWithoutReset | deps/CoinCore/src/CoinNodeData.cpp:1669-1674 | What the reset is for: after a signature and an edit without reset, the next digest is right exactly if the edit kept all sub-hashes, or there is a collision. |
| SigHash.WitnessSigHashBinds | deps/CoinCore/src/CoinNodeData.cpp:1629-1667 | Equal BIP143 digests force equal version, outpoints, sequences, outputs, lock time, signed input, script and value, or two of the strings that were hashed collide. |
| SigHash.LegacySigHashBinds | deps/CoinCore/src/CoinNodeData.cpp:1617-1627 | Of two inputs without witness the digests that are returned are equal exactly if version, outpoints, sequences, outputs and lock time are the same, the scripts are the same, and the inputs have the same place unless the script is empty; or the two strings that were hashed collide. The value is not bound. |
| SigHash.LegacyParts | deps/CoinCore/src/CoinNodeData.cpp:1617-1627 | A reader of the format finds in the string that is hashed for an input without witness the transaction with the given script in its place, all other scripts empty and no witnesses, followed by the hash type in four bytes. |
| SigHash.ScriptSigsUnsigned | deps/CoinCore/src/CoinNodeData.cpp:1581-1627 | No digest, with witness or without, changes when the scripts of the inputs are replaced by any others. |
| SigHash.PreimageParts | deps/CoinCore/src/CoinNodeData.cpp:1653-1666 | Where each field of the signed string stands, down to the hash type in the last four bytes. |
| Target.CoinBlockHeader.SetTarget | deps/CoinCore/src/CoinNodeData.cpp:1743-1769 | Refuses exactly the targets from 2^2039 on, never for the mantissa; otherwise the field is the compact form. |
| Target.CoinBlockHeader.GetTarget | deps/CoinCore/src/CoinNodeData.cpp:1726-1741 | The target the field stands for, whatever its bits. |
| Target.CoinBlockHeader.GetWork | deps/CoinCore/src/CoinNodeData.cpp:1771-1776 | The work of that target. |
| Target.WorkIsQuotient | deps/CoinCore/src/CoinNodeData.cpp:1771-1776 | For a target t that is not zero, the work is the largest w with w * (t + 1) at most 2^256. |
| Target.TargetOfCompact | deps/CoinCore/src/CoinNodeData.cpp:1726-1769 | Reading back a compact form gives the target with its last bytes cleared. |
| Target.CompactLoss | deps/CoinCore/src/CoinNodeData.cpp:1726-1769 | The target read back is not above the one encoded, and less than a 2^15th of it is lost. |
| Target.CompactStable | deps/CoinCore/src/CoinNodeData.cpp:1726-1769 | Encoding what was read back gives the same bits. |
| Target.CompactMonotone | deps/CoinCore/src/CoinNodeData.cpp:1726-1769 | A larger target is never read back as a smaller one. |
| Target.WorkAntitoneIff | deps/CoinCore/src/CoinNodeData.cpp:1771-1776 | Work never rises with the target, but for a target of zero, which counts as no work: for s <= t, the work of t is at most that of s exactly if s is positive or t is no work either; and no work are zero and the targets from 2^256 on. |
| Target.ExponentLimit | deps/CoinCore/src/CoinNodeData.cpp:1764 | The exponent leaves its byte exactly from 2^2039 on. |
| Target.MantissaFits | deps/CoinCore/src/CoinNodeData.cpp:1756-1762 | The normalised mantissa has its sign bit clear, and is at least 2^15 for a target that is not zero. |
| Base58.RoundTripIff | deps/CoinCore/src/Base58Check.h:37-83 | What was encoded is decoded to itself exactly if version and payload have a byte that is not zero or the checksum does not start with one; otherwise the decoder rejects it. |
| Base58.VersionedRoundTripIff | deps/CoinCore/src/Base58Check.h:37-66 | The same for the form with a version byte. |
| Base58.AcceptedIsEncoding | deps/CoinCore/src/Base58Check.h:68-83 | A string that is accepted is what the encoder writes for its content exactly if all its characters are in the alphabet: one spelling for each content. |
| Base58.EncodedBytes | deps/CoinCore/src/Base58Check.h:37-50 | An encoding stands for the content followed by the first four bytes of its double hash, leading zeros included unless all are zero. |
| Base58.AcceptedIff | deps/CoinCore/src/Base58Check.h:68-83 | A string is accepted with a content exactly if what it stands for is that content followed by the first four bytes of its double hash, and these four are digits of its number, not leading zeros. |
| Base58.ToBase58Check | deps/CoinCore/src/Base58Check.h:51-62 | Digits and leading zeros of payload and checksum, for any alphabet of 58 different characters. |
| Base58.FromBase58Check | deps/CoinCore/src/Base58Check.h:68-83 | Accepts exactly what the specification of decoding accepts, and returns its content. |
| Base58.FromBase58CheckVersioned | deps/CoinCore/src/Base58Check.h:52-66 | The overload that takes the version off; an accepted empty content would be read past its end. |
| Base58.GetInBase | deps/CoinCore/src/BigInt.h:166-175 | The loop writes the numeral of the number, a single zero digit for zero. |
| Base58.SetInBase | deps/CoinCore/src/BigInt.h:177-186 | The loop computes the value of the characters that have a digit and skips the others; NUL counts as digit 58, since strchr finds the end of the alphabet. |
| Base58.CountLeading0Bytes | deps/CoinCore/src/Base58Check.h:24-29 | Counts the zero bytes at the front. |
| Base58.CountLeading0Symbols | deps/CoinCore/src/Base58Check.h:31-36 | Counts the zero digits at the front. |
| Numerals.NumeralParts | deps/CoinCore/src/BigInt.h:166-186 | Every numeral is its leading zeros and the digits of its value. |
| Numerals.ValueOfDigits | deps/CoinCore/src/BigInt.h:166-186 | The digits of a number have its value. |
| Amounts.DecimalStringToInteger | src/numberformats.cpp:83-121 | For every string, maximum and divisor, with all wrap-arounds at 64 bits: refused, or the total modulo 2^64. |
| Amounts.ParsedIff | src/numberformats.cpp:83-121 | Without overflow of amounts in range: those are parsed to their exact value, and others are refused unless their total wraps around into the range. |
| Amounts.ParsedExactly | src/numberformats.cpp:83-121 | With room for one more digit the parser is right on every string: it accepts exactly the amounts in range, with their exact values. |
| AmountText.ParserMayWrap | src/numberformats.cpp:83-121 | Without that room it may be wrong: 19 with a maximum of 17 and 18 decimals is accepted as less than one. |
| Amounts.Validate | src/currencyvalidator.cpp:26-71 | Which strings are intermediate, acceptable or invalid. |
| AmountText.ValidIff | src/currencyvalidator.cpp:26-71 | Acceptable are exactly the amounts in range without a redundant leading zero. |
| AmountText.ValidIsParsed | src/currencyvalidator.cpp:26-71 | What the validator accepts, the parser reads exactly, and it is not over the maximum. |
| AmountText.ParserAndValidatorAgree | src/currencyvalidator.cpp:26-71 | With room for one more digit they accept the same strings but for redundant zeros. |
| AmountText.SatoshisToBtcString | deps/CoinCore/src/CoinNodeData.cpp:74-91 | A whole part without redundant zeros and a fraction of the exact value: eight digits, or the shortest without trailing zeros. |
| AmountText.PrintedIsParsed | deps/CoinCore/src/CoinNodeData.cpp:74-91 | Every amount in range prints as a string the validator accepts and the parser reads back, with trailing zeros or without. |
| QRSplit.SplitQRinputToStruct | deps/qrencode-3.4.3/qrinput.c:1578-1676 | Ends, with the outcome of the division of the input. The parts are at most sixteen, each with its header within the capacity; they hold every byte with its mode, in order; each but the last is too full for the first character of the next; and the headers carry the number of symbols, their own number and the parity of all data. It fails exactly for version 0, when the division has more than sixteen parts, or when it comes to a state in which nothing would be left of the next entry; that takes a long Kanji entry. |
| QRSplit.DivisionPacks | deps/qrencode-3.4.3/qrinput.c:1604-1663 | From every state of the loop: a division that ends packs all data, and one that gets stuck does so at a Kanji entry that is estimated not to fit and would not be cut before its end. |
| QRSplit.NeverStuck | deps/qrencode-3.4.3/qrinput.c:1620-1629 | Entries of Kanji no longer than 2 to the length of their count field, and so inputs without Kanji, never get stuck. |
| QRSplit.SplitMeans | deps/qrencode-3.4.3/qrinput.c:1578-1676 | What each outcome means, for every input. |
| QRSplit.SetReadsBack | deps/qrencode-3.4.3/qrinput.c:1578-1702 | Whoever decodes all symbols of a set finds in each the number of symbols, its own number and the parity of the data, and behind these, joined in order, the data: as they were exactly if no Kanji has a trail byte below 0x40. |
| QRSplit.LengthOfCode | deps/qrencode-3.4.3/qrinput.c:1002-1042 | The largest size of a segment that fits into the bits, and so the adjoint of the segment size: a number of bytes is at most the result exactly if a segment of that size fits. Headers are counted in whole bytes. |
| QRSplit.CalcParity | deps/qrencode-3.4.3/qrinput.c:308-325 | The exclusive or of all data bytes, headers not counted. |
| QRSplit.SplitEntry | deps/qrencode-3.4.3/qrinput.c:1556-1576 | Cuts without losing a byte or changing a mode; fails exactly if the second half would be empty or refused by the check. |
| QRSplit.InsertHeaders | deps/qrencode-3.4.3/qrinput.c:1678-1702 | Header i of n in front of part i. |
| QRSplit.CutStep | deps/qrencode-3.4.3/qrinput.c:1612-1643 | Cutting an entry keeps all bytes, and the part it completes fits. |
| QRSplit.FullAfterCut | deps/qrencode-3.4.3/qrinput.c:1612-1643 | After a cut there is no room for one more character, not even in a segment of its own. |
| QRSplit.KeepStep | deps/qrencode-3.4.3/qrinput.c:1604-1611 | An entry that is estimated to fit does fit. |
| QRSplit.RoomAtStart | deps/qrencode-3.4.3/qrinput.c:1612-1643 | An empty part always has room for a first character, so that the loop never moves an entry twice. |
| QRSplit.CutInside | deps/qrencode-3.4.3/qrinput.c:1612-1643 | Other entries than Kanji are always cut before their end. |
| QRSplit.KanjiMayLeaveNothing | deps/qrencode-3.4.3/qrinput.c:1578-1676 | The splitter does fail: sixteen bytes followed by 129 Kanji leave nothing for version 9 and level L, whatever the bytes. |
| QRSplit.ParityAppend | deps/qrencode-3.4.3/qrinput.c:308-325 | The parity of a whole is that of its parts. |
| QRInputs.QRInput.ConvertData | deps/qrencode-3.4.3/qrinput.c:1154-1179 | Ends with a version not below the one it started with, and the encoded bits fit it, or even the largest symbol is too small for them. Of the smaller versions that were not excluded none is estimated to hold the input, and none holds its bits if it has no Kanji entry longer than 256 bytes, but for versions the code passes over: exactly those that QRVersions.Skipped describes. |
| QRInputs.QRInput.EstimateVersion | deps/qrencode-3.4.3/qrinput.c:977-993 | Ends with the version the estimates lead to; it holds what was estimated for some version not below it. |
| QRInputs.QRInput.AppendPaddingBit | deps/qrencode-3.4.3/qrinput.c:1191-1244 | Fails exactly if the bits exceed the capacity; otherwise keeps them and fills the symbol exactly. |
| QRInputs.QRInput.GetByteStream | deps/qrencode-3.4.3/qrinput.c:1426-1439 | Exactly as many bytes as the final version holds: the encoded input and the padding. None exactly if there is no such version, which means that the input exceeds every symbol. The version is the least one in the same sense. |
| QRInputs.QRInput.CreateBitStream | deps/qrencode-3.4.3/qrinput.c:1127-1141 | The streams of the entries, in order, and their total length. |
| QRInputs.QRInput.EstimateBitStreamSize | deps/qrencode-3.4.3/qrinput.c:958-970 | The sum of the estimates of the entries. |
| QRInputs.QRInput.Append | deps/qrencode-3.4.3/qrinput.c:222-234 | Takes an entry exactly if the check accepts it. |
| QRInputs.PaddingTerminates | deps/qrencode-3.4.3/qrinput.c:1191-1244 | The padding starts with a terminator, as far as there is room. |
| QRInputs.PaddingMeans | deps/qrencode-3.4.3/qrinput.c:1191-1244 | Behind the bits come zeros, at least four, to the end of a byte, and then the bytes 0xEC and 0x11 in turn. |
| QRInputs.ByteStreamDecodes | deps/qrencode-3.4.3/qrinput.c:1426-1439 | The byte stream decodes to what a reader makes of the input: its bytes with their modes, exactly if no Kanji has a trail byte below 0x40. |
| QREstimates.FittingIsPiece | deps/qrencode-3.4.3/qrinput.c:903-950 | An entry estimated to fit a symbol is short enough for one segment, and takes at most the estimated bits, exactly those but for Kanji. |
| QRVersions.FinalVersionLeast | deps/qrencode-3.4.3/qrinput.c:977-1179 | If a version that was not excluded is estimated to hold the input, the version used is not larger, unless that one is passed over; and below version 40 conversion then succeeds. |
| QRVersions.FinalVersionIsLeast | deps/qrencode-3.4.3/qrinput.c:977-1179 | The smaller versions that are estimated to hold an input are exactly those that are passed over; for entries without long Kanji, so are those that hold its bits. |
| QRVersions.LeastForShort | deps/qrencode-3.4.3/qrinput.c:977-1179 | With entries of at most 256 bytes no version is passed over: the version used is the least one that holds the input, by its bits and by the estimate. |
| QRVersions.VersionSkipped | deps/qrencode-3.4.3/qrinput.c:977-993 | A version is passed over: 1990 alphanumeric characters fill version 26 of level L exactly, and are put into version 27. |
| QRVersions.LargestRefused | deps/qrencode-3.4.3/qrinput.c:1154-1179 | The largest symbol may be refused: 2953 bytes fit version 40 of level L, but conversion fails unless a large version is asked for. |
| QRVersions.EstimateFromIs | deps/qrencode-3.4.3/qrinput.c:977-993 | The loop of estimates ends after three steps at most, with the least version for the estimate of one of the three groups of versions. |
| QRVersions.EstimatesCompare | deps/qrencode-3.4.3/qrinput.c:903-970 | The estimate for larger versions is at most the double, and the one for smaller versions at most a hundredth larger. |
| QRSegments.StreamRoundTrip | deps/qrencode-3.4.3/qrinput.c:410-759 | The reference decoder recovers all segments, as far as they can be recovered, from a bit stream, whatever follows the terminator. |
| QRSegments.PieceRoundTrip | deps/qrencode-3.4.3/qrinput.c:410-759 | One segment is read back in front of any bits. |
| QRSegments.PayloadRoundTrip | deps/qrencode-3.4.3/qrinput.c:410-718 | The same for the characters of a segment, in groups. |
| QRSegments.GroupRoundTrip | deps/qrencode-3.4.3/qrinput.c:410-718 | A group of characters fits its bits and comes back from its number, unless it is a Kanji with a small trail byte. |
| QRSegments.KanjiRoundTripIff | deps/qrencode-3.4.3/qrinput.c:675-718 | A Kanji is recovered exactly if its trail byte is at least 0x40, which the check does not ask for. |
| QRSegments.DataReadIff | deps/qrencode-3.4.3/qrinput.c:675-718 | Data of any mode are read as they were exactly if no Kanji among them has a trail byte below 0x40. |
| QRSegments.PayloadLength | deps/qrencode-3.4.3/qrinput.c:380-639 | The characters of a segment take the estimated bits. |
| QREncoder.InputRoundTrip | deps/qrencode-3.4.3/qrinput.c:1053-1117 | All bytes come back with their modes, in order, also where entries are split at the length of the count field: exactly if no Kanji has a trail byte below 0x40. |
| QREncoder.EncodeBitStream | deps/qrencode-3.4.3/qrinput.c:1053-1117 | The recursion that cuts a long entry ends and writes its segments. |
| QREncoder.EncodeModeNum | deps/qrencode-3.4.3/qrinput.c:410-459 | Mode, count and groups of three digits. |
| QREncoder.EncodeModeAn | deps/qrencode-3.4.3/qrinput.c:523-568 | Mode, count and pairs of characters. |
| QREncoder.EncodeMode8 | deps/qrencode-3.4.3/qrinput.c:593-624 | Mode, count and bytes. |
| QREncoder.EncodeModeKanji | deps/qrencode-3.4.3/qrinput.c:675-718 | Mode, count of characters and packed pairs of bytes. |
| QREncoder.EncodeModeStructure | deps/qrencode-3.4.3/qrinput.c:734-759 | The header of a structured append symbol. |
| QREncoder.PiecesAsRead | deps/qrencode-3.4.3/qrinput.c:1063-1085 | Splitting an entry at the maximum changes nothing for a reader. |
| BitStreams.BitStream.AppendNum | deps/qrencode-3.4.3/bitstream.c:66-94 | Appends the low bits of the number, the highest first. |
| BitStreams.BitStream.AppendBytes | deps/qrencode-3.4.3/bitstream.c:96-126 | Appends eight bits for each byte. |
| BitStreams.BitStream.ToByte | deps/qrencode-3.4.3/bitstream.c:192-230 | Eight bits to a byte, a shorter last byte in its low bits; nothing for an empty stream. |
| BitStreams.PackedWhole | deps/qrencode-3.4.3/bitstream.c:192-230 | Packing loses nothing when the bits fill whole bytes. |
| Bits.NumberOfBits | deps/qrencode-3.4.3/bitstream.c:66-94 | The bits of a number that fits have its value. |
| Segmentation.SplitString | deps/qrencode-3.4.3/split.c:259-280 | Appends the segments of the string, each of which passes the check; the recursion ends. |
| Segmentation.CutJoins | deps/qrencode-3.4.3/split.c:259-280 | The segments of a string join to the string, whatever the weighing of bits decides. |
| Segmentation.CutClear | deps/qrencode-3.4.3/split.c:48-81 | All Kanji among the segments can be recovered by a reader exactly if the scan along the string finds none with a trail byte below 0x40, wherever the weighing of bits cuts. |
| Segmentation.KanjiMayChange | deps/qrencode-3.4.3/split.c:172-187 | A string of two bytes that is encoded as one Kanji and read as another. |
| Segmentation.EatNum | deps/qrencode-3.4.3/split.c:83-121 | Appends the front of the string, not empty, in the mode and of the length that the weighing of bits chooses; Weighing.NumChoiceWeighs says what that achieves. |
| Segmentation.EatAn | deps/qrencode-3.4.3/split.c:123-170 | The same, with Weighing.AnChoiceWeighs; where digits were handed over, the segment is not empty, although the loop may stop at digits. |
| Segmentation.EatKanji | deps/qrencode-3.4.3/split.c:172-187 | The same, for whole pairs of bytes. |
| Segmentation.Eat8 | deps/qrencode-3.4.3/split.c:189-257 | The same, with Weighing.EightBreaks. |
| Weighing.AnChoiceWeighs | deps/qrencode-3.4.3/split.c:157-164 | For runs of every length: the run stays alphanumeric exactly if its encoding, with the next character as 8 bit segment behind it, takes no more bits than both as one 8 bit segment. |
| Weighing.NumChoiceWeighs | deps/qrencode-3.4.3/split.c:96-113 | The same for digits in front of a character of 8 bit mode and of one of alphanumeric mode. |
| Weighing.EightBreaks | deps/qrencode-3.4.3/split.c:207-249 | An 8 bit segment is broken at digits or alphanumeric characters exactly if the bits in front, those of the run in its own mode with its header, and a header to return to 8 bit mode if such a character follows, are together fewer than in 8 bit mode; in sizes of encoded segments while each is one segment. |
| Weighing.AnBreaks | deps/qrencode-3.4.3/split.c:135-153 | The same for an alphanumeric segment at digits, but for one bit: the header to return is counted with the length field of numeric mode. |
| Weighing.AnBreakMisses | deps/qrencode-3.4.3/split.c:140-145 | That bit matters: thirteen digits between letters for which breaking and returning would take 95 bits where the code takes 96. |
| Segmentation.SplitStringToQRInput | deps/qrencode-3.4.3/split.c:306-327 | Refuses exactly the empty string; the entries are the segments of the string, or of the string in capitals, and join to it. |
| Segmentation.DupAndToUpper | deps/qrencode-3.4.3/split.c:282-304 | Capitals everywhere but in Kanji. |
| Segmentation.UpperTrails | deps/qrencode-3.4.3/split.c:282-304 | Capitals make no new Kanji and spoil none. |
| QRSpec.GetMinimumVersion | deps/qrencode-3.4.3/qrspec.c:111-122 | The smallest version with enough capacity, or none if no version has. |
| QRSpec.CapacityMonotone | deps/qrencode-3.4.3/qrspec.c:48-90 | Capacity never falls with the version, for any level. |
| QRSpec.ConsistentAt | deps/qrencode-3.4.3/qrspec.c:192-259 | For all forty versions and four levels the two tables fit together: data and parity share out over the blocks without rest, and no block is longer than 255 bytes. |
| QRSpec.GroupCapacity | deps/qrencode-3.4.3/qrspec.c:48-90 | No symbol has room for more bits than the bound of its group of versions. |
| QRString.EncodeString | deps/qrencode-3.4.3/qrencode.c:635-671 | For every string, without conditions: with the hints 8 bit and Kanji and a string that is not empty there is a symbol unless its segments are too long for every symbol, in the least version for them but for those passed over, and for at most 256 bytes in the least that holds them. Either copy of the format in the symbol names the level and the mask. Who takes them from there, takes the mask off the colours of the modules, follows the path and decodes the segments reads as many bytes, and reads the string, or the string in capitals, exactly if the scan finds no Kanji with a trail byte below 0x40. |
| QRString.EncodeMask | deps/qrencode-3.4.3/qrencode.c:463-548 | There is no symbol exactly if the input is too long for every symbol; its version is the least but for those passed over. Either copy of its format names the level and the mask that was used, and who takes them from there reads the entries of the input from the colours of the modules, but for Kanji that cannot be recovered. |
| QRString.FormatStays | deps/qrencode-3.4.3/qrencode.c:463-548 | Placing data leaves the format areas alone. |
| QRString.ReservedStays | deps/qrencode-3.4.3/qrencode.c:463-548 | Placing data leaves the same modules reserved. |
| QRReader.SameModulesSameData | deps/qrencode-3.4.3/qrencode.c:463-548 | Reading depends only on the colours of the modules that are not reserved. |
| QRReader.FormatRead | deps/qrencode-3.4.3/mask.c:34-74 | The modules of either copy of the format, read from the highest bit down, give the word that was written. |
| QRReader.ScanIs | deps/qrencode-3.4.3/qrencode.c:463-548 | Who knows nothing but the colours and the size of a symbol reads what the bytes of the frame, the level and the mask give. |
| Bch.FormatWords | deps/qrencode-3.4.3/qrspec.c:379-391 | Each of the 32 format words, taken exclusive or with 0x5412, is a multiple of the generator 0x537 of its BCH code, and starts with the two bits of its level and the three of its mask. |
| Bch.VersionWords | deps/qrencode-3.4.3/qrspec.c:359-372 | Each of the 34 version words is a multiple of the generator 0x1F25 of its code and starts with the six bits of its version. |
| QRCode.EncodeFrame | deps/qrencode-3.4.3/qrencode.c:463-520 | The frame before masking reads as the input, but for Kanji that cannot be recovered, and holds codewords of the Reed-Solomon code on the empty symbol of its version; there is none exactly if the input is too long for every symbol. |
| QRCode.HeldDataIsRead | deps/qrencode-3.4.3/qrencode.c:162-183 | Reading the frame block by block gives back the data bytes. |
| QRCode.SpecLayout | deps/qrencode-3.4.3/qrspec.c:237-259 | The block specification of each version fits its capacity and the code. |
| QRFrameCount.FreeModules | deps/qrencode-3.4.3/qrspec.c:439-520 | The empty symbol of each of the forty versions leaves exactly as many modules free as its codewords and remainder bits need, and reserves every module the path does not pass. |
| QRFrameCount.ReservedCard | deps/qrencode-3.4.3/qrspec.c:439-520 | How many modules are reserved: 225 in the corners, the timing patterns, the alignment patterns that lie off or on them, and the version. |
| QRFrameCount.DrawnReserved | deps/qrencode-3.4.3/qrspec.c:439-520 | Which modules are reserved: the three corners, row and column 6, the alignment patterns, and from version 7 on the version. |
| QRFrameCount.DrawnFormat | deps/qrencode-3.4.3/qrspec.c:469-481 | The thirty modules of the format are reserved and light, although later patterns are drawn over the corners. |
| QRFrameCount.DrawnVersion | deps/qrencode-3.4.3/qrspec.c:494-505 | From version 7 on both copies of the version word are in the empty symbol, bit by bit. |
| QRFrameCount.CapacityFits | deps/qrencode-3.4.3/qrspec.c:48-90 | The tables of widths, capacities and alignment patterns fit together for all forty versions. |
| QRFrameCount.GridTakes | deps/qrencode-3.4.3/qrspec.c:313-349 | The alignment patterns never overlap, so that each adds all its modules off the timing patterns. |
| QRFrame.CreateFrame | deps/qrencode-3.4.3/qrspec.c:439-520 | The frame shows the layers of the empty symbol, module by module, each over the former. |
| QRFrame.PutAlignment | deps/qrencode-3.4.3/qrspec.c:313-349 | The loops put a pattern at each crossing of the positions but the three under finder patterns; a single one up to version 6. |
| QRFrame.AlignmentGrid | deps/qrencode-3.4.3/qrspec.c:272-283 | The positions keep their distance and end seven modules before the edge, in every version. |
| QRFrame.PutTile | deps/qrencode-3.4.3/qrspec.c:413-436 | The nested loops copy the table to its place and change nothing else. |
| QRFrame.PatternsAreRings | deps/qrencode-3.4.3/qrspec.c:290-311 | Finder and alignment patterns are square rings: light at distance 2 and at distance 1 of the centre, dark elsewhere, and reserved. |
| QRFrame.PutVersionBelow | deps/qrencode-3.4.3/qrspec.c:494-505 | Eighteen bits of the version, the lowest first, three to a column. |
| QRSymbol.PlaceStream | deps/qrencode-3.4.3/qrencode.c:495-520 | Fails exactly if the frame has fewer free modules than bits; otherwise the bits of all codewords and the remainder lie along the path, and nothing else has changed. |
| QRSymbol.SymbolReadsBack | deps/qrencode-3.4.3/qrencode.c:502-520 | Byte k of block r is found at its place along the path of the finished frame. |
| QRSymbol.QRRawCode.GetCode | deps/qrencode-3.4.3/qrencode.c:162-183 | The codewords in the interleaved order, then zeros. |
| QRSymbol.RSblockInit | deps/qrencode-3.4.3/qrencode.c:72-109 | Blocks that join to the data, each a codeword; none exactly if a block would be empty or longer than 255 bytes. |
| RawCode.ReadBack | deps/qrencode-3.4.3/qrencode.c:162-183 | Every byte of every block is sent at its place. |
| RawCode.PlacesCover | deps/qrencode-3.4.3/qrencode.c:162-183 | Every codeword sent is a byte of some block. |
| RawCode.PlacesDistinct | deps/qrencode-3.4.3/qrencode.c:162-183 | No two bytes share a place: the interleaving is a bijection. |
| FrameFillers.FrameFiller.Next | deps/qrencode-3.4.3/qrencode.c:316-371 | Each call returns the next free module of the path, and NULL when none is left. |
| FrameFillers.Moves | deps/qrencode-3.4.3/qrencode.c:331-361 | The three moves of the state machine: across, along, and to the next pair with the step around the timing column. |
| Placement.TrailIsEveryFreeModule | deps/qrencode-3.4.3/qrencode.c:316-371 | No module is passed twice and no reserved one at all; every free module is passed exactly if column 6 and the first nine rows of columns 4 and 5 are reserved. |
| Placement.TrailMembers | deps/qrencode-3.4.3/qrencode.c:316-371 | A module is still to come exactly if it is free and its place on the path is not yet passed. |
| Mask.RunScoreIsLineScore | deps/qrencode-3.4.3/mask.c:188-219 | The score of a run array is the score by the pixel rules: runs of five and more, and patterns 1:1:3:1:1 of any unit with four light units before or after, everything outside being light. |
| Mask.FinderAgrees | deps/qrencode-3.4.3/mask.c:198-212 | The test on five neighbouring runs finds exactly the patterns in the pixels. |
| Mask.SameColourInRun | deps/qrencode-3.4.3/mask.c:194-197 | Inside a run, the pixels of one colour are counted from its start. |
| Mask.RunArrayUnique | deps/qrencode-3.4.3/mask.c:244-272 | A line has one run array only. |
| MaskScore.CalcRunLength | deps/qrencode-3.4.3/mask.c:244-272 | The runs describe the line, and are at most one more than its pixels. |
| MaskScore.CalcN1N3 | deps/qrencode-3.4.3/mask.c:188-219 | The score of the line by the pixel rules. |
| MaskScore.CalcN2 | deps/qrencode-3.4.3/mask.c:221-242 | Three for each block of two by two modules of one colour. |
| MaskScore.EvaluateSymbol | deps/qrencode-3.4.3/mask.c:274-294 | The score of all rows, columns and blocks by the rules. |
| MaskChoice.MaskMask | deps/qrencode-3.4.3/mask.c:296-330 | The first mask with the lowest score, dark modules being counted in the finished symbol; one is always chosen. |
| MaskChoice.ScoreBelowLimit | deps/qrencode-3.4.3/mask.c:296-330 | No symbol of any version scores as much as the initial limit. |
| MaskScore.SymbolScoreBound | deps/qrencode-3.4.3/mask.c:274-294 | The score is at most 89 for each module. |
| MaskChoice.ScoreMask | deps/qrencode-3.4.3/mask.c:310-320 | One round: the masked symbol with its format information, and its score. |
| MaskChoice.RatioPenaltyMeans | deps/qrencode-3.4.3/mask.c:311-313 | Ten for each full five percent between a half and the share of dark modules, rounded to whole percents. |
| MaskChoice.MaskMaker | deps/qrencode-3.4.3/mask.c:86-141 | Turns over exactly the modules of the mask that are not reserved, and counts the dark ones. |
| MaskChoice.WriteFormatInformation | deps/qrencode-3.4.3/mask.c:34-74 | Writes each format bit in its two places and counts two for each set bit. |
| MaskChoice.FormatDark | deps/qrencode-3.4.3/mask.c:34-74 | That count is the number of dark modules added. |
| MaskChoice.FormatPlacesDistinct | deps/qrencode-3.4.3/mask.c:45-71 | The thirty places are different. |
| MaskChoice.WithBitsMeans | deps/qrencode-3.4.3/mask.c:34-74 | Both copies of every bit are there, and no other module has changed. |
| MaskChoice.MaskTwice | deps/qrencode-3.4.3/mask.c:86-101 | Masking twice changes nothing. |
| MaskChoice.FlipsByProduct | deps/qrencode-3.4.3/mask.c:128-141 | Masks 5 and 6 in terms of the product of row and column: where 6 divides it, and where its remainder by 6 is below 3. |
| MaskChoice.Unmasked | deps/qrencode-3.4.3/mask.c:296-330 | Taking the mask off a finished symbol gives back every module that is not reserved. |

## Left out

- Transaction.Transaction.SetSerialized: positions are unbounded numbers, where the code keeps them in 32 bits; reading past the end of the string, which the code does not check everywhere, is a failure; and the fields after a failed parse are not described.
- Transaction.Transaction.SetScriptSig: for a transaction without inputs the guard of the code wraps around and the write is out of bounds; here it is a refusal.
- PartialMerkleTree.PartialMerkleTree.SetCompressed: the lists after an exception are not described, and the transaction count is an unbounded number.
- PartialMerkleTree.PartialMerkleTree.Merge: after an exception only the four causes are stated, not the half-merged lists; hashes in the lists are byte strings, of 32 bytes only where a collision is exhibited.
- ReedSolomon.RS.InitRsChar: symbols of eight bits and the polynomial 0x11d, the only ones in use; the search for an inverse of prim, which only a decoder needs, is not modelled, and it ends only for a prim without common factor with 255, which is required here.
- Amounts.DecimalStringToInteger: the count of decimals does not wrap at 32 bits.
- QRSplit.SplitQRinputToStruct: each part is given as the list of its entries, not as an object of its own; the linked lists of the source, which are relinked in place, are sequences. That the number of parts is the least possible is not claimed, only that none could take more from the next; and an input that already has structured append headers is not split here.
- Segmentation.SplitString: that the whole cut is the cheapest is not claimed, and neither does the code; `Weighing` says what each decision achieves.
- Weighing.EightBreaks: for runs longer than one segment holds, the bits of the characters and one header each are compared, as in the code, not the headers of all segments.
- Weighing.AnBreaks: the same for alphanumeric runs.
- QRVersions.FinalVersionIsLeast: with Kanji entries longer than 256 bytes the least version is that of the estimate, which then counts more segments than are written.
- QRString.EncodeString: the error correction a real reader would do is not part of this model; the reader takes the modules as they are, from a symbol whose version it knows from its size.
- FrameFillers.FrameFiller.Next: what further calls return after the first NULL is not described; the callers stop there.
- QRSymbol.RSblockInit: each block has its own copy of its data, where the code shares one buffer; the cache of Reed-Solomon objects is left out.
- MaskChoice.MaskMask: symbols are those of versions 1 to 40, at most 177 modules wide.
- Memory: allocation always succeeds, and freeing is left out.
- Micro QR codes, ECI and FNC1 segments: other branches of the same functions that the wallet does not use.
- The cache of empty QR frames.
- Serialisation of block headers and block messages, block header hashes and their caches: they would add easy members, or, for the second hash, none that hold.
- Hash types other than SIGHASH_ALL are refused by the code as well.
- Addresses, JSON, indented text and regular expressions: formatting only.
- Keys, AES and the OpenSSL calls behind BigInt: foreign code; BigInt is a natural number here.
- Bloom filters, IPv6 addresses, hexadecimal validation, payment requests and amounts in floating point: easy members, or unfinished in the source.
- The user interface, the network, the database and the daemon.
