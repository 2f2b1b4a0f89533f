# Commitments, Ed25519 arithmetic and undo of the ADS node

A Dafny model of three parts of the ADS blockchain node and proofs about it.

- **The Merkle commitment.** A message hashes its transactions into a binary counter tree that logs its inner nodes;
  `hashpath` finds the siblings of a leaf in that log by arithmetic alone; the message file and the block's list file
  keep the log without its root; a client folds the hashes it is sent up to the block hash. The project proves that
  the tree computes the root of RFC 6962 (section 2.1) with a commutative node hash, that the arithmetic finds an
  inclusion path for every size and index, and follows a transaction through both files to the verdict of the client,
  and states what that verdict binds the client to. Modules `Binary`, `Words`, `Popcount`, `MerkleTree`, `MerkleLog`,
  `HashPath`, `MerkleProof`, `StoredProof`, `Digests`, `HashTree`, `Bytes`, `Framing`, `TxForms`, `Messages`,
  `MessageFile`, `ProofReader`, `BlockFile`, `Inclusion`, `Collisions`, `Binding`.
- **Ed25519, portable 64-bit code.** Scalars modulo the group order (`Modm`, `Columns`, `Barrett`, `ModmMul`,
  `ModmBytes`), field elements modulo 2^255 - 19 (`PrimeField`, `Field`, `FieldMul`, `FieldChains`, `FieldBytes`),
  points (`Points`, `NielsPoints`, `CurveLaw`), digit recodings and the loops that use them (`Digits`, `Expansion`,
  `SlidingWindow`, `DoubleScalarMult`, `Window4`), the Bos-Coster sum (`Groups`, `Limbs`, `BatchHeap`, `BosCoster`,
  `Divisors`, `MultiScalar`), the streaming hash (`Sha512`) and signatures (`Signing`).
- **The ledger's undo files and account checksums.** `Undo` and `Crc`. `Options` and `Arith` are shared.

SHA-256 is a function parameter, as is the compression of SHA-512 with its initial value and output encoding.
Scalar multiplication and signatures are stated over any abelian group; the group of a signature has a base point of
the given order and an encoding that the decoder inverts. Files are byte sequences, or maps of entries for the undo
files; what a read past the end of a file leaves behind is a parameter. Words wrap where the source's types do, and
where a bound shows that they do not, the arithmetic is on integers.

## Where the code and its intent differ

- Even leaf counts. The remap of positions uses 1024 as "just a large number" when no leaf is lone, so for even
  counts above 1026 proofs are read from the wrong place: those of every leaf but the last two of 1028
  (`StoredProof.ReadsBackAt`). `MessageFile.HashTreeGet` and `BlockFile.Block.MsglHashTreeGet` say what is read and
  answered for every leaf of every count.
- Types from 0x80 on. `get_size` compares a `char`, which is signed on the 64-bit targets, so such a type is not
  refused and its length is read in front of the table; `parse` holds the type unsigned and refuses it. What is read
  there is a parameter. The two agree exactly below 0x80 (`Framing.ParseAgreesIff`, `Framing.StrayType`), the hashers
  accept such a transaction (`Messages.StrayAccepted`), and with a length of zero they never end
  (`Framing.StrayStops`).
- Fields of a transaction. A new node and a new key carry no second node, but `parse` reads one: from the signature
  of the first and from the key itself of the second (`TxForms.ParseReadsOn`). The constructor of the broadcast
  question writes no block number and leaves its four bytes as they were (`TxForms.CopiesFill`).
- The last scalar of the batch sum. The last multiplication starts from the point, folds the leading bit in again and
  never reads the fifth limb. It is exact for 0, for 1 and from 3 * 2^223 to below 4 * 2^223
  (`MultiScalar.FactorExact`, `MultiScalar.TwoGivesSix`, `MultiScalar.ExactAbove`); the exact condition for a given
  point is `MultiScalar.WholeIff`. Once the second half has joined, the test for the neutral point still decides the
  sum, for points of small order as well: the leading bit is a multiple of 8 from 4 on, and 2 and 3 are checked apart
  (`MultiScalar.SameVerdict`).
- The second half of the batch. It joins exactly when two scalars of the first half are nonzero and their greatest
  common divisor is below 2^128 (`MultiScalar.Exit`); otherwise its terms are lost (`MultiScalar.SecondHalfLost`).
- The 16-bit transaction counter. A message is refused by both hashers when one more than its transaction count is a
  multiple of 2^16: 65535 transactions are refused, 65536 are not (`Messages.CountedOut`, `Messages.FullCounter`).
- The message header. It is a leaf and is served like one, but the client never accepts it, since no identifiers are
  mixed into its hash (`Inclusion.GetTransaction`).
- Numbers modulo 2^16. Transactions of one message whose places differ by a multiple of 2^16 have the same identifier,
  and the client confirms each of them for it (`Binding.TrueAnswer`, `Binding.SharedNumber`). Beyond that a confirmed
  answer is bound to the block (`Binding.ConfirmedIsContained`), and two answers confirmed for one identifier collide
  or meet (`Binding.AnswersCollide`, `Binding.MeetingConfirms`).
- Reads as of a block. Up to the current block they are right exactly for accounts that existed at the start of the
  block and for accounts that do not exist now either (`Undo.Bank.GetUser`): an account created later is reported with
  a later state (`Undo.ReadTooEarly`). Up to an earlier block, an account changed only after it is reported as it is
  now.
- Unreduced responses. RFC 8032, section 5.1.7, refuses a response from the order on; the code refuses one from 2^253
  on and reduces it (`Signing.AcceptsIff`, `Signing.SecondForm`).
- Repeated squaring. A comment announces in^(2 count); the code computes in^(2^count) (`FieldMul.SquareTimes`).

## Model

| member | source | states |
|---|---|---|
| Popcount.Bits | src/common/hash.hpp:21-44 | the multiply, mask and modulo steps count the ones of every 32-bit value, and no product leaves 64 bits |
| MerkleTree.MthUp | src/common/hash.hpp:109-151 | pairing neighbours and promoting a lone last node keeps the root of RFC 6962, section 2.1 |
| MerkleTree.LevelRoot | src/common/hash.hpp:109-151 | every level over the leaves has the same RFC 6962 root, so the top of the levels is that root |
| MerkleLog.LogSizes | src/common/hash.hpp:109-130 | n leaves complete n - popcount(n) inner nodes, and 2n - popcount(n) nodes with the leaves counted |
| StoredProof.InnerLogSize | src/common/hash.hpp:132-151 | with the popcount(n) - 1 nodes that finishing adds, the log of n leaves has n - 1 nodes |
| MerkleLog.InnerPosLaw | src/common/hash.hpp:109-130 | after n updates the list holds node j of level k at position (j + 1) 2^k - popcount(j) - 2 |
| MerkleLog.PosLaw | src/common/hash.hpp:46-75 | in the log over pairs, the complete node h of level t sits at position (h + 1) 2^(t+1) - popcount(h) - 2 |
| MerkleLog.PosBeyond | src/common/hash.hpp:46-75 | the position of a node that is not complete lies at or behind the end of the log |
| MerkleLog.EvenLog | src/common/message.hpp:309-376 | for an even count the log of inner nodes is the log of the pairs, leaves included, one level up |
| MerkleLog.OddLog | src/common/message.hpp:309-376 | for an odd count it is that log without the lone last leaf, at exactly one position |
| HashPath.CompleteIff | src/common/hash.hpp:46-75 | a node is complete exactly when its position lies below 2m - popcount(m) |
| HashPath.GuardIff | src/common/hash.hpp:46-75 | the loop guard holds exactly while the level has more than one node |
| HashPath.Turn | src/common/hash.hpp:46-75 | one turn finds the sibling position, if there is one, moves to the parent and keeps the cursor of the ragged edge |
| HashPath.HashPath | src/common/hash.hpp:46-75 | for every size below 2^31 and every index, the positions of all siblings from the leaf to the root, in order, without 32-bit overflow |
| MerkleProof.SiblingJoins | src/common/hash.hpp:46-107 | hashing a node with what its sibling position holds gives its parent, or the node itself where there is no sibling |
| MerkleProof.PathFolds | src/common/hash.hpp:46-151 | folding the hashes at the path positions of any node gives the RFC 6962 root |
| Digests.JoinCommutes | src/common/hash.hpp:77-94 | the joined hash does not depend on the order of the two digests |
| Digests.AddHash | src/common/hash.hpp:77-94 | at the first byte where the digests differ, the one with the smaller byte is hashed first; equal digests are hashed twice over |
| Digests.SmallerFirst | src/common/hash.hpp:77-94 | the digest that is the smaller number, read as bytes from the most significant on, is hashed first |
| HashTree.HashTree.constructor | src/common/hash.hpp:12-15 | an empty tree |
| HashTree.HashTree.Update | src/common/hash.hpp:109-130 | keeps the binary counter of complete subtrees and the log of inner nodes in step with the leaves; returns the number of nodes logged |
| HashTree.HashTree.Finish | src/common/hash.hpp:132-151 | returns the RFC 6962 root of the leaves and completes the log to all inner nodes, root last; no leaves give the zero digest |
| StoredProof.TailProves | src/common/hash.hpp:46-151 | inclusion: for every count and index, the leaf, the rest of its pair and the path of the pair fold to the root |
| StoredProof.ChainProves | src/common/hash.hpp:96-107 | the whole proof, leaf first, runs to the root |
| StoredProof.ChainContinues | src/common/servers.hpp:781-875 | a proof that ends at a leaf of an upper tree continues along the path of that leaf to the upper root |
| StoredProof.TruePlaceHolds | src/common/message.hpp:372-374 | every position of the pair log below the root is stored at its true place: the kept log, or the last leaf |
| StoredProof.ReadsRightIff | src/common/message.hpp:451-468 | the remap reads the true place exactly for odd counts and for positions below 1024 |
| StoredProof.ReadsBackAt | src/common/message.hpp:448-468 | leaf i of n is read back exactly for odd n, for n up to 1026, and for the last two leaves of 1028 |
| StoredProof.ReadsBackIff | src/common/message.hpp:448-468 | all leaves can be read back exactly for odd counts and for even counts up to 1026 |
| ProofReader.ReadSiblings | src/common/message.hpp:451-468 | the loop fetches from the file the hash at the remapped place of every position |
| ProofReader.FetchedIsPath | src/common/message.hpp:448-468 | read from the true places, the fetched hashes are the path of the pair |
| ProofReader.TailIsProof | src/common/message.hpp:414-468 | for the leaves that are read back, what is read behind the leaf is the rest of its inclusion proof |
| ProofReader.ReadMeans | src/common/message.hpp:448-484 | success for any leaf means that the hashes read are the proof, or a collision, or that read and proof meet across one pair |
| ProofReader.HashPathRun | src/common/hash.hpp:96-107 | the first hash with all others folded in |
| Collisions.RunsMeet | src/common/hash.hpp:77-107 | two runs of any lengths that end in one hash: an explicit collision, or one start lies on the way of the other, or they meet on opposite sides of one pair with the same hashes behind it |
| Collisions.MeetEndsAlike | src/common/hash.hpp:77-107 | conversely runs that meet so end in one hash |
| Collisions.Land | src/common/hash.hpp:77-151 | a run that ends in the root of a tree passes through a leaf, starts at an inner node, or gives an explicit collision |
| Framing.GetSize | src/common/user.hpp:380-416 | exactly which heads are refused: from 0x80 on the type is negative, is not refused and reads in front of the length table; below, known sizes are at least 4 bytes; the sizes are TxForms.FormSize, TxForms.NetworkSizes, TxForms.AskedSizes and TxForms.PlaceholderSize |
| TxForms.CopiesFill | src/common/user.hpp:129-378 | the copies of the constructors follow each other without gap or overlap and fill exactly the length of the table, and the text behind it; one constructor leaves four bytes |
| TxForms.Construct | src/common/user.hpp:129-378 | the buffer holds the type and the fields one after the other, and behind them what it held before |
| TxForms.FormSize | src/common/user.hpp:380-442 | for every type, the sizes that get_size and parse announce are the size of the fields the constructor wrote with signature, text and appended record |
| TxForms.NetworkSizes | src/common/user.hpp:10-39 | the sizes of orders on the network, type by type, in numbers |
| TxForms.AskedSizes | src/common/user.hpp:10-39 | the sizes of questions on the network, in numbers |
| TxForms.PlaceholderSize | src/common/user.hpp:80-96 | the placeholder of a failed transaction has the size it announces, and no less than 4 bytes |
| TxForms.ParseBack | src/common/user.hpp:418-554 | parsing a constructed transaction gives back every field it carries, with a mass cut to the bytes written of it |
| TxForms.ParseReadsOn | src/common/user.hpp:418-554 | for a new node and a new key, which carry no second node, one is read from bytes 15 and 16, the signature or the key |
| Framing.BehindDecidesNothing | src/common/message.hpp:235-255 | the bytes behind the message, which the size of a cut transaction is read from, decide nothing |
| Framing.SplitIff | src/common/message.hpp:332-355 | a buffer splits into a list of transactions exactly when it is their concatenation and every one has its announced size |
| Framing.PlainIff | src/common/message.hpp:332-355 | a walk without type bytes from 0x80 on ends and does not depend on the stray lengths; any other walk depends on them |
| Framing.ParseAgreesIff | src/common/user.hpp:380-554 | the parser and the size function agree exactly for type bytes below 0x80, and where the stray length is the refusal |
| Framing.StrayType | src/common/user.hpp:380-423 | a buffer of type 0x80 is one transaction to the walk and refused by the parser |
| Framing.StrayStops | src/common/user.hpp:380-416 | with a stray length of zero the walk stays where it is |
| Messages.LeafBytes | src/common/message.hpp:243-245 | the leaf differs from the hash of the transaction by the node in bytes 0 and 1, the message in bytes 4 to 7 and the number in bytes 8 and 9, and nowhere else |
| Messages.LanesAgree | src/common/message.hpp:342-344 | mixing node, message and position in through 32-bit lanes gives the leaf that the 16-bit fields give |
| Messages.MessageParts | src/common/message.hpp:20 | an accepted message is four bytes, a signature of 64, a header of 10 and its transactions, each of its announced size |
| Messages.MaxLengthIs | src/common/message.hpp:19 | the largest length is the largest that the three length bytes hold |
| Messages.HashTreeFast | src/common/message.hpp:215-258 | ends unless a head announces no bytes; accepts exactly the messages that split and whose 16-bit counter has not come back to 0; the result is the root of the leaves |
| Messages.VerdictIff | src/common/message.hpp:215-258 | exactly without type bytes from 0x80 on, the verdict does not depend on the stray lengths |
| Messages.StrayAccepted | src/common/message.hpp:215-258 | a message with one transaction of type 0x80 is accepted although the parser refuses it |
| Messages.CountedOut | src/common/message.hpp:234-251 | n transactions of four bytes are accepted exactly when n + 1 is not a multiple of 2^16 |
| Messages.FullCounter | src/common/message.hpp:234-251 | a message of 65535 such transactions splits and is not accepted |
| MessageFile.HashTreeFull | src/common/message.hpp:309-376 | the same verdict and root on the same bytes, and the file with root, leaf table and log without its root |
| MessageFile.StoredHead | src/common/message.hpp:362-367 | what the length, root, index, total and count fields of a stored file hold; the total is the size of the file |
| MessageFile.StoredRecord | src/common/message.hpp:368-371 | the table entry of each leaf holds its offset and its hash |
| MessageFile.SavedMnum | src/common/message.hpp:999-1021 | writing the index into a stored file gives the stored file with that index |
| MessageFile.HashTreeGet | src/common/message.hpp:378-484 | finds the bytes of the leaf and the hashes the remap leads to; succeeds exactly when they run to the stored root, and yields the inclusion proof for every leaf that is read back |
| BlockFile.Block.HashNow | src/common/servers.hpp:1049-1063 | the block hash is the run of counters, nodes, keys, previous block and message root, in that order, so the message root comes last |
| BlockFile.Block.MsglPut | src/common/servers.hpp:703-743 | the root of the messages, compared with the expected one, the list file, and the index saved in the file of every ordinary message that was saved |
| BlockFile.SaveIndices | src/common/message.hpp:999-1021 | exactly the files of saved ordinary messages change, each in its index only |
| BlockFile.CountersAre | src/common/servers.hpp:1052-1055 | the hashed counters are time, messages, nodes and dividend, four little-endian bytes each |
| BlockFile.ListHead | src/common/servers.hpp:703-743 | the list file begins with count and root, and behind the rows has the size of the kept log |
| BlockFile.RowAt | src/common/servers.hpp:703-743 | what the list file holds for each message |
| BlockFile.Block.MsglHashTreeGet | src/common/servers.hpp:781-875 | succeeds exactly when the row names the message and the hashes read run to the message root, and then they run to the block hash; a proof that ends at a message that is read back is always continued |
| Inclusion.LeafIs | src/common/message.hpp:309-356 | leaf 0 is the hash of the header, leaf i the mixed hash of transaction i with its number modulo 2^16 |
| Inclusion.LeafIsMixed | src/common/command/gettransaction.cpp:177-188 | mixing a nonzero node number in always changes the hash |
| Inclusion.CheckMessageHash | src/common/command/gettransaction.cpp:153-204 | the client accepts exactly an answer that names the transaction, for a block hash it could load, whose first hash is the leaf of the bytes and whose hashes run to the block hash |
| Inclusion.GetTransaction | src/escd/commandhandler/gettransactionhandler.cpp:17-45 | server and client together: whatever is accepted is the transaction asked for, and every transaction that is read back is served and accepted |
| Inclusion.Publish | src/common/servers.hpp:703-743 | hashing all messages, putting the list and sealing the block leaves on disk what the answers are read from |
| Binding.AnswersCollide | src/common/command/gettransaction.cpp:177-203 | two answers confirmed for one transaction with different bytes give an explicit collision, or start at different leaves whose ways meet; along the same siblings only the collision is left |
| Binding.MeetingConfirms | src/common/command/gettransaction.cpp:177-203 | conversely an answer whose way meets that of a confirmed one is confirmed |
| Binding.TrueAnswer | src/common/command/gettransaction.cpp:177-203 | every transaction of a sealed block, of whatever count, is confirmed for its number modulo 2^16 |
| Binding.SharedNumber | src/common/command/gettransaction.cpp:177-203 | a published block with a message of 65537 transactions in which the first and the last are both confirmed for one identifier |
| Binding.ConfirmedIsContained | src/common/command/gettransaction.cpp:177-203 | an answer confirmed against a published block carries a transaction of it with that identifier, unless two explicit strings have hashes that differ at most in the identifier bytes, or the proof goes through a hash that does not stand for messages |
| Limbs.LtBatch | external/ed25519/modm-donna-64bit.h:303-315 | compares the values of the limbs 0 to limbsize |
| Limbs.LteBatch | external/ed25519/modm-donna-64bit.h:318-330 | compares the values of the limbs 0 to limbsize |
| Limbs.SubBatch | external/ed25519/modm-donna-64bit.h:287-299 | subtracts within the limbs 0 to limbsize and leaves the others alone |
| BatchHeap.HeapSwap | external/ed25519/ed25519-donna-batchverify.h:22-28 | exchanges two entries |
| BatchHeap.InsertNext | external/ed25519/ed25519-donna-batchverify.h:31-48 | the heap grows by the next index and stays a max-ordered permutation |
| BatchHeap.UpdatedRoot | external/ed25519/ed25519-donna-batchverify.h:51-77 | restores the max-ordered permutation after any change of the root scalar, comparing only the limbs of the window |
| BatchHeap.GetTop2 | external/ed25519/ed25519-donna-batchverify.h:96-103 | the largest scalar and the largest of the others, by full value |
| BatchHeap.RootIsMax | external/ed25519/ed25519-donna-batchverify.h:51-103 | the root of an ordered heap is its maximum |
| BosCoster.StepKeepsSum | external/ed25519/ed25519-donna-batchverify.h:182-184 | subtracting the second scalar from the first and adding the first point to the second keeps the sum |
| BosCoster.LimbExhausted | external/ed25519/ed25519-donna-batchverify.h:171-173 | when the largest scalar has no limb k, no member has |
| BosCoster.ThirdLimb | external/ed25519/ed25519-donna-batchverify.h:171-180 | a scalar of at least 2^127 in three limbs uses the third, so the window is wide enough when the 128-bit scalars join |
| BosCoster.FinalMul | external/ed25519/ed25519-donna-batchverify.h:105-148 | the multiple of the point the code computes, for every scalar: FinalFactor |
| MultiScalar.Turn | external/ed25519/ed25519-donna-batchverify.h:182-184 | one subtraction keeps the heap, the window, the sum over the members and their common divisors |
| MultiScalar.Round | external/ed25519/ed25519-donna-batchverify.h:171-184 | the loop body keeps the loop invariant; either the heap is extended or the sum of the scalars falls |
| MultiScalar.BuiltIs | external/ed25519/ed25519-donna-batchverify.h:161-162 | the heap is built over the least odd number of scalars that is at least half of them |
| MultiScalar.Exit | external/ed25519/ed25519-donna-batchverify.h:164-188 | the second half joins exactly when two scalars of the first half are nonzero and their greatest common divisor is below 2^128 |
| MultiScalar.Reduce | external/ed25519/ed25519-donna-batchverify.h:150-188 | one scalar is left, the greatest common divisor of the members, and its product with its point is the sum over the members |
| MultiScalar.FactorExact | external/ed25519/ed25519-donna-batchverify.h:105-148 | the last multiplication is exact for 0, for 1 and from 3 * 2^223 to below 4 * 2^223, and for no other scalar |
| MultiScalar.ExactAbove | external/ed25519/ed25519-donna-batchverify.h:105-148 | the last scalar 3 * 2^223, which a first half with that one scalar leaves, is multiplied exactly |
| MultiScalar.WholeIff | external/ed25519/ed25519-donna-batchverify.h:105-148 | for every scalar above 1: there is a result exactly when the four limbs read are not zero, and it is the right product exactly when their leading bit and the limb not read give the same multiple |
| MultiScalar.SameVerdict | external/ed25519/ed25519-donna-batchverify.h:105-148 | in a group of cofactor 8, points of small order included, the result is neutral exactly when the right product is |
| MultiScalar.SumSplit | external/ed25519/ed25519-donna-batchverify.h:150-188 | the sum over the first half is the whole sum exactly when the rest adds up to nothing |
| MultiScalar.MultiScalarMult | external/ed25519/ed25519-donna-batchverify.h:150-188 | the result for every input; the sum itself for every last scalar that is multiplied exactly; and, in a group of cofactor 8 once the second half has joined, neutral exactly when the whole sum is |
| MultiScalar.TwoGivesSix | external/ed25519/ed25519-donna-batchverify.h:105-148 | a last scalar of 2 multiplies by 6 |
| MultiScalar.SecondHalfLost | external/ed25519/ed25519-donna-batchverify.h:164-188 | an input whose second half never joins and whose sum is lost |
| Expansion.Expand | external/ed25519/modm-donna-64bit.h:219-255 | the digits of a scalar in base 2 or 16, written limb by limb, have its value |
| SlidingWindow.CarryLands | external/ed25519/modm-donna-64bit.h:266-274 | a carry meets a zero bit before the end of the array, for every scalar up to 2^255 |
| SlidingWindow.Carry | external/ed25519/modm-donna-64bit.h:268-274 | adds one at a position: the value grows by its weight |
| SlidingWindow.Widen | external/ed25519/modm-donna-64bit.h:262-278 | one digit takes in the bits that follow it: value kept, digit odd and within the window |
| SlidingWindow.SlidingWindow | external/ed25519/modm-donna-64bit.h:240-280 | 256 digits, zero or odd within the window, whose weighted sum is the scalar |
| DoubleScalarMult.Precompute | external/ed25519/ed25519-donna-impl-base.h:263-266 | the table holds the odd multiples |
| DoubleScalarMult.AddDigit | external/ed25519/ed25519-donna-impl-base.h:280-288 | the table entry of a digit is in range and the digit times the point is added |
| DoubleScalarMult.HornerStep | external/ed25519/ed25519-donna-impl-base.h:277-291 | doubling and adding one digit of each scalar is one step of Horner's rule for both |
| DoubleScalarMult.DoubleScalarMult | external/ed25519/ed25519-donna-impl-base.h:252-292 | [s1]P + [s2]B in any abelian group |
| Window4.Settle | external/ed25519/modm-donna-64bit.h:230-236 | one digit becomes signed: value kept, digit in [-8, 8), carry 0 or 1 |
| Window4.Window4 | external/ed25519/modm-donna-64bit.h:213-238 | 64 digits in [-8, 8] whose weighted sum is the scalar |
| Window4.EqualIs | external/ed25519/ed25519-donna-impl-base.h:298-301 | 1 for equal words and 0 for different ones |
| Window4.Choose | external/ed25519/ed25519-donna-impl-base.h:303-328 | all eight entries are visited, and the one of the magnitude of the digit is kept, with its sign |
| Window4.ScalarMultBase | external/ed25519/ed25519-donna-impl-base.h:333-363 | odd digits, times 16, even digits: [s]B in any abelian group |
| Modm.Reduce256 | external/ed25519/modm-donna-64bit.h:42-63 | subtracts the order once, exactly when it fits |
| Modm.Add256 | external/ed25519/modm-donna-64bit.h:110-121 | the sum modulo the order, also in place |
| ModmBytes.OrderIs | external/ed25519/modm-donna-64bit.h:21-27 | the order is 2^252 + 27742317777372353535851937790883648493, as in section 5.1 of RFC 8032 |
| Barrett.MuIs | external/ed25519/modm-donna-64bit.h:29-35 | the constant is the quotient of 2^512 by the order |
| Barrett.Quotient | external/ed25519/modm-donna-64bit.h:69-85 | the quotient estimate without its low partial products is short by less than 1 + 2^-37 |
| Barrett.TimesOrder | external/ed25519/modm-donna-64bit.h:87-96 | the low 264 bits of the product with the order |
| Barrett.SubtractInto | external/ed25519/modm-donna-64bit.h:98-103 | the difference modulo 2^264, also in place |
| Barrett.RemainderBound | external/ed25519/modm-donna-64bit.h:65-107 | the remainder stays below three times the order, so two subtractions are enough |
| Barrett.BarrettReduce | external/ed25519/modm-donna-64bit.h:65-107 | x modulo the order for every x below 2^512 given by its two ends, with normalised limbs |
| ModmMul.ProductIs | external/ed25519/modm-donna-64bit.h:123-150 | the product of two scalars is the sum of its columns |
| ModmMul.Mul256 | external/ed25519/modm-donna-64bit.h:123-150 | the product modulo the order, also in place |
| ModmBytes.Expand256 | external/ed25519/modm-donna-64bit.h:152-187 | up to 64 little-endian bytes modulo the order |
| ModmBytes.Contract256 | external/ed25519/modm-donna-64bit.h:205-211 | the 32 little-endian bytes of the scalar |
| Field.Add | external/ed25519/curve25519-donna-64bit.h:26-43 | the exact sum, with the limb bounds added |
| Field.Sub | external/ed25519/curve25519-donna-64bit.h:63-70 | the difference modulo p; no limb goes below zero |
| Field.SubAfterBasic | external/ed25519/curve25519-donna-64bit.h:73-80 | the same for an operand that is itself a sum |
| Field.CarryPass | external/ed25519/curve25519-donna-64bit.h:45-54 | one carry pass keeps the value modulo p and restores the limb bound |
| Field.AddReduce | external/ed25519/curve25519-donna-64bit.h:45-54 | the sum modulo p with carried limbs |
| Field.SubReduce | external/ed25519/curve25519-donna-64bit.h:82-91 | the difference modulo p with carried limbs |
| Field.Neg | external/ed25519/curve25519-donna-64bit.h:94-103 | the negative modulo p with carried limbs |
| FieldMul.FoldedProduct | external/ed25519/curve25519-donna-64bit.h:126-155 | folding the upper columns back with the factor 19 changes the product by a multiple of p |
| FieldMul.CarryColumns | external/ed25519/curve25519-donna-64bit.h:158-170 | five 128-bit columns carried into limbs without overflow, equal modulo p |
| FieldMul.Mul | external/ed25519/curve25519-donna-64bit.h:106-171 | for limbs below 2^54 the product modulo p, limbs within 2^51 + 2^15 |
| FieldMul.Square | external/ed25519/curve25519-donna-64bit.h:236-284 | the same for the square |
| FieldMul.SquareOnce | external/ed25519/curve25519-donna-64bit.h:179-234 | one turn of the repeated squaring |
| FieldMul.SquareTimes | external/ed25519/curve25519-donna-64bit.h:179-234 | in^(2^count) modulo p for every count of at least 1 |
| FieldChains.Pow250 | external/ed25519/curve25519-donna-helpers.h:12-31 | from z^(2^5 - 1) to z^(2^250 - 1) |
| FieldChains.Recip | external/ed25519/curve25519-donna-helpers.h:36-49 | z^(2^255 - 21) modulo p for every z |
| FieldChains.PowTwo252m3 | external/ed25519/curve25519-donna-helpers.h:54-67 | z^(2^252 - 3) modulo p for every z |
| FieldBytes.PrimeIs | external/ed25519/curve25519-donna-64bit.h:324-373 | the prime is 2^255 - 19 |
| FieldBytes.Canonical | external/ed25519/curve25519-donna-64bit.h:329-363 | the carries and the conditional subtraction give the one representative below p |
| FieldBytes.Contract | external/ed25519/curve25519-donna-64bit.h:324-373 | the 32 little-endian bytes of the representative below p |
| FieldBytes.Expand | external/ed25519/curve25519-donna-64bit.h:287-319 | the low 255 bits of 32 bytes, in 51-bit limbs |
| FieldBytes.Recode | external/ed25519/curve25519-donna-64bit.h:287-373 | reading and writing back gives the low 255 bits modulo p |
| FieldBytes.CanonicalIff | external/ed25519/curve25519-donna-64bit.h:287-373 | exactly the encodings of numbers below p come back unchanged |
| Points.ToFull | external/ed25519/ed25519-donna-impl-base.h:12-18 | all four coordinates of the completed point, product-bounded |
| Points.ToPartial | external/ed25519/ed25519-donna-impl-base.h:5-10 | three of them, the fourth left alone |
| Points.AddP1p1 | external/ed25519/ed25519-donna-impl-base.h:32-50 | the parts E, H, G, F of the RFC 8032 addition |
| Points.PointAdd | external/ed25519/ed25519-donna-impl-base.h:122-127 | the addition of RFC 8032, section 5.1.4, on product-bounded coordinates |
| Points.DoubleP1p1 | external/ed25519/ed25519-donna-impl-base.h:53-67 | the parts of the RFC 8032 doubling with E and G negated; the fourth coordinate is not read |
| Points.PointDouble | external/ed25519/ed25519-donna-impl-base.h:115-120 | the doubling of RFC 8032, section 5.1.4, up to a common factor -1 |
| Points.PointDoublePartial | external/ed25519/ed25519-donna-impl-base.h:108-113 | the same without the fourth coordinate |
| NielsPoints.FullToPniels | external/ed25519/ed25519-donna-impl-base.h:20-26 | the prepared form of the point |
| NielsPoints.NielsAddP1p1 | external/ed25519/ed25519-donna-impl-base.h:69-86 | the parts of the sum with the prepared point, or with its opposite for sign bit 1 |
| NielsPoints.PnielsAddP1p1 | external/ed25519/ed25519-donna-impl-base.h:88-106 | the same for a prepared point with its own Z |
| NielsPoints.NielsAdd2 | external/ed25519/ed25519-donna-impl-base.h:129-147 | the sum with a prepared point |
| NielsPoints.PnielsAdd | external/ed25519/ed25519-donna-impl-base.h:149-172 | the sum, prepared again |
| CurveLaw.Constants | external/ed25519/ed25519-donna-64bit-tables.h:8-18 | the constants are -121665/121666, its double and a square root of -1 |
| CurveLaw.BaseOnCurve | external/ed25519/ed25519-donna-64bit-tables.h:1-6 | the base point is on the curve |
| CurveLaw.SumOnCurve | external/ed25519/ed25519-donna-impl-base.h:32-50 | the sum of two points of the curve is on the curve, its fourth coordinate in step |
| CurveLaw.SumCommutes | external/ed25519/ed25519-donna-impl-base.h:32-50 | the sum does not depend on the order |
| CurveLaw.DoubleIsSum | external/ed25519/ed25519-donna-impl-base.h:53-67 | on the curve, doubling is the sum of a point with itself |
| CurveLaw.SumNeutral | external/ed25519/ed25519-donna-impl-base.h:32-50 | adding the neutral point gives the same point |
| CurveLaw.SumOpposite | external/ed25519/ed25519-donna-impl-base.h:32-50 | a point and its opposite give the neutral point |
| Sha512.Stream.constructor | external/ed25519/ed25519-hash.h:108-121 | nothing absorbed yet |
| Sha512.Stream.Blocks | external/ed25519/ed25519-hash.h:90-106 | the compression folded over whole blocks, and the 128-bit count of their bits |
| Sha512.Stream.Update | external/ed25519/ed25519-hash.h:123-151 | the state absorbs the given bytes, however the message is cut |
| Sha512.Stream.Final | external/ed25519/ed25519-hash.h:153-178 | the compression folded over the message padded by FIPS 180-4, section 5.1.2 |
| Sha512.PaddingBytes | external/ed25519/ed25519-hash.h:153-178 | the padding is one bit, zeros to the next whole block and no further, and the bit length in 16 bytes from the most significant on |
| Signing.HashPieces | external/ed25519/ed25519.c:41-61 | the hash of the pieces joined |
| Signing.ExtendedKey | external/ed25519/ed25519.c:33-39 | the first half is 2^254 + x mod 2^254 - x mod 8 for the first half x of the hash of the secret key, the second half is that of the hash |
| Signing.ClampedNumber | external/ed25519/ed25519.c:33-39 | the same for any 64 bytes: three low bits cleared, the 255th set, the 256th cleared, all others kept |
| Signing.ClampedScalar | external/ed25519/ed25519.c:33-39 | the secret scalar is then a multiple of 8 between 2^254 and 2^255 |
| Signing.PublicKey | external/ed25519/ed25519.c:63-74 | the encoding of [a]B |
| Signing.Response | external/ed25519/ed25519.c:101-109 | (h a + r) modulo the order, in bytes |
| Signing.Sign | external/ed25519/ed25519.c:76-110 | the signature of RFC 8032, section 5.1.6 |
| Signing.SignatureSteps | external/ed25519/ed25519.c:76-110 | the two halves step by step as in section 5.1.6 of RFC 8032, from the clamped number and the hashes as they are, reduced only at the end |
| Signing.Sign2 | external/ed25519/ed25519.c:112-147 | the signature of the two parts joined |
| Signing.Open | external/ed25519/ed25519.c:149-172 | the check of the code: a response below 2^253, and the equation of RFC 8032, section 5.1.7, for it modulo the order |
| Signing.Open2 | external/ed25519/ed25519.c:174-198 | the check of the two parts joined |
| Signing.Closes | external/ed25519/ed25519.c:149-172 | [h](-[a]B) + [s]B = [r]B for s = h a + r modulo the order |
| Signing.SignedVerifies | external/ed25519/ed25519.c:76-172 | every signature made with a secret key is accepted under its public key, the test of the top bits included |
| Signing.TopBitsIff | external/ed25519/ed25519.c:149-172 | the test of byte 63 refuses exactly the responses from 2^253 on |
| Signing.AcceptsIff | external/ed25519/ed25519.c:149-172 | the code accepts exactly the responses below 2^253 whose reduced form RFC 8032, section 5.1.7, accepts |
| Signing.AcceptsEquation | external/ed25519/ed25519.c:149-172 | accepted exactly if the key decodes, the response is below 2^253 and, with the response unreduced, the sum of the code encodes to the first half |
| Signing.SecondForm | external/ed25519/ed25519.c:149-172 | an accepted signature whose response leaves room for the order has a second accepted form, which the standard refuses |
| Undo.SaveEntries | src/common/servers.hpp:584-596 | the undo file becomes the new entries overlaid by the old ones: the first write of an account wins; bitmap and file stay in step |
| Undo.KeptSaveIff | src/common/servers.hpp:574-598 | the undo file stays a record of the start of the block exactly when new entries hold values from then |
| Undo.KeptWriteIff | src/common/servers.hpp:404-419 | exactly the writes that change no unsaved account of the start of the block and let none cease to exist keep the record |
| Undo.Bank.constructor | src/common/servers.hpp:600-605 | a bank at the start of a block |
| Undo.Bank.SaveUndo | src/common/servers.hpp:574-598 | that overlay for the current block, other blocks untouched; the record is kept exactly under the condition above, as for current values |
| Undo.Bank.PutUser | src/common/servers.hpp:404-419 | the account file after any write; the record is kept exactly under the condition above, as for saved or new accounts |
| Undo.Bank.PutNode | src/common/servers.hpp:365-376 | saves and overwrites the first account |
| Undo.Bank.NextBlock | src/common/servers.hpp:600-605 | the undo file is closed and the next block starts from the accounts as they are |
| Undo.StepFrom | src/common/message.hpp:272-286 | an account that existed at a block's start has its start value in the undo file or keeps it to the next block |
| Undo.ReadAsOf | src/common/message.hpp:260-288 | for every last block read: about an account that existed then the answer is right exactly when it was saved up to that block or is what it was; about any other exactly when it does not exist now |
| Undo.Bank.GetUser | src/common/message.hpp:260-288 | over every run with a kept record, the same for the start of the block whose span of block times contains the given time; up to the current block, right for every account that existed then |
| Undo.ReadTooEarly | src/common/message.hpp:260-288 | a run in which an account created one block later is reported as of the block before |
| Crc.ByteIsBits | src/common/settings.hpp:68-72 | one turn of the byte loop is eight steps of the bit-serial division by x^16 + x^12 + x^5 + 1 |
| Crc.Crc16 | src/common/settings.hpp:64-74 | the remainder of the bit-serial division from the register 0x1D0F, which is the result for no bytes |
| Crc.BurstDetected | src/common/settings.hpp:64-74 | strings that differ only within 16 consecutive bits have different remainders |
| Crc.CrcAcnt | src/common/settings.hpp:76-88 | the remainder for the 48 bits of the address: 16 of the node, then 32 of the account |
| Crc.AddressesApart | src/common/settings.hpp:76-88 | addresses that differ only within 16 consecutive bits never share a checksum |

## Left out

- Associativity of the curve addition, primality of 2^255 - 19 and inversion by Fermat: the group laws used for scalar multiplication are a hypothesis, and the exponent chains are stated as powers.
- Points under the scalar multiplications: the loops use the operations of an abstract group, and that the points of the curve, up to a common factor of their coordinates, form one under the verified formulas is a hypothesis.
- Point encoding and decoding (`ge25519_pack`, `ge25519_unpack_negative_vartime`): signatures assume an encoding of 32 bytes that decoding inverts, up to the sign of the point.
- `ed25519_sign_open_batch_vartime`: its random scalars and fallback; the sum it relies on is `MultiScalar.MultiScalarMult`.
- The rounds of SHA-512 and all of SHA-256.
- The constant tables: their meaning is a hypothesis (`BaseTable`, `OddMultiples`); of the curve constants and the base point it is proved.
- The SSE2, inline-assembly and 32-bit variants, and the unaligned copies of the hash buffer.
- Field elements and points are values: writing a result over an operand is not modelled for them. Scalars are arrays, and in-place use is covered.
- Framing.GetSize: its own contract says what is refused and bounds the size; the sizes are the `TxForms` rows.
- TxForms.Construct: the copies of all constructors as one list for each type; the general constructor for types that have their own, the version-less connection constructor and the written text beyond its length are left out, and so is signing.
- TxForms.PlaceholderSize: sizes from 2^24 on, which the code masks.
- HashTree.HashTree.Update: trees of fewer than 2^32 leaves, the depth of the counter array.
- HashPath.HashPath: sizes below 2^31, where the 32-bit positions do not wrap.
- Messages.HashTreeFast: an endless loop is a result of its own; and a transaction that reaches past the end of the message is refused before it is hashed, as its bytes are not part of the message; the code hashes what lies behind and then refuses.
- MessageFile.HashTreeGet: only on files written for accepted messages; damaged files and open errors are not modelled.
- Inclusion.CheckMessageHash: an answer without hashes, on which the client reads outside its list.
- Inclusion.GetTransaction: only on files the node wrote itself, as `Inclusion.Publish` leaves them.
- BlockFile.Block.MsglHashTreeGet: the message number is at most the number of messages, as it is saved; a larger one would be read from behind the rows.
- MultiScalar.MultiScalarMult: the scalars of the second half are below 2^128, as the batch verifier makes them, and the count is odd.
- Signing.Open: the encoding of the public key is decoded by a parameter that may fail; its bytes are not inspected further.
- Undo.Bank.SaveUndo: accounts outside the bitmap, on which the code stops; the order of the entries does not matter and is left open.
- Undo.Bank.PutNode: the hash of the node, the time stamp and the fields of the new account.
- Undo.Bank.PutUser: the account file of one node; locks are left out.
- Undo.Bank.NextBlock: only the accounts and bitmaps; the rest of the block change is left out.
- Undo.Bank.GetUser: the given time lies between the first block on record and the current one; the wrap of 32-bit block times is not modelled.
- Window4.Choose: packed bytes, conditional moves and the swap of the two halves for the sign are the choice and negation of a group element.
- Window4.ScalarMultBase: the start at Z = 2 and the product with d that make up for the table's own normalisation at position 0 are not seen in the group.
- MultiScalar.SameVerdict: that the group of the curve has cofactor 8, and no small orders beyond, is a hypothesis.
- BlockFile.Block.MsglPut: the order of the messages is the caller's; the sorted map that holds them is not modelled.
- Consensus, networking, logging, option parsing, printing, dividends and the command line tools.
