# Finalization messages and aggregation — a Dafny model

This project models the core of the finalization gadget of the Catapult
blockchain node. Stake-weighted voters agree on a block hash for one
finalization step. The model covers three parts:

- **OTS value types**: `OtsOptions`, the `StepIdentifier` triple
  (point, round, sub-round) with its lexicographic order and the relational
  operators built from it, and `OtsTreeSignature`, which is compared byte
  for byte (module `OtsTypes`, file `ots_types.dfy`).
- **Message pipeline**: the VRF input record and its packed bytes, the
  finalization message (a header plus `HashesCount` 32-byte hashes), the
  signer-side `PrepareMessage` and the validator-side `ProcessMessage` with
  its five result codes (module `MessagePipeline`, file `message_pipeline.dfy`).
- **Aggregator**: the per-step aggregator with its two factories,
  count-votes and common-block, and the queries `hasConsensus` and
  `consensusHash` (module `Aggregator`, file `aggregator.dfy`).

The finalization context, the VRF, sortition and OTS primitives, and the
signing tree are in module `Collaborators` (file `collaborators.dfy`).
The primitives are not implemented here. They are fields of a `Crypto`
record of functions, so every result holds for any implementation of
them. The round trip needs three properties of the primitives. They are
stated as the predicates `VrfSound` and `OtsSound` and taken as hypotheses:

- verifying a generated VRF proof with the matching public key yields the proof's hash;
- OTS verification accepts what the tree signed;
- the signature's root parent key is the tree's root key.

It needs two further hypotheses about the inputs. The context must register
the signer's VRF public key under its root key, because validation verifies
the proof with the key that lookup returns. The generated VRF output must
not be the zero hash, because validation rejects that value but preparation
never checks for it.

Module `Primitives` (file `primitives.dfy`) holds fixed-width integers,
32- and 64-byte hashes, little-endian encoding and the packing of hashes
into bytes.

`PrepareMessage` changes the signing tree, so it is a method. It copies
the hashes with a loop and is proved equal to the specification function
`Prepare`. The properties of preparation are lemmas about `Prepare`.
`ProcessMessage` has no side effects, so it is a function. The aggregator
is a class. `Add` changes its state; `HasConsensus` and `ConsensusHash`
are functions that only read it. A ghost field records every `add` call.
The class invariant ties the per-candidate weights and the latched
decision to the specification functions `Support` and `Decision`.

## Model

| member | source | states |
|---|---|---|
| `OtsTypes.OptionsEqual` | src/catapult/crypto_voting/OtsTypes.cpp:27-29 | true exactly when both `MaxRounds` and `MaxSubRounds` match, i.e. structural equality |
| `OtsTypes.OptionsNotEqual` | src/catapult/crypto_voting/OtsTypes.cpp:31-33 | the negation of `==`, i.e. structural inequality |
| `OtsTypes.Equal` | src/catapult/crypto_voting/OtsTypes.cpp:39-41 | field-wise equality of point, round and sub-round is equality of the step |
| `OtsTypes.NotEqual` | src/catapult/crypto_voting/OtsTypes.cpp:43-45 | true exactly when the steps differ |
| `OtsTypes.Less` | src/catapult/crypto_voting/OtsTypes.cpp:47-51 | the lexicographic `<` holds exactly when the first step's 192-bit rank (point, round, sub-round, point most significant) is smaller; `Rank` is its reference definition |
| `OtsTypes.RankOrder` | src/catapult/crypto_voting/OtsTypes.cpp:47-51 | the lexicographic `<` agrees with comparing the three fields as one 192-bit number, point most significant; equal numbers mean equal steps |
| `OtsTypes.Irreflexive` | src/catapult/crypto_voting/OtsTypes.cpp:47-51 | no step is less than itself |
| `OtsTypes.Transitive` | src/catapult/crypto_voting/OtsTypes.cpp:47-51 | `a < b` and `b < c` give `a < c` |
| `OtsTypes.Trichotomy` | src/catapult/crypto_voting/OtsTypes.cpp:47-51 | exactly one of `a < b`, `a == b`, `b < a` holds |
| `OtsTypes.LessEq` | src/catapult/crypto_voting/OtsTypes.cpp:53-55 | `<=` is `<` or equality, and agrees with the 192-bit order |
| `OtsTypes.Greater` | src/catapult/crypto_voting/OtsTypes.cpp:57-59 | `>`, defined as not `<=`, is the reversed `<` |
| `OtsTypes.GreaterEq` | src/catapult/crypto_voting/OtsTypes.cpp:61-63 | `>=`, defined as not `<`, is the reversed `<` or equality, i.e. `>` or `==` |
| `OtsTypes.SignatureBytesInjective` | src/catapult/crypto_voting/OtsTypes.cpp:74-76 | two tree signatures have the same packed bytes exactly when they are equal |
| `OtsTypes.SignatureEqual` | src/catapult/crypto_voting/OtsTypes.cpp:74-76 | the byte-wise comparison of the whole structure holds exactly when the signatures are equal |
| `OtsTypes.SignatureNotEqual` | src/catapult/crypto_voting/OtsTypes.cpp:78-80 | true exactly when the signatures differ |
| `OtsTypes.StepIdentifierBytesInjective` | extensions/finalization/src/model/FinalizationMessage.cpp:40-43 | the packed bytes of two steps are equal exactly when the steps are equal |
| `MessagePipeline.VrfInputBytes` | extensions/finalization/src/model/FinalizationMessage.cpp:47-49 | the VRF input is 56 bytes: the generation hash, then the packed step identifier |
| `MessagePipeline.VrfInputBytesInjective` | extensions/finalization/src/model/FinalizationMessage.cpp:40-49 | domain separation: two VRF inputs have the same bytes exactly when chain and step are the same |
| `MessagePipeline.ToBuffer` | extensions/finalization/src/model/FinalizationMessage.cpp:51-56 | the signed region has `Size - Header_Size` bytes, and its `i`-th 32-byte slot is the `i`-th hash |
| `MessagePipeline.SignedBytesDetermineHashes` | extensions/finalization/src/model/FinalizationMessage.cpp:51-56 | the signed bytes decode back to exactly the message's hash list, and filling in the signature leaves them unchanged |
| `MessagePipeline.SignedBytesInjective` | extensions/finalization/src/model/FinalizationMessage.cpp:51-56 | two well-formed messages sign the same bytes exactly when they carry the same hash list |
| `MessagePipeline.WrappedMessageSize` | extensions/finalization/src/model/FinalizationMessage.cpp:82-83 | the 32-bit size as written equals header size plus 32 per hash whenever that sum fits in 32 bits |
| `MessagePipeline.WrappedMessageSizeCounterexample` | extensions/finalization/src/model/FinalizationMessage.cpp:82-83 | with 2^27 hashes the computed size wraps to the bare header size while the hash count stays 2^27 |
| `MessagePipeline.Prepare` | extensions/finalization/src/model/FinalizationMessage.cpp:61-98 | every message it returns satisfies the size-prefix invariant |
| `MessagePipeline.PrepareMessage` | extensions/finalization/src/model/FinalizationMessage.cpp:61-98 | returns what `Prepare` specifies; the hash array is copied in order so the message's hashes equal the input; the tree records the step exactly when a message is signed |
| `MessagePipeline.PrepareZeroWeight` | extensions/finalization/src/model/FinalizationMessage.cpp:67-69 | a signer whose looked-up weight is zero gets no message, whatever the VRF, sortition and OTS primitives do |
| `MessagePipeline.PrepareSelection` | extensions/finalization/src/model/FinalizationMessage.cpp:67-79 | a message is produced exactly when the signer's weight is non-zero and sortition awards a non-zero vote count |
| `MessagePipeline.PrepareLayout` | extensions/finalization/src/model/FinalizationMessage.cpp:81-96 | a prepared message has `Size` equal to `Header_Size` plus 32 per input hash, `HashesCount` equal to the number of hashes, the hashes in order, the input step and the generated proof, and the tree's signature over exactly the hash bytes for that step |
| `Collaborators.OtsTree.Sign` | extensions/finalization/src/model/FinalizationMessage.cpp:96 | signing needs a step strictly after the last one signed, records it, and afterwards refuses that step |
| `MessagePipeline.ProcessMessage` | extensions/finalization/src/model/FinalizationMessage.cpp:100-118 | the result is `Success` exactly when the vote count is non-zero |
| `MessagePipeline.ProcessMessageOrder` | extensions/finalization/src/model/FinalizationMessage.cpp:100-117 | the checks run in order: zero weight gives `Failure_Voter`; otherwise a zero VRF output gives `Failure_Sortition_Hash_Proof`; otherwise zero votes gives `Failure_Selection`; otherwise a rejected signature gives `Failure_Message_Signature`; every failure reports 0 votes and success reports the sortition count |
| `MessagePipeline.ProcessZeroWeight` | extensions/finalization/src/model/FinalizationMessage.cpp:101-103 | a sender with zero weight is rejected as `Failure_Voter` with 0 votes, whatever the primitives do |
| `MessagePipeline.PrepareThenProcess` | extensions/finalization/src/model/FinalizationMessage.cpp:61-117 | under the VRF and OTS hypotheses, when the context registers the signer's VRF public key and the VRF output is non-zero, validating a prepared message gives `Success` with the vote count sortition gave during preparation |
| `MessagePipeline.PrepareThenProcessZeroOutput` | extensions/finalization/src/model/FinalizationMessage.cpp:105-108 | if the generated VRF output is the zero hash, a message that was prepared and signed is rejected as `Failure_Sortition_Hash_Proof` |
| `Aggregator.FinalizationMessageAggregator.CreateCountVotes` | extensions/finalization/src/FinalizationMessageAggregator.h:49-50 | built from the configuration alone: threshold from the configuration, one sentinel candidate, no votes yet |
| `Aggregator.FinalizationMessageAggregator.CreateCommonBlock` | extensions/finalization/src/FinalizationMessageAggregator.h:52-55 | built from the configuration and the candidate hash list, with no votes yet |
| `Aggregator.FinalizationMessageAggregator.HasConsensus` | extensions/finalization/src/FinalizationMessageAggregator.h:37-38 | reads the state only; true exactly when some candidate's accumulated votes reach the threshold |
| `Aggregator.FinalizationMessageAggregator.ConsensusHash` | extensions/finalization/src/FinalizationMessageAggregator.h:40-41 | reads the state only; the result is the latched decision of the specification function `Decision`, so `DecisionStable` and `DecisionEarliest` apply to it; it is a candidate whose votes reach the threshold, and the zero hash for count-votes |
| `Aggregator.FinalizationMessageAggregator.Add` | extensions/finalization/src/FinalizationMessageAggregator.h:44-46 | takes a message validated with `numVotes` for the same step as earlier ones; records one call, adds exactly `numVotes` to each candidate the message supports, and keeps a decision already made |
| `Aggregator.SupportAppend` | extensions/finalization/src/FinalizationMessageAggregator.h:44-46 | one more call adds exactly its vote count to every candidate it supports and nothing to the others |
| `Aggregator.SupportMonotone` | extensions/finalization/src/FinalizationMessageAggregator.h:30 | a candidate's accumulated votes never decrease as calls are added |
| `Aggregator.CountVotesSupport` | extensions/finalization/src/FinalizationMessageAggregator.h:49-50 | for count-votes, the support is the total of all votes added |
| `Aggregator.FirstAtLeast` | extensions/finalization/src/FinalizationMessageAggregator.h:52-55 | returns the first position whose weight reaches the threshold, or none when no weight does |
| `Aggregator.FindFirstAtLeast` | extensions/finalization/src/FinalizationMessageAggregator.h:52-55 | the scan over the weights finds that same first position |
| `Aggregator.DecisionSound` | extensions/finalization/src/FinalizationMessageAggregator.h:37-41 | a decided hash is one of the candidates and its votes reach the threshold |
| `Aggregator.DecisionComplete` | extensions/finalization/src/FinalizationMessageAggregator.h:37-38 | there is a decision exactly when some candidate's votes reach the threshold |
| `Aggregator.DecisionStable` | extensions/finalization/src/FinalizationMessageAggregator.h:30 | once consensus is reached it stays reached, on the same hash, whatever calls follow |
| `Aggregator.DecisionEarliest` | extensions/finalization/src/FinalizationMessageAggregator.h:52-55 | the call that first reaches consensus decides on the earliest candidate in list order among those then reaching the threshold |
| `Aggregator.OutOfSetContributesNothing` | extensions/finalization/src/FinalizationMessageAggregator.h:52-55 | a message carrying no candidate hash changes neither any candidate's votes nor the decision |
| `Aggregator.CountVotesDecision` | extensions/finalization/src/FinalizationMessageAggregator.h:49-50 | count-votes decides exactly when the total of all votes reaches the threshold, and decides the zero hash |
| `Aggregator.CountVotesExample` | extensions/finalization/src/FinalizationMessageAggregator.h:49-50 | with threshold 100, adding 40 votes gives no consensus, adding 65 more gives consensus, and 5 more keeps it |

## Left out

- VRF proof generation and verification, `GenerateVrfProofHash`, `Sortition` and the OTS tree's `sign` and `Verify` are cryptographic calls whose bodies are not part of this model. They are fields of the `Crypto` record. Only the properties the round trip needs are stated about them.
- Tamper sensitivity is not stated. Whether a flipped signature bit or a corrupted proof is caught depends on the primitives. The model proves only that each such rejection reaches the result code in the fixed order.
- The OTS tree's key material and leaf management are abstracted away. A signature is a function of the root public key, the step and the signed bytes. The tree keeps only the last step it signed. `Sign` requires a strictly later step, which is the caller's anti-equivocation duty.
- Line 59 of `FinalizationMessage.cpp` notes a key-type mismatch: the voting key is read as an ED25519 key. The model looks accounts up by the 32-byte OTS public key as it is, and makes no attempt to resolve the mismatch.
- The packed structs, `reinterpret_cast` and `MakeUniqueWithSize` are not modelled byte by byte. A message is a header record plus a sequence of hashes. Line 83 uses `sizeof(FinalizationMessage)` and line 53 uses `Header_Size`; both are the one constant `HeaderSize`.
- The headers that fix the field layouts are not part of this model: `OtsTypes.h`, `FinalizationMessage.h`, the VRF proof header and `FinalizationConfiguration.h`. The model assumes the following layouts. `StepIdentifier` is three 64-bit words. `OtsTreeSignature` is three pairs of a 32-byte key and a 64-byte signature. A VRF proof is 32 + 16 + 32 bytes. The header is therefore 400 bytes. The bytes are little-endian, as on the host. The configuration has a committee `size` and a `threshold`.
- MessagePipeline.PrepareMessage: requires that header size plus 32 bytes per hash fits in 32 bits. The source computes the size with wrap-around instead (see Findings).
- MessagePipeline.ProcessMessage: requires a well-formed message (`Size == Header_Size + 32 * HashesCount`). The source reads the signed region using `Size` and never checks it, so the check must happen where the message is parsed from the network, which is not part of this model.
- MessagePipeline.PrepareThenProcess: needs two hypotheses beyond the three listed above. First, the context registers the signer's VRF public key: `context.lookup(rootKey).vrfPublicKey` equals the public key of the key pair used for preparation. Validation verifies the proof with the looked-up key, and preparation generates it with the key pair. Second, the generated VRF output is not the zero hash. `PrepareThenProcessZeroOutput` shows what happens without the second one.
- The macro-generated enum boilerplate (lines 31-35) is a plain datatype here. `operator<<` for `StepIdentifier` is stream formatting and is omitted.
- The aggregator bodies are declared but not shown in the source. The model makes these design choices. Count-votes adds every vote to one sentinel candidate, the zero hash. Common-block credits each candidate hash the message carries. Consensus means a candidate's votes are at least the configured threshold. The first qualifying candidate in list order wins, and the decision is latched.
- Aggregator.FinalizationMessageAggregator.Add: accumulated votes are unbounded integers; a 64-bit overflow of the running sums is not modelled.
- Concurrency around the OTS tree and the aggregators is not modelled; everything is sequential.
- `MockFinalizationApi.h` (test double), `BlockMapper.h` (document-store mapping), and the mosaic and account restriction headers are outside the finalization core and are not modelled.

## Findings

| source | as written | input that shows it | evidently intended | confidence | as-written member | corrected member |
|---|---|---|---|---|---|---|
| extensions/finalization/src/model/FinalizationMessage.cpp:82-83 | `numHashes` is cast to 32 bits and `sizeof(FinalizationMessage) + numHashes * Hash256::Size` is stored in a `uint32_t`, so the size wraps | 2^27 hashes: the size is 400, the header alone, while `HashesCount` is 2^27, so the hash copy overruns the allocation | the size is header plus 32 bytes per hash, with too many hashes rejected | not executed; low practical impact since callers pass few hashes | `MessagePipeline.WrappedMessageSizeCounterexample` | `MessagePipeline.PrepareMessage` |
