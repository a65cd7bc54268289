/**
 * The finalization message and the two ends of its pipeline: the signer
 * prepares and signs a message when sortition selects it, and any node
 * re-derives the selection and checks the signature of a received message.
 */
module MessagePipeline {
  import opened Primitives
  import opened OtsTypes
  import opened Collaborators

  /** The outcome of validating one message. */
  datatype ProcessMessageResult =
    | Success
    | Failure_Voter
    | Failure_Sortition_Hash_Proof
    | Failure_Selection
    | Failure_Message_Signature

  /** `ProcessMessage` returns the outcome together with a vote count. */
  datatype ProcessOutcome = ProcessOutcome(result: ProcessMessageResult, numVotes: uint64)

  // ---------------------------------------------------------------------------
  // VRF input
  // ---------------------------------------------------------------------------

  /** The packed VRF input: chain generation hash followed by the step. */
  datatype SortitionVrfInput = SortitionVrfInput(generationHash: Hash256, stepIdentifier: StepIdentifier)

  /** `ToBuffer(const SortitionVrfInput&)`: the packed bytes of the input. */
  function VrfInputBytes(input: SortitionVrfInput): (r: seq<uint8>)
    ensures |r| == 32 + 24
    ensures r[..32] == input.generationHash
    ensures r[32..] == StepIdentifierBytes(input.stepIdentifier)
  {
    input.generationHash + StepIdentifierBytes(input.stepIdentifier)
  }

  /**
   * Domain separation: the VRF input bytes differ whenever the chain or the
   * step differs, so a proof for one step is never a proof for another.
   */
  lemma VrfInputBytesInjective(a: SortitionVrfInput, b: SortitionVrfInput)
    ensures VrfInputBytes(a) == VrfInputBytes(b) <==> a == b
  {
    if VrfInputBytes(a) == VrfInputBytes(b) {
      StepIdentifierBytesInjective(a.stepIdentifier, b.stepIdentifier);
    }
  }

  // ---------------------------------------------------------------------------
  // Message layout
  // ---------------------------------------------------------------------------

  /** The header: size, hash count, OTS signature, step identifier, VRF proof. */
  const HeaderSize: nat := 4 + 4 + OtsTreeSignatureSize + 24 + (32 + 16 + 32)

  /** A message: the fixed header fields followed by `hashesCount` 32-byte hashes. */
  datatype FinalizationMessage = FinalizationMessage(
    size: uint32,
    hashesCount: uint32,
    signature: OtsTreeSignature,
    stepIdentifier: StepIdentifier,
    sortitionHashProof: VrfProof,
    hashes: seq<Hash256>)

  /** The size-prefix invariant of the wire layout. */
  predicate WellFormed(m: FinalizationMessage)
  {
    m.hashesCount == |m.hashes| && m.size == HeaderSize + 32 * m.hashesCount
  }

  lemma FlattenSlots(hashes: seq<Hash256>)
    ensures forall i :: 0 <= i < |hashes| ==>
      32 * i + 32 <= |Flatten(hashes)| && Flatten(hashes)[32 * i .. 32 * i + 32] == hashes[i]
  {
    forall i | 0 <= i < |hashes|
      ensures 32 * i + 32 <= |Flatten(hashes)| && Flatten(hashes)[32 * i .. 32 * i + 32] == hashes[i]
    {
      FlattenSlot(hashes, i);
    }
  }

  /**
   * `ToBuffer(const FinalizationMessage&)`: the `Size - Header_Size` bytes
   * after the header, which hold the hashes in order.
   */
  function ToBuffer(m: FinalizationMessage): (r: seq<uint8>)
    requires WellFormed(m)
    ensures |r| == m.size - HeaderSize
    ensures forall i :: 0 <= i < m.hashesCount ==> r[32 * i .. 32 * i + 32] == m.hashes[i]
  {
    FlattenSlots(m.hashes);
    Flatten(m.hashes)
  }

  /**
   * The signed bytes determine the hash list, and do not include the
   * header, so filling in the signature does not change them.
   */
  lemma SignedBytesDetermineHashes(m: FinalizationMessage, signature: OtsTreeSignature)
    requires WellFormed(m)
    ensures Unflatten(ToBuffer(m)) == m.hashes
    ensures ToBuffer(m.(signature := signature)) == ToBuffer(m)
  {
    UnflattenFlatten(m.hashes);
  }

  /** Two well-formed messages sign the same bytes exactly when they carry the same hashes. */
  lemma SignedBytesInjective(a: FinalizationMessage, b: FinalizationMessage)
    requires WellFormed(a) && WellFormed(b)
    ensures ToBuffer(a) == ToBuffer(b) <==> a.hashes == b.hashes
  {
    if ToBuffer(a) == ToBuffer(b) {
      FlattenInjective(a.hashes, b.hashes);
    }
  }

  /**
   * The message size as the source computes it: the hash count is cast
   * to 32 bits and the sum is stored in a 32-bit field, so both wrap.
   */
  function WrappedMessageSize(numHashes: nat): (r: uint32)
    ensures HeaderSize + 32 * numHashes <= MaxUint32 ==> r == HeaderSize + 32 * numHashes
  {
    (HeaderSize + (numHashes % 0x1_0000_0000) * 32) % 0x1_0000_0000
  }

  /**
   * With 2^27 hashes the computed size wraps to the bare header size while
   * the count stays 2^27: the size-prefix invariant is broken and the
   * buffer allocated is too small for the hashes copied into it.
   */
  lemma WrappedMessageSizeCounterexample()
    ensures var n := 0x800_0000;
      WrappedMessageSize(n) == HeaderSize && n % 0x1_0000_0000 == n
      && WrappedMessageSize(n) != HeaderSize + 32 * (n % 0x1_0000_0000)
  {
  }

  /** The signature field of a freshly allocated message, before signing. */
  const BlankSignature: OtsTreeSignature :=
    var pair := OtsParentPublicKeySignaturePair(Zeros(32), Zeros(64));
    OtsTreeSignature(pair, pair, pair)

  // ---------------------------------------------------------------------------
  // Preparation (signer side)
  // ---------------------------------------------------------------------------

  /** The VRF proof the signer generates for `step`. */
  function SortitionProof(vrfKeyPair: VrfKeyPair, step: StepIdentifier, context: FinalizationContext, crypto: Crypto): VrfProof
  {
    crypto.generateVrfProof(VrfInputBytes(SortitionVrfInput(context.generationHash, step)), vrfKeyPair)
  }

  /** The votes sortition awards the signer for `step`. */
  function PrepareVotes(rootKey: OtsPublicKey, vrfKeyPair: VrfKeyPair, step: StepIdentifier,
                        context: FinalizationContext, crypto: Crypto): uint64
  {
    var proof := SortitionProof(vrfKeyPair, step, context, crypto);
    crypto.sortition(crypto.generateVrfProofHash(proof.gamma), context.config.size,
                     context.lookup(rootKey).weight, context.weight)
  }

  /** What `PrepareMessage` returns, as a function of its inputs. */
  function Prepare(rootKey: OtsPublicKey, vrfKeyPair: VrfKeyPair, step: StepIdentifier, hashes: seq<Hash256>,
                   context: FinalizationContext, crypto: Crypto): (r: Option<FinalizationMessage>)
    requires HeaderSize + 32 * |hashes| <= MaxUint32
    ensures r.Some? ==> WellFormed(r.value)
  {
    if context.lookup(rootKey).weight == 0 then None
    else if PrepareVotes(rootKey, vrfKeyPair, step, context, crypto) == 0 then None
    else
      var unsigned := FinalizationMessage(HeaderSize + 32 * |hashes|, |hashes|, BlankSignature, step,
                                          SortitionProof(vrfKeyPair, step, context, crypto), hashes);
      Some(unsigned.(signature := crypto.otsSign(rootKey, step, ToBuffer(unsigned))))
  }

  /**
   * `PrepareMessage`: looks the signer up, runs sortition, builds the
   * message, copies the hashes in order and signs the bytes after the header.
   */
  method PrepareMessage(otsTree: OtsTree, vrfKeyPair: VrfKeyPair, step: StepIdentifier, hashes: seq<Hash256>,
                        context: FinalizationContext, crypto: Crypto)
    returns (message: Option<FinalizationMessage>)
    requires HeaderSize + 32 * |hashes| <= MaxUint32
    requires otsTree.CanSign(step)
    modifies otsTree
    ensures message == Prepare(otsTree.rootPublicKey, vrfKeyPair, step, hashes, context, crypto)
    ensures message.Some? ==> WellFormed(message.value) && message.value.hashes == hashes
    ensures otsTree.lastSigned == if message.Some? then Some(step) else old(otsTree.lastSigned)
  {
    var accountView := context.lookup(otsTree.rootPublicKey);
    if accountView.weight == 0 {
      return None;
    }

    // 1. generate sortition hash proof
    var sortitionVrfInput := SortitionVrfInput(context.generationHash, step);
    var sortitionHashProof := crypto.generateVrfProof(VrfInputBytes(sortitionVrfInput), vrfKeyPair);
    var sortitionHash := crypto.generateVrfProofHash(sortitionHashProof.gamma);

    // 2. check selection
    var numVotes := crypto.sortition(sortitionHash, context.config.size, accountView.weight, context.weight);
    if numVotes == 0 {
      return None;
    }

    // 3. create message and copy hashes
    var numHashes: uint32 := |hashes|;
    var messageSize := WrappedMessageSize(|hashes|);
    var copied := new Hash256[numHashes];
    var i := 0;
    while i < numHashes
      modifies copied
      invariant 0 <= i <= numHashes
      invariant copied[..i] == hashes[..i]
    {
      copied[i] := hashes[i];
      i := i + 1;
    }
    assert copied[..] == hashes;
    var unsigned := FinalizationMessage(messageSize, numHashes, BlankSignature, step, sortitionHashProof, copied[..]);

    // 4. sign
    var signature := otsTree.Sign(crypto, unsigned.stepIdentifier, ToBuffer(unsigned));
    message := Some(unsigned.(signature := signature));
  }

  /** A signer with zero weight gets no message, whatever the cryptographic primitives do. */
  lemma PrepareZeroWeight(rootKey: OtsPublicKey, vrfKeyPair: VrfKeyPair, step: StepIdentifier, hashes: seq<Hash256>,
                          context: FinalizationContext, crypto: Crypto)
    requires HeaderSize + 32 * |hashes| <= MaxUint32
    requires context.lookup(rootKey).weight == 0
    ensures Prepare(rootKey, vrfKeyPair, step, hashes, context, crypto) == None
  {
  }

  /** A message is produced exactly when the signer is a voter and sortition awards it votes. */
  lemma PrepareSelection(rootKey: OtsPublicKey, vrfKeyPair: VrfKeyPair, step: StepIdentifier, hashes: seq<Hash256>,
                         context: FinalizationContext, crypto: Crypto)
    requires HeaderSize + 32 * |hashes| <= MaxUint32
    ensures Prepare(rootKey, vrfKeyPair, step, hashes, context, crypto).Some?
      <==> context.lookup(rootKey).weight != 0 && PrepareVotes(rootKey, vrfKeyPair, step, context, crypto) != 0
  {
  }

  /**
   * A prepared message carries the step and the generated proof, the hashes
   * in their order, a size of header plus 32 bytes per hash, and the tree's
   * signature over exactly the hash bytes for that step.
   */
  lemma PrepareLayout(rootKey: OtsPublicKey, vrfKeyPair: VrfKeyPair, step: StepIdentifier, hashes: seq<Hash256>,
                      context: FinalizationContext, crypto: Crypto)
    requires HeaderSize + 32 * |hashes| <= MaxUint32
    requires Prepare(rootKey, vrfKeyPair, step, hashes, context, crypto).Some?
    ensures var m := Prepare(rootKey, vrfKeyPair, step, hashes, context, crypto).value;
      && m.size == HeaderSize + 32 * |hashes|
      && m.hashesCount == |hashes|
      && m.hashes == hashes
      && m.stepIdentifier == step
      && m.sortitionHashProof == SortitionProof(vrfKeyPair, step, context, crypto)
      && m.signature == crypto.otsSign(rootKey, step, Flatten(hashes))
      && ToBuffer(m) == Flatten(hashes)
  {
  }

  // ---------------------------------------------------------------------------
  // Validation (verifier side)
  // ---------------------------------------------------------------------------

  /** The account named by the root key of the message's signature. */
  function Sender(m: FinalizationMessage, context: FinalizationContext): AccountView
  {
    context.lookup(m.signature.root.parentPublicKey)
  }

  /** The VRF output recovered from the message's proof with the sender's VRF key. */
  function VerifiedSortitionHash(m: FinalizationMessage, context: FinalizationContext, crypto: Crypto): Hash512
  {
    crypto.verifyVrfProof(m.sortitionHashProof,
                          VrfInputBytes(SortitionVrfInput(context.generationHash, m.stepIdentifier)),
                          Sender(m, context).vrfPublicKey)
  }

  /** The votes sortition awards the sender for the message's step. */
  function ProcessVotes(m: FinalizationMessage, context: FinalizationContext, crypto: Crypto): uint64
  {
    crypto.sortition(VerifiedSortitionHash(m, context, crypto), context.config.size,
                     Sender(m, context).weight, context.weight)
  }

  /** `ProcessMessage`: re-derives the selection and checks the signature. */
  function ProcessMessage(m: FinalizationMessage, context: FinalizationContext, crypto: Crypto): (r: ProcessOutcome)
    requires WellFormed(m)
    ensures r.result == Success <==> r.numVotes != 0
  {
    var accountView := Sender(m, context);
    if accountView.weight == 0 then ProcessOutcome(Failure_Voter, 0)
    else
      var sortitionHash := VerifiedSortitionHash(m, context, crypto);
      if sortitionHash == ZeroHash512 then ProcessOutcome(Failure_Sortition_Hash_Proof, 0)
      else
        var numVotes := crypto.sortition(sortitionHash, context.config.size, accountView.weight, context.weight);
        if numVotes == 0 then ProcessOutcome(Failure_Selection, 0)
        else if !crypto.otsVerify(m.signature, m.stepIdentifier, ToBuffer(m)) then ProcessOutcome(Failure_Message_Signature, 0)
        else ProcessOutcome(Success, numVotes)
  }

  /**
   * The checks run in a fixed order and the first that fails decides the
   * outcome; every failure reports zero votes, success reports sortition's count.
   */
  lemma ProcessMessageOrder(m: FinalizationMessage, context: FinalizationContext, crypto: Crypto)
    requires WellFormed(m)
    ensures var r := ProcessMessage(m, context, crypto);
      && (r.result == Failure_Voter <==> Sender(m, context).weight == 0)
      && (r.result == Failure_Sortition_Hash_Proof <==>
            Sender(m, context).weight != 0 && VerifiedSortitionHash(m, context, crypto) == ZeroHash512)
      && (r.result == Failure_Selection <==>
            Sender(m, context).weight != 0 && VerifiedSortitionHash(m, context, crypto) != ZeroHash512
            && ProcessVotes(m, context, crypto) == 0)
      && (r.result == Failure_Message_Signature <==>
            Sender(m, context).weight != 0 && VerifiedSortitionHash(m, context, crypto) != ZeroHash512
            && ProcessVotes(m, context, crypto) != 0
            && !crypto.otsVerify(m.signature, m.stepIdentifier, ToBuffer(m)))
      && (r.result == Success ==> r.numVotes == ProcessVotes(m, context, crypto))
      && (r.result != Success ==> r.numVotes == 0)
  {
  }

  /** A sender with zero weight is rejected whatever the cryptographic primitives do. */
  lemma ProcessZeroWeight(m: FinalizationMessage, context: FinalizationContext, crypto: Crypto)
    requires WellFormed(m)
    requires Sender(m, context).weight == 0
    ensures ProcessMessage(m, context, crypto) == ProcessOutcome(Failure_Voter, 0)
  {
  }

  // ---------------------------------------------------------------------------
  // Round trip
  // ---------------------------------------------------------------------------

  /**
   * A message prepared by a voter that sortition selected is accepted by
   * validation against the same context, with the same number of votes,
   * provided the VRF and OTS primitives are sound, the context registers
   * the signer's VRF public key, and the generated VRF output is not the
   * zero hash.
   */
  lemma PrepareThenProcess(rootKey: OtsPublicKey, vrfKeyPair: VrfKeyPair, step: StepIdentifier,
                          hashes: seq<Hash256>, context: FinalizationContext, crypto: Crypto)
    requires HeaderSize + 32 * |hashes| <= MaxUint32
    requires VrfSound(crypto) && OtsSound(crypto)
    requires context.lookup(rootKey).vrfPublicKey == vrfKeyPair.publicKey
    requires crypto.generateVrfProofHash(SortitionProof(vrfKeyPair, step, context, crypto).gamma) != ZeroHash512
    requires Prepare(rootKey, vrfKeyPair, step, hashes, context, crypto).Some?
    ensures ProcessMessage(Prepare(rootKey, vrfKeyPair, step, hashes, context, crypto).value, context, crypto)
      == ProcessOutcome(Success, PrepareVotes(rootKey, vrfKeyPair, step, context, crypto))
  {
    var m := Prepare(rootKey, vrfKeyPair, step, hashes, context, crypto).value;
    var input := VrfInputBytes(SortitionVrfInput(context.generationHash, step));
    var proof := SortitionProof(vrfKeyPair, step, context, crypto);
    assert m.signature == crypto.otsSign(rootKey, step, ToBuffer(m));
    assert crypto.otsVerify(m.signature, step, ToBuffer(m)) && m.signature.root.parentPublicKey == rootKey;
    assert Sender(m, context) == context.lookup(rootKey);
    assert crypto.verifyVrfProof(crypto.generateVrfProof(input, vrfKeyPair), input, vrfKeyPair.publicKey)
      == crypto.generateVrfProofHash(crypto.generateVrfProof(input, vrfKeyPair).gamma);
    assert VerifiedSortitionHash(m, context, crypto) == crypto.generateVrfProofHash(proof.gamma);
  }

  /**
   * Preparation never checks the VRF output against the zero hash, while
   * validation does: if the generated output is the zero hash, a message
   * that was prepared and signed is then rejected.
   */
  lemma PrepareThenProcessZeroOutput(rootKey: OtsPublicKey, vrfKeyPair: VrfKeyPair, step: StepIdentifier,
                                     hashes: seq<Hash256>, context: FinalizationContext, crypto: Crypto)
    requires HeaderSize + 32 * |hashes| <= MaxUint32
    requires VrfSound(crypto) && OtsSound(crypto)
    requires context.lookup(rootKey).vrfPublicKey == vrfKeyPair.publicKey
    requires crypto.generateVrfProofHash(SortitionProof(vrfKeyPair, step, context, crypto).gamma) == ZeroHash512
    requires Prepare(rootKey, vrfKeyPair, step, hashes, context, crypto).Some?
    ensures ProcessMessage(Prepare(rootKey, vrfKeyPair, step, hashes, context, crypto).value, context, crypto)
      == ProcessOutcome(Failure_Sortition_Hash_Proof, 0)
  {
    var m := Prepare(rootKey, vrfKeyPair, step, hashes, context, crypto).value;
    var input := VrfInputBytes(SortitionVrfInput(context.generationHash, step));
    assert m.signature == crypto.otsSign(rootKey, step, ToBuffer(m));
    assert m.signature.root.parentPublicKey == rootKey;
    assert crypto.verifyVrfProof(crypto.generateVrfProof(input, vrfKeyPair), input, vrfKeyPair.publicKey)
      == crypto.generateVrfProofHash(crypto.generateVrfProof(input, vrfKeyPair).gamma);
  }
}
