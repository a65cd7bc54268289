/**
 * The collaborators the message pipeline consults but does not define:
 * the per-step finalization context, the VRF and sortition primitives,
 * OTS verification, and the one-time-signature tree that signs.
 *
 * The cryptographic primitives are parameters (a record of functions), so
 * every result about the pipeline holds for any implementation of them;
 * the few properties of the primitives a round trip needs are stated as
 * predicates and taken as hypotheses where they are used.
 */
module Collaborators {
  import opened Primitives
  import opened OtsTypes

  /** The three parts of a VRF proof. */
  datatype VrfProof = VrfProof(gamma: seq<uint8>, verificationHash: seq<uint8>, scalar: seq<uint8>)

  /** A VRF key pair; only its public half is ever compared. */
  datatype VrfKeyPair = VrfKeyPair(privateKey: seq<uint8>, publicKey: seq<uint8>)

  /** What the context knows of an account; a zero weight means "not a voter". */
  datatype AccountView = AccountView(weight: uint64, vrfPublicKey: seq<uint8>)

  /** The finalization settings read by sortition and by the aggregators. */
  datatype FinalizationConfiguration = FinalizationConfiguration(size: uint32, threshold: uint32)

  /** Read-only, step-scoped view of the voters. */
  datatype FinalizationContext = FinalizationContext(
    lookup: OtsPublicKey -> AccountView,
    weight: uint64,
    config: FinalizationConfiguration,
    generationHash: Hash256)

  /** The cryptographic primitives, as functions of their inputs. */
  datatype Crypto = Crypto(
    /** `crypto::GenerateVrfProof(input, keyPair)` */
    generateVrfProof: (seq<uint8>, VrfKeyPair) -> VrfProof,
    /** `crypto::GenerateVrfProofHash(gamma)` */
    generateVrfProofHash: seq<uint8> -> Hash512,
    /** `crypto::VerifyVrfProof(proof, input, publicKey)`: the proof hash, or the zero hash on failure */
    verifyVrfProof: (VrfProof, seq<uint8>, seq<uint8>) -> Hash512,
    /** `crypto::Sortition(hash, size, weight, totalWeight)`: the number of votes, 0 if not selected */
    sortition: (Hash512, uint32, uint64, uint64) -> uint64,
    /** signing by the OTS tree whose root public key is the first argument */
    otsSign: (OtsPublicKey, StepIdentifier, seq<uint8>) -> OtsTreeSignature,
    /** `crypto::Verify(signature, stepIdentifier, buffer)` */
    otsVerify: (OtsTreeSignature, StepIdentifier, seq<uint8>) -> bool)

  /** Verifying a generated proof with the matching public key yields the proof's hash. */
  ghost predicate VrfSound(c: Crypto)
  {
    forall input: seq<uint8>, keyPair: VrfKeyPair ::
      c.verifyVrfProof(c.generateVrfProof(input, keyPair), input, keyPair.publicKey)
        == c.generateVrfProofHash(c.generateVrfProof(input, keyPair).gamma)
  }

  /**
   * A tree's signature verifies for the step and bytes it was made for,
   * and carries the tree's root public key as its root parent key.
   */
  ghost predicate OtsSound(c: Crypto)
  {
    forall rootKey: OtsPublicKey, step: StepIdentifier, payload: seq<uint8> ::
      && c.otsVerify(c.otsSign(rootKey, step, payload), step, payload)
      && c.otsSign(rootKey, step, payload).root.parentPublicKey == rootKey
  }

  /**
   * The signing tree. Its key material is abstracted away: a signature is
   * a function of the root public key, the step and the signed bytes. What
   * the tree keeps is the last step it signed for, because a one-time key
   * must never sign twice for the same or an earlier step.
   */
  class OtsTree {
    const rootPublicKey: OtsPublicKey
    var lastSigned: Option<StepIdentifier>

    constructor (rootPublicKey: OtsPublicKey)
      ensures this.rootPublicKey == rootPublicKey
      ensures lastSigned == None
    {
      this.rootPublicKey := rootPublicKey;
      lastSigned := None;
    }

    /** The tree may sign for `step`: it is strictly later than every step signed so far. */
    predicate CanSign(step: StepIdentifier)
      reads this
    {
      lastSigned.None? || Less(lastSigned.value, step)
    }

    /** `otsTree.sign(stepIdentifier, buffer)`: consumes the key for `step`. */
    method Sign(crypto: Crypto, step: StepIdentifier, payload: seq<uint8>) returns (signature: OtsTreeSignature)
      requires CanSign(step)
      modifies this
      ensures signature == crypto.otsSign(rootPublicKey, step, payload)
      ensures lastSigned == Some(step)
      ensures !CanSign(step)
    {
      signature := crypto.otsSign(rootPublicKey, step, payload);
      lastSigned := Some(step);
      Irreflexive(step);
    }
  }
}
