/**
 * Value types of the one-time-signature (OTS) scheme used for voting:
 * the tree options, the step identifier with its lexicographic order,
 * and the tree signature compared byte for byte.
 */
module OtsTypes {
  import opened Primitives

  // ---------------------------------------------------------------------------
  // OtsOptions
  // ---------------------------------------------------------------------------

  /** Bounds on the (Round, SubRound) space a tree can sign for. */
  datatype OtsOptions = OtsOptions(maxRounds: uint64, maxSubRounds: uint64)

  /** `operator==`: both bounds match. */
  function OptionsEqual(a: OtsOptions, b: OtsOptions): (r: bool)
    ensures r <==> a.maxRounds == b.maxRounds && a.maxSubRounds == b.maxSubRounds
    ensures r <==> a == b
  {
    a.maxRounds == b.maxRounds && a.maxSubRounds == b.maxSubRounds
  }

  /** `operator!=`: the negation of `operator==`. */
  function OptionsNotEqual(a: OtsOptions, b: OtsOptions): (r: bool)
    ensures r <==> !OptionsEqual(a, b)
    ensures r <==> a != b
  {
    !OptionsEqual(a, b)
  }

  // ---------------------------------------------------------------------------
  // StepIdentifier
  // ---------------------------------------------------------------------------

  /** The protocol step: finalization point, round and sub-round. */
  datatype StepIdentifier = StepIdentifier(point: uint64, round: uint64, subRound: uint64)

  /** `operator==`: field-wise equality. */
  function Equal(a: StepIdentifier, b: StepIdentifier): (r: bool)
    ensures r <==> a == b
  {
    a.point == b.point && a.round == b.round && a.subRound == b.subRound
  }

  /** `operator!=`. */
  function NotEqual(a: StepIdentifier, b: StepIdentifier): (r: bool)
    ensures r <==> a != b
  {
    !Equal(a, b)
  }

  /**
   * `operator<`: lexicographic on (Point, Round, SubRound), which is the
   * order of the steps' ranks.
   */
  function Less(a: StepIdentifier, b: StepIdentifier): (r: bool)
    ensures r <==> Rank(a) < Rank(b)
  {
    LexPair(a.point, a.round, b.point, b.round, TwoTo64);
    LexPair(a.point * TwoTo64 + a.round, a.subRound, b.point * TwoTo64 + b.round, b.subRound, TwoTo64);
    a.point < b.point
    || (a.point == b.point && a.round < b.round)
    || (a.point == b.point && a.round == b.round && a.subRound < b.subRound)
  }

  /** `operator<=`: `<` or `==`. */
  function LessEq(a: StepIdentifier, b: StepIdentifier): (r: bool)
    ensures r <==> Less(a, b) || a == b
    ensures r <==> Rank(a) <= Rank(b)
  {
    RankOrder(a, b);
    Less(a, b) || Equal(a, b)
  }

  /** `operator>`: not `<=`, which is the reversed `<`. */
  function Greater(a: StepIdentifier, b: StepIdentifier): (r: bool)
    ensures r <==> Less(b, a)
  {
    Trichotomy(a, b);
    !LessEq(a, b)
  }

  /** `operator>=`: not `<`, which is the reversed `<` or equality. */
  function GreaterEq(a: StepIdentifier, b: StepIdentifier): (r: bool)
    ensures r <==> Less(b, a) || a == b
    ensures r <==> Greater(a, b) || Equal(a, b)
  {
    Trichotomy(a, b);
    !Less(a, b)
  }

  const TwoTo64: nat := 0x1_0000_0000_0000_0000

  /**
   * Reference definition of the order: the position of a step when the
   * three 64-bit fields are read as one 192-bit number, point most significant.
   */
  function Rank(s: StepIdentifier): nat
  {
    (s.point * TwoTo64 + s.round) * TwoTo64 + s.subRound
  }

  /** Multiplying by a natural number preserves `<=`. */
  lemma MulMonotone(a: nat, b: nat, m: nat)
    requires a <= b
    ensures a * m <= b * m
  {
    assert b * m == a * m + (b - a) * m;
  }

  /** Two-digit numbers in base `m` compare lexicographically by digit. */
  lemma LexPair(x0: nat, x1: nat, y0: nat, y1: nat, m: nat)
    requires x1 < m && y1 < m
    ensures x0 * m + x1 < y0 * m + y1 <==> x0 < y0 || (x0 == y0 && x1 < y1)
    ensures x0 * m + x1 == y0 * m + y1 <==> x0 == y0 && x1 == y1
  {
    if x0 < y0 {
      MulMonotone(x0 + 1, y0, m);
      assert (x0 + 1) * m == x0 * m + m;
    } else if y0 < x0 {
      MulMonotone(y0 + 1, x0, m);
      assert (y0 + 1) * m == y0 * m + m;
    }
  }

  /** `operator<` agrees with the order of ranks, and equal ranks mean equal steps. */
  lemma RankOrder(a: StepIdentifier, b: StepIdentifier)
    ensures Less(a, b) <==> Rank(a) < Rank(b)
    ensures a == b <==> Rank(a) == Rank(b)
  {
    LexPair(a.point, a.round, b.point, b.round, TwoTo64);
    LexPair(a.point * TwoTo64 + a.round, a.subRound, b.point * TwoTo64 + b.round, b.subRound, TwoTo64);
  }

  /** `<` is irreflexive. */
  lemma Irreflexive(a: StepIdentifier)
    ensures !Less(a, a)
  {
  }

  /** `<` is transitive. */
  lemma Transitive(a: StepIdentifier, b: StepIdentifier, c: StepIdentifier)
    requires Less(a, b) && Less(b, c)
    ensures Less(a, c)
  {
    RankOrder(a, b);
    RankOrder(b, c);
    RankOrder(a, c);
  }

  /** Exactly one of `a < b`, `a == b`, `b < a` holds. */
  lemma Trichotomy(a: StepIdentifier, b: StepIdentifier)
    ensures Less(a, b) || a == b || Less(b, a)
    ensures !(Less(a, b) && a == b)
    ensures !(Less(a, b) && Less(b, a))
    ensures !(a == b && Less(b, a))
  {
    RankOrder(a, b);
    RankOrder(b, a);
  }

  /** The packed in-memory bytes of a step identifier (three little-endian 64-bit words). */
  function StepIdentifierBytes(s: StepIdentifier): (r: seq<uint8>)
    ensures |r| == 24
  {
    LittleEndian(s.point, 8) + LittleEndian(s.round, 8) + LittleEndian(s.subRound, 8)
  }

  /** Distinct steps have distinct bytes. */
  lemma StepIdentifierBytesInjective(a: StepIdentifier, b: StepIdentifier)
    ensures StepIdentifierBytes(a) == StepIdentifierBytes(b) <==> a == b
  {
    if StepIdentifierBytes(a) == StepIdentifierBytes(b) {
      var x, y := StepIdentifierBytes(a), StepIdentifierBytes(b);
      assert x[..8] == LittleEndian(a.point, 8) && y[..8] == LittleEndian(b.point, 8);
      assert x[8..16] == LittleEndian(a.round, 8) && y[8..16] == LittleEndian(b.round, 8);
      assert x[16..] == LittleEndian(a.subRound, 8) && y[16..] == LittleEndian(b.subRound, 8);
      Pow256Of8();
      LittleEndianInjective(a.point, b.point, 8);
      LittleEndianInjective(a.round, b.round, 8);
      LittleEndianInjective(a.subRound, b.subRound, 8);
    }
  }

  // ---------------------------------------------------------------------------
  // OtsTreeSignature
  // ---------------------------------------------------------------------------

  /** A 32-byte OTS public key. */
  type OtsPublicKey = s: seq<uint8> | |s| == 32 witness Zeros(32)

  /** A 64-byte OTS signature. */
  type OtsSignature = s: seq<uint8> | |s| == 64 witness Zeros(64)

  /** One level of the tree signature: the parent key and its signature. */
  datatype OtsParentPublicKeySignaturePair =
    OtsParentPublicKeySignaturePair(parentPublicKey: OtsPublicKey, signature: OtsSignature)

  /** The signature of a message: root, top and bottom levels of the OTS tree. */
  datatype OtsTreeSignature =
    OtsTreeSignature(root: OtsParentPublicKeySignaturePair,
                     top: OtsParentPublicKeySignaturePair,
                     bottom: OtsParentPublicKeySignaturePair)

  const OtsTreeSignatureSize: nat := 3 * (32 + 64)

  function PairBytes(p: OtsParentPublicKeySignaturePair): (r: seq<uint8>)
    ensures |r| == 96
  {
    p.parentPublicKey + p.signature
  }

  /** The packed bytes of a tree signature, as `memcmp` sees them. */
  function SignatureBytes(s: OtsTreeSignature): (r: seq<uint8>)
    ensures |r| == OtsTreeSignatureSize
  {
    PairBytes(s.root) + PairBytes(s.top) + PairBytes(s.bottom)
  }

  lemma PairBytesInjective(a: OtsParentPublicKeySignaturePair, b: OtsParentPublicKeySignaturePair)
    requires PairBytes(a) == PairBytes(b)
    ensures a == b
  {
    assert PairBytes(a)[..32] == a.parentPublicKey && PairBytes(b)[..32] == b.parentPublicKey;
    assert PairBytes(a)[32..] == a.signature && PairBytes(b)[32..] == b.signature;
  }

  /** Byte-equal signatures are the same signature. */
  lemma SignatureBytesInjective(a: OtsTreeSignature, b: OtsTreeSignature)
    ensures SignatureBytes(a) == SignatureBytes(b) <==> a == b
  {
    if SignatureBytes(a) == SignatureBytes(b) {
      var x, y := SignatureBytes(a), SignatureBytes(b);
      assert x[..96] == PairBytes(a.root) && y[..96] == PairBytes(b.root);
      assert x[96..192] == PairBytes(a.top) && y[96..192] == PairBytes(b.top);
      assert x[192..] == PairBytes(a.bottom) && y[192..] == PairBytes(b.bottom);
      PairBytesInjective(a.root, b.root);
      PairBytesInjective(a.top, b.top);
      PairBytesInjective(a.bottom, b.bottom);
    }
  }

  /** `operator==`: the whole structure compared byte for byte. */
  function SignatureEqual(a: OtsTreeSignature, b: OtsTreeSignature): (r: bool)
    ensures r <==> a == b
  {
    SignatureBytesInjective(a, b);
    SignatureBytes(a) == SignatureBytes(b)
  }

  /** `operator!=`. */
  function SignatureNotEqual(a: OtsTreeSignature, b: OtsTreeSignature): (r: bool)
    ensures r <==> a != b
  {
    !SignatureEqual(a, b)
  }
}
