/**
 * Aggregation of validated finalization messages for a single step until
 * consensus is reached. One class serves both engines: count-votes, which
 * decides on the single sentinel value once enough votes arrived, and
 * common-block, which decides on a hash from a caller-supplied candidate
 * list. The decision is latched: once made, it never changes.
 */
module Aggregator {
  import opened Primitives
  import opened OtsTypes
  import opened Collaborators
  import opened MessagePipeline

  /** Which of the two aggregators an instance is. */
  datatype Engine = CountVotes | CommonBlock

  /** One `add` call: a message and the votes it contributes. */
  datatype Vote = Vote(message: FinalizationMessage, numVotes: uint64)

  /**
   * Whether the votes of `message` count towards `candidate`: for the
   * count-votes engine every vote does, for the common-block engine a
   * message supports each hash it carries.
   */
  predicate Credits(engine: Engine, message: FinalizationMessage, candidate: Hash256)
  {
    match engine
    case CountVotes => true
    case CommonBlock => candidate in message.hashes
  }

  /** The votes accumulated for `candidate` over a sequence of `add` calls. */
  function Support(engine: Engine, votes: seq<Vote>, candidate: Hash256): nat
  {
    if votes == [] then 0
    else
      var last := votes[|votes| - 1];
      Support(engine, votes[..|votes| - 1], candidate)
        + (if Credits(engine, last.message, candidate) then last.numVotes else 0)
  }

  /** The sum of all votes added. */
  function TotalVotes(votes: seq<Vote>): nat
  {
    if votes == [] then 0 else TotalVotes(votes[..|votes| - 1]) + votes[|votes| - 1].numVotes
  }

  /** Each `add` contributes exactly its vote count to every candidate it credits. */
  lemma SupportAppend(engine: Engine, votes: seq<Vote>, v: Vote, candidate: Hash256)
    ensures Support(engine, votes + [v], candidate)
      == Support(engine, votes, candidate) + (if Credits(engine, v.message, candidate) then v.numVotes else 0)
  {
    assert (votes + [v])[..|votes|] == votes;
  }

  /** Support never decreases as votes are added. */
  lemma {:induction false} SupportMonotone(engine: Engine, votes: seq<Vote>, k: nat, candidate: Hash256)
    requires k <= |votes|
    ensures Support(engine, votes[..k], candidate) <= Support(engine, votes, candidate)
  {
    if k < |votes| {
      var init := votes[..|votes| - 1];
      assert init[..k] == votes[..k];
      SupportMonotone(engine, init, k, candidate);
    } else {
      assert votes[..k] == votes;
    }
  }

  /** For the count-votes engine every candidate's support is the total of all votes. */
  lemma {:induction false} CountVotesSupport(votes: seq<Vote>, candidate: Hash256)
    ensures Support(CountVotes, votes, candidate) == TotalVotes(votes)
  {
    if votes != [] {
      CountVotesSupport(votes[..|votes| - 1], candidate);
    }
  }

  /** The support of each candidate, in candidate order. */
  function SupportVector(engine: Engine, candidates: seq<Hash256>, votes: seq<Vote>): (r: seq<nat>)
    ensures |r| == |candidates|
    ensures forall i :: 0 <= i < |candidates| ==> r[i] == Support(engine, votes, candidates[i])
  {
    seq(|candidates|, i requires 0 <= i < |candidates| => Support(engine, votes, candidates[i]))
  }

  /** The first position whose weight reaches the threshold, if any. */
  function FirstAtLeast(weights: seq<nat>, threshold: nat): (r: Option<nat>)
    ensures r.Some? ==> r.value < |weights| && weights[r.value] >= threshold
    ensures r.Some? ==> forall j :: 0 <= j < r.value ==> weights[j] < threshold
    ensures r.None? ==> forall j :: 0 <= j < |weights| ==> weights[j] < threshold
  {
    if weights == [] then None
    else if weights[0] >= threshold then Some(0)
    else match FirstAtLeast(weights[1..], threshold)
      case None => None
      case Some(k) => Some(k + 1)
  }

  /** The earliest candidate in list order whose support reaches the threshold. */
  function Qualifying(engine: Engine, candidates: seq<Hash256>, votes: seq<Vote>, threshold: nat): Option<Hash256>
  {
    match FirstAtLeast(SupportVector(engine, candidates, votes), threshold)
    case None => None
    case Some(i) => Some(candidates[i])
  }

  /**
   * The decision after a sequence of `add` calls: the first qualifying
   * candidate at the first moment any candidate qualified, kept from then on.
   */
  function Decision(engine: Engine, candidates: seq<Hash256>, votes: seq<Vote>, threshold: nat): Option<Hash256>
  {
    if votes == [] then Qualifying(engine, candidates, votes, threshold)
    else
      var earlier := Decision(engine, candidates, votes[..|votes| - 1], threshold);
      if earlier.Some? then earlier else Qualifying(engine, candidates, votes, threshold)
  }

  /** A decided hash is one of the candidates and has reached the threshold. */
  lemma {:induction false} DecisionSound(engine: Engine, candidates: seq<Hash256>, votes: seq<Vote>, threshold: nat)
    requires Decision(engine, candidates, votes, threshold).Some?
    ensures var h := Decision(engine, candidates, votes, threshold).value;
      h in candidates && Support(engine, votes, h) >= threshold
  {
    if votes != [] {
      var init := votes[..|votes| - 1];
      if Decision(engine, candidates, init, threshold).Some? {
        DecisionSound(engine, candidates, init, threshold);
        assert votes[..|votes| - 1] == init;
        SupportMonotone(engine, votes, |votes| - 1, Decision(engine, candidates, init, threshold).value);
      }
    }
  }

  /** Consensus holds exactly when some candidate has reached the threshold. */
  lemma DecisionComplete(engine: Engine, candidates: seq<Hash256>, votes: seq<Vote>, threshold: nat)
    ensures Decision(engine, candidates, votes, threshold).Some?
      <==> exists i :: 0 <= i < |candidates| && Support(engine, votes, candidates[i]) >= threshold
  {
    if Decision(engine, candidates, votes, threshold).Some? {
      DecisionSound(engine, candidates, votes, threshold);
      var h := Decision(engine, candidates, votes, threshold).value;
      var i :| 0 <= i < |candidates| && candidates[i] == h;
      assert Support(engine, votes, candidates[i]) >= threshold;
    } else {
      var ws := SupportVector(engine, candidates, votes);
      assert FirstAtLeast(ws, threshold).None?;
      forall i | 0 <= i < |candidates| ensures Support(engine, votes, candidates[i]) < threshold {
        assert ws[i] == Support(engine, votes, candidates[i]);
      }
    }
  }

  /** Once made, the decision survives every later `add`. */
  lemma {:induction false} DecisionStable(engine: Engine, candidates: seq<Hash256>, votes: seq<Vote>, k: nat, threshold: nat)
    requires k <= |votes|
    requires Decision(engine, candidates, votes[..k], threshold).Some?
    ensures Decision(engine, candidates, votes, threshold) == Decision(engine, candidates, votes[..k], threshold)
  {
    if k == |votes| {
      assert votes[..k] == votes;
    } else {
      var init := votes[..|votes| - 1];
      assert init[..k] == votes[..k];
      DecisionStable(engine, candidates, init, k, threshold);
    }
  }

  /**
   * Tie-break: the call that first reaches consensus decides on the
   * earliest candidate in list order among those that then qualify.
   */
  lemma DecisionEarliest(engine: Engine, candidates: seq<Hash256>, votes: seq<Vote>, threshold: nat)
    requires votes != []
    requires Decision(engine, candidates, votes[..|votes| - 1], threshold).None?
    requires Decision(engine, candidates, votes, threshold).Some?
    ensures var h := Decision(engine, candidates, votes, threshold).value;
      exists i :: 0 <= i < |candidates| && candidates[i] == h
        && Support(engine, votes, h) >= threshold
        && forall j :: 0 <= j < i ==> Support(engine, votes, candidates[j]) < threshold
  {
    var ws := SupportVector(engine, candidates, votes);
    var i := FirstAtLeast(ws, threshold).value;
    assert ws[i] == Support(engine, votes, candidates[i]);
    forall j | 0 <= j < i ensures Support(engine, votes, candidates[j]) < threshold {
      assert ws[j] == Support(engine, votes, candidates[j]);
    }
  }

  /** A message carrying no candidate hash changes neither the support nor the decision. */
  lemma OutOfSetContributesNothing(candidates: seq<Hash256>, votes: seq<Vote>, v: Vote, threshold: nat)
    requires forall i :: 0 <= i < |candidates| ==> candidates[i] !in v.message.hashes
    ensures SupportVector(CommonBlock, candidates, votes + [v]) == SupportVector(CommonBlock, candidates, votes)
    ensures Decision(CommonBlock, candidates, votes + [v], threshold) == Decision(CommonBlock, candidates, votes, threshold)
  {
    forall i | 0 <= i < |candidates|
      ensures Support(CommonBlock, votes + [v], candidates[i]) == Support(CommonBlock, votes, candidates[i])
    {
      SupportAppend(CommonBlock, votes, v, candidates[i]);
    }
    assert SupportVector(CommonBlock, candidates, votes + [v]) == SupportVector(CommonBlock, candidates, votes);
    assert (votes + [v])[..|votes|] == votes;
    if Decision(CommonBlock, candidates, votes, threshold).None? {
      if votes != [] {
        assert Qualifying(CommonBlock, candidates, votes, threshold).None?;
      }
    }
  }

  /** The count-votes engine reaches consensus exactly when the total reaches the threshold, on the zero hash. */
  lemma CountVotesDecision(votes: seq<Vote>, threshold: nat)
    ensures Decision(CountVotes, [ZeroHash256], votes, threshold).Some? <==> TotalVotes(votes) >= threshold
    ensures Decision(CountVotes, [ZeroHash256], votes, threshold).Some? ==>
      Decision(CountVotes, [ZeroHash256], votes, threshold).value == ZeroHash256
  {
    CountVotesSupport(votes, ZeroHash256);
    DecisionComplete(CountVotes, [ZeroHash256], votes, threshold);
    if Decision(CountVotes, [ZeroHash256], votes, threshold).Some? {
      DecisionSound(CountVotes, [ZeroHash256], votes, threshold);
    }
  }

  /** Loop form of `FirstAtLeast`. */
  method FindFirstAtLeast(weights: seq<nat>, threshold: nat) returns (r: Option<nat>)
    ensures r == FirstAtLeast(weights, threshold)
  {
    var k := 0;
    while k < |weights| && weights[k] < threshold
      invariant 0 <= k <= |weights|
      invariant forall j :: 0 <= j < k ==> weights[j] < threshold
    {
      k := k + 1;
    }
    r := if k < |weights| then Some(k) else None;
    var expected := FirstAtLeast(weights, threshold);
    if expected.Some? && r.Some? {
      assert !(expected.value < k) && !(k < expected.value);
    }
  }

  /** A finalization message aggregator for a single step. */
  class FinalizationMessageAggregator {
    const engine: Engine
    const threshold: nat
    const candidates: seq<Hash256>
    /** `weights[i]` is the support accumulated for `candidates[i]`. */
    var weights: seq<nat>
    var decided: Option<Hash256>
    /** Every `add` call so far. */
    ghost var votes: seq<Vote>

    ghost predicate Valid()
      reads this
    {
      && (engine == CountVotes ==> candidates == [ZeroHash256])
      && weights == SupportVector(engine, candidates, votes)
      && decided == Decision(engine, candidates, votes, threshold)
      && forall k :: 0 <= k < |votes| ==> votes[k].message.stepIdentifier == votes[0].message.stepIdentifier
    }

    /** `CreateFinalizationMessageCountVotesAggregator(config)`. */
    constructor CreateCountVotes(config: FinalizationConfiguration)
      ensures Valid()
      ensures engine == CountVotes && threshold == config.threshold && candidates == [ZeroHash256]
      ensures votes == []
    {
      engine := CountVotes;
      threshold := config.threshold;
      candidates := [ZeroHash256];
      votes := [];
      weights := [0];
      new;
      assert weights == SupportVector(engine, candidates, votes);
      var first := FindFirstAtLeast(weights, threshold);
      decided := if first.Some? then Some(candidates[first.value]) else None;
    }

    /** `CreateFinalizationMessageCommonBlockAggregator(config, hashes)`. */
    constructor CreateCommonBlock(config: FinalizationConfiguration, hashes: seq<Hash256>)
      ensures Valid()
      ensures engine == CommonBlock && threshold == config.threshold && candidates == hashes
      ensures votes == []
    {
      engine := CommonBlock;
      threshold := config.threshold;
      candidates := hashes;
      votes := [];
      weights := seq(|hashes|, _ => 0);
      new;
      assert weights == SupportVector(engine, candidates, votes);
      var first := FindFirstAtLeast(weights, threshold);
      decided := if first.Some? then Some(candidates[first.value]) else None;
    }

    /** `hasConsensus()`: some candidate's support has reached the threshold. */
    function HasConsensus(): (r: bool)
      reads this
      requires Valid()
      ensures r <==> exists i :: 0 <= i < |candidates| && Support(engine, votes, candidates[i]) >= threshold
    {
      DecisionComplete(engine, candidates, votes, threshold);
      decided.Some?
    }

    /** `consensusHash()`: the decided candidate, which has reached the threshold. */
    function ConsensusHash(): (h: Hash256)
      reads this
      requires Valid() && HasConsensus()
      ensures h in candidates && Support(engine, votes, h) >= threshold
      ensures engine == CountVotes ==> h == ZeroHash256
      ensures Decision(engine, candidates, votes, threshold) == Some(h)
    {
      DecisionSound(engine, candidates, votes, threshold);
      decided.value
    }

    /**
     * `add(message, numVotes)`: records a message that validation accepted
     * with `numVotes` votes for the same step as every earlier message.
     */
    method Add(message: FinalizationMessage, numVotes: uint64, ghost context: FinalizationContext, ghost crypto: Crypto)
      requires Valid()
      requires WellFormed(message)
      requires ProcessMessage(message, context, crypto) == ProcessOutcome(Success, numVotes)
      requires votes != [] ==> message.stepIdentifier == votes[0].message.stepIdentifier
      modifies this
      ensures Valid()
      ensures votes == old(votes) + [Vote(message, numVotes)]
      ensures |weights| == |candidates|
      ensures forall i :: 0 <= i < |candidates| ==>
        weights[i] == old(weights[i]) + (if Credits(engine, message, candidates[i]) then numVotes else 0)
      ensures old(decided).Some? ==> decided == old(decided)
      ensures old(decided).None? ==> decided == Qualifying(engine, candidates, votes, threshold)
    {
      var updated := weights;
      var i := 0;
      while i < |candidates|
        invariant 0 <= i <= |candidates| && |updated| == |candidates|
        invariant forall j :: 0 <= j < i ==>
          updated[j] == weights[j] + (if Credits(engine, message, candidates[j]) then numVotes else 0)
        invariant forall j :: i <= j < |candidates| ==> updated[j] == weights[j]
      {
        if Credits(engine, message, candidates[i]) {
          updated := updated[i := updated[i] + numVotes];
        }
        i := i + 1;
      }
      ghost var before := votes;
      ghost var vote := Vote(message, numVotes);
      weights := updated;
      votes := votes + [vote];
      forall j | 0 <= j < |candidates|
        ensures weights[j] == Support(engine, votes, candidates[j])
      {
        SupportAppend(engine, before, vote, candidates[j]);
      }
      assert votes[..|votes| - 1] == before;
      if decided.None? {
        var first := FindFirstAtLeast(weights, threshold);
        decided := if first.Some? then Some(candidates[first.value]) else None;
      }
    }
  }

  /**
   * With a threshold of 100, adding 40 and then 65 votes reaches consensus
   * on the second call, and a further 5 votes keep it.
   */
  lemma CountVotesExample(m: FinalizationMessage)
    ensures var votes := [Vote(m, 40), Vote(m, 65), Vote(m, 5)];
      && Decision(CountVotes, [ZeroHash256], votes[..1], 100).None?
      && Decision(CountVotes, [ZeroHash256], votes[..2], 100) == Some(ZeroHash256)
      && Decision(CountVotes, [ZeroHash256], votes, 100) == Some(ZeroHash256)
  {
    var votes := [Vote(m, 40), Vote(m, 65), Vote(m, 5)];
    CountVotesDecision(votes[..1], 100);
    CountVotesDecision(votes[..2], 100);
    CountVotesDecision(votes, 100);
    assert votes[..2][..1] == votes[..1];
  }
}
