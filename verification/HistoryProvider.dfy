/** Opcode indexes and step sizes of history commitments, and how challenge levels line up. */
module HistoryProvider {
  import opened Bits
  import opened Merkle
  import opened Outcomes

  datatype ProviderError = LevelOutOfRange | IndexOverflow | EndAboveMax | InvalidRange | TooFewOriginHeights

  /** Opcodes in one step at a level: the product of the leaf heights of all deeper levels. */
  function Weight(leafHeights: seq<nat>, level: nat): nat
    decreases |leafHeights| - level
  {
    if level + 1 >= |leafHeights| then 1 else leafHeights[level + 1] * Weight(leafHeights, level + 1)
  }

  /** Mixed-radix value of heights given from a level downwards. */
  function IndexFrom(leafHeights: seq<nat>, heights: seq<nat>, level: nat): nat
    decreases |heights|
  {
    if heights == [] then 0
    else heights[0] * Weight(leafHeights, level) + IndexFrom(leafHeights, heights[1..], level + 1)
  }

  /** The opcode at which a commitment starts; the block level has no opcodes. */
  function StartIndex(leafHeights: seq<nat>, upper: seq<nat>, fromHeight: nat): nat {
    if upper == [] then 0 else IndexFrom(leafHeights, upper[1..] + [fromHeight], 1)
  }

  /** The product of the leaf heights below a level, as the index loop multiplies it up. */
  method ProductBelow(leafHeights: seq<nat>, level: nat) returns (total: nat)
    ensures total == Weight(leafHeights, level)
  {
    total := 1;
    var i := level + 1;
    while i < |leafHeights|
      invariant level + 1 <= i
      invariant total * Weight(leafHeights, i - 1) == Weight(leafHeights, level)
    {
      MulAssociative(total, leafHeights[i], Weight(leafHeights, i));
      total := total * leafHeights[i];
      i := i + 1;
    }
  }

  lemma {:induction false} MulAssociative(a: nat, b: nat, c: nat)
    ensures a * (b * c) == (a * b) * c
  {
  }

  method ComputeMachineStartIndex(leafHeights: seq<nat>, upper: seq<nat>, fromHeight: nat)
      returns (r: Result<nat, ProviderError>)
    ensures var index := StartIndex(leafHeights, upper, fromHeight);
            r == if index < UINT64 then Ok(index) else Err(IndexOverflow)
  {
    if |upper| == 0 {
      return Ok(0);
    }
    var heights := upper[1..] + [fromHeight];
    var opcodeIndex, idx := 0, 1;
    for k := 0 to |heights|
      invariant idx == k + 1
      invariant opcodeIndex + IndexFrom(leafHeights, heights[k..], idx) == IndexFrom(leafHeights, heights, 1)
    {
      var total := ProductBelow(leafHeights, idx);
      assert heights[k..][1..] == heights[k + 1..];
      opcodeIndex := opcodeIndex + heights[k] * total;
      idx := idx + 1;
    }
    if opcodeIndex >= UINT64 {
      return Err(IndexOverflow);
    }
    return Ok(opcodeIndex);
  }

  /** Multiplies words without an overflow check. */
  method ComputeStepSize(leafHeights: seq<nat>, challengeLevel: nat) returns (total: nat)
    requires challengeLevel < |leafHeights|
    ensures total == Weight(leafHeights, challengeLevel) % UINT64
  {
    if challengeLevel + 1 == |leafHeights| {
      return 1;
    }
    var levels := leafHeights[challengeLevel + 1..];
    total := 1;
    for i := 0 to |levels|
      invariant (total * Weight(leafHeights, challengeLevel + i)) % UINT64
             == Weight(leafHeights, challengeLevel) % UINT64
      invariant total < UINT64
    {
      WrappedProduct(total, levels[i], Weight(leafHeights, challengeLevel + i + 1));
      total := (total * levels[i]) % UINT64;
    }
  }

  lemma {:induction false} WrappedProduct(a: nat, b: nat, c: nat)
    ensures (((a * b) % UINT64) * c) % UINT64 == (a * (b * c)) % UINT64
  {
    var q, m := (a * b) / UINT64, (a * b) % UINT64;
    MulAssociative(a, b, c);
    assert (q * UINT64 + m) * c == (q * c) * UINT64 + m * c;
    ModPlusMultiple(m * c, q * c);
  }

  lemma {:induction false} ModPlusMultiple(x: nat, k: nat)
    ensures (k * UINT64 + x) % UINT64 == x % UINT64
  {
  }

  method ComputeRequiredNumberOfHashes(leafHeights: seq<nat>, challengeLevel: nat, fromHeight: nat, upTo: Option<nat>)
      returns (r: Result<nat, ProviderError>)
    ensures challengeLevel >= |leafHeights| ==> r == Err(LevelOutOfRange)
    ensures challengeLevel < |leafHeights| ==>
              var end := if upTo.None? then leafHeights[challengeLevel] else upTo.value;
              r == if end > leafHeights[challengeLevel] then Err(EndAboveMax)
                   else if end < fromHeight then Err(InvalidRange)
                   else Ok(end - fromHeight + 1)
  {
    if challengeLevel >= |leafHeights| {
      return Err(LevelOutOfRange);
    }
    var maxHeightForLevel := leafHeights[challengeLevel];
    var end := maxHeightForLevel;
    if upTo.Some? {
      end := upTo.value;
      if end > maxHeightForLevel {
        return Err(EndAboveMax);
      }
    }
    if end < fromHeight {
      return Err(InvalidRange);
    }
    return Ok(end - fromHeight + 1);
  }

  // ----- levels line up -----

  /** The opcode index of leaf h of the challenge below the given origin heights. */
  function LeafIndex(leafHeights: seq<nat>, upper: seq<nat>, h: nat): nat {
    StartIndex(leafHeights, upper, 0) + h * Weight(leafHeights, |upper|)
  }

  lemma {:induction false} IndexSnoc(leafHeights: seq<nat>, heights: seq<nat>, h: nat, level: nat)
    ensures IndexFrom(leafHeights, heights + [h], level)
         == IndexFrom(leafHeights, heights, level) + h * Weight(leafHeights, level + |heights|)
    decreases |heights|
  {
    if heights == [] {
      assert [h][1..] == [];
    } else {
      assert (heights + [h])[1..] == heights[1..] + [h];
      IndexSnoc(leafHeights, heights[1..], h, level + 1);
    }
  }

  /** A commitment that starts at height f starts at leaf f's index. */
  lemma {:induction false} StartsAtLeaf(leafHeights: seq<nat>, upper: seq<nat>, f: nat)
    requires upper != []
    ensures StartIndex(leafHeights, upper, f) == LeafIndex(leafHeights, upper, f)
  {
    IndexSnoc(leafHeights, upper[1..], f, 1);
    IndexSnoc(leafHeights, upper[1..], 0, 1);
  }

  /** The subchallenge opened at leaf h starts at that leaf's opcode and its last leaf lands on leaf
      h + 1's; below the block level it spans all opcodes of the block. */
  lemma {:induction false} LevelsLineUp(leafHeights: seq<nat>, upper: seq<nat>, h: nat)
    requires |upper| + 1 < |leafHeights|
    ensures upper != [] ==>
              && LeafIndex(leafHeights, upper + [h], 0) == LeafIndex(leafHeights, upper, h)
              && LeafIndex(leafHeights, upper + [h], leafHeights[|upper| + 1]) == LeafIndex(leafHeights, upper, h + 1)
    ensures upper == [] ==>
              && LeafIndex(leafHeights, [h], 0) == 0
              && LeafIndex(leafHeights, [h], leafHeights[1]) == Weight(leafHeights, 0)
  {
    var below := upper + [h];
    if upper != [] {
      assert below[1..] == upper[1..] + [h];
      IndexSnoc(leafHeights, upper[1..] + [h], 0, 1);
      IndexSnoc(leafHeights, upper[1..], h, 1);
      IndexSnoc(leafHeights, upper[1..], 0, 1);
      DistributeOne(h, Weight(leafHeights, |upper|));
    } else {
      assert [h][1..] + [0] == [0];
      assert [0][1..] == [];
    }
  }

  lemma {:induction false} DistributeOne(h: nat, w: nat)
    ensures (h + 1) * w == h * w + w
  {
  }

  // ----- heights and opcodes correspond one to one -----

  /** One height per level from the given one to the last, each below its level's leaf height. */
  predicate InRange(leafHeights: seq<nat>, heights: seq<nat>, level: nat) {
    && level + |heights| == |leafHeights|
    && forall i :: 0 <= i < |heights| ==> heights[i] < leafHeights[level + i]
  }

  function Digits(leafHeights: seq<nat>, index: nat, level: nat): (heights: seq<nat>)
    decreases |leafHeights| - level
  {
    if level >= |leafHeights| then []
    else
      var w := Weight(leafHeights, level);
      if w == 0 then [] else [index / w] + Digits(leafHeights, index % w, level + 1)
  }

  /** In-range heights give an index below the number of opcodes, and the index gives them back. */
  lemma {:induction false} HeightsRoundTrip(leafHeights: seq<nat>, heights: seq<nat>, level: nat)
    requires 0 < level && InRange(leafHeights, heights, level)
    ensures IndexFrom(leafHeights, heights, level) < Weight(leafHeights, level - 1)
    ensures Digits(leafHeights, IndexFrom(leafHeights, heights, level), level) == heights
    decreases |heights|
  {
    if heights != [] {
      var w, rest := Weight(leafHeights, level), IndexFrom(leafHeights, heights[1..], level + 1);
      assert forall i :: 0 <= i < |heights[1..]| ==> heights[1..][i] == heights[i + 1];
      HeightsRoundTrip(leafHeights, heights[1..], level + 1);
      Bound(heights[0], leafHeights[level], w, rest);
      DivModUnique(heights[0] * w + rest, w, heights[0], rest);
      assert heights == [heights[0]] + heights[1..];
    }
  }

  lemma {:induction false} Bound(h: nat, n: nat, w: nat, rest: nat)
    requires h < n && rest < w
    ensures h * w + rest < n * w
  {
    DistributeOne(h, w);
    MulMonotone(h + 1, n, w);
  }

  /** Every opcode index is the index of in-range heights. */
  lemma {:induction false} OpcodeRoundTrip(leafHeights: seq<nat>, index: nat, level: nat)
    requires 0 < level <= |leafHeights| && index < Weight(leafHeights, level - 1)
    ensures InRange(leafHeights, Digits(leafHeights, index, level), level)
    ensures IndexFrom(leafHeights, Digits(leafHeights, index, level), level) == index
    decreases |leafHeights| - level
  {
    if level < |leafHeights| {
      hide Digits, IndexFrom, Weight, InRange;
      var q, r := DigitsStep(leafHeights, index, level);
      OpcodeRoundTrip(leafHeights, r, level + 1);
      PlaceStep(leafHeights, q, Digits(leafHeights, r, level + 1), level);
    }
  }

  /** The first digit and what is left for the digits after it. */
  lemma {:induction false} DigitsStep(leafHeights: seq<nat>, index: nat, level: nat) returns (q: nat, r: nat)
    requires 0 < level < |leafHeights| && index < Weight(leafHeights, level - 1)
    ensures q < leafHeights[level] && r < Weight(leafHeights, level) && index == q * Weight(leafHeights, level) + r
    ensures Digits(leafHeights, index, level) == [q] + Digits(leafHeights, r, level + 1)
  {
    var w := Weight(leafHeights, level);
    QuotientBound(index, leafHeights[level], w);
    q, r := index / w, index % w;
  }

  /** A height put in front of the heights below it. */
  lemma {:induction false} PlaceStep(leafHeights: seq<nat>, h: nat, tail: seq<nat>, level: nat)
    requires level < |leafHeights| && InRange(leafHeights, tail, level + 1) && h < leafHeights[level]
    ensures InRange(leafHeights, [h] + tail, level)
    ensures IndexFrom(leafHeights, [h] + tail, level)
         == h * Weight(leafHeights, level) + IndexFrom(leafHeights, tail, level + 1)
  {
    assert ([h] + tail)[1..] == tail;
  }

  lemma {:induction false} QuotientBound(x: nat, n: nat, w: nat)
    requires x < n * w
    ensures w > 0 && x / w < n
  {
    if w > 0 && x / w >= n {
      MulMonotone(n, x / w, w);
    }
  }

  // ----- leaves -----

  /** What a hash collector returns: the machine's hashes at num opcodes, step apart. */
  function Collect(hashAt: (nat, nat) -> Hash, block: nat, start: nat, num: nat, step: nat): (r: seq<Hash>)
    ensures |r| == num
  {
    seq(num, i requires 0 <= i < num => hashAt(block, start + i * step))
  }

  /** Why a request for leaves is refused, if it is: the first of the checks that fails. */
  function RequestError(leafHeights: seq<nat>, upper: seq<nat>, fromHeight: nat, upTo: Option<nat>):
      Option<ProviderError>
    requires upper != []
  {
    if |upper| >= |leafHeights| then Some(LevelOutOfRange)
    else
      var end := if upTo.None? then leafHeights[|upper|] else upTo.value;
      if LeafIndex(leafHeights, upper, fromHeight) >= UINT64 then Some(IndexOverflow)
      else if end > leafHeights[|upper|] then Some(EndAboveMax)
      else if end < fromHeight then Some(InvalidRange)
      else None
  }

  /** The leaves of a request below the block level. */
  method SubchallengeLeaves(
      leafHeights: seq<nat>, hashAt: (nat, nat) -> Hash, upper: seq<nat>, fromHeight: nat, upTo: Option<nat>)
      returns (r: Result<seq<Hash>, ProviderError>)
    requires upper != []
    ensures var refused := RequestError(leafHeights, upper, fromHeight, upTo);
            if refused.Some? then r == Err(refused.value)
            else
              var end := if upTo.None? then leafHeights[|upper|] else upTo.value;
              r == Ok(Collect(hashAt, upper[0], LeafIndex(leafHeights, upper, fromHeight), end - fromHeight + 1,
                              Weight(leafHeights, |upper|) % UINT64))
  {
    if |upper| > |leafHeights| - 1 {
      return Err(LevelOutOfRange);
    }
    StartsAtLeaf(leafHeights, upper, fromHeight);
    var machineStartIndex := ComputeMachineStartIndex(leafHeights, upper, fromHeight);
    if machineStartIndex.Err? {
      return Err(machineStartIndex.error);
    }
    var stepSize := ComputeStepSize(leafHeights, |upper|);
    var numHashes := ComputeRequiredNumberOfHashes(leafHeights, |upper|, fromHeight, upTo);
    if numHashes.Err? {
      return Err(numHashes.error);
    }
    return Ok(Collect(hashAt, upper[0], machineStartIndex.value, numHashes.value, stepSize));
  }

  datatype OneStepData = OneStepData(beforeHash: Hash, afterHash: Hash, machineIndex: nat)

  /** The opcode at which the leaf of a height is collected, when the request starts at fromHeight. */
  function LeafOpcode(leafHeights: seq<nat>, upper: seq<nat>, fromHeight: nat, height: nat): nat
    requires fromHeight <= height
  {
    LeafIndex(leafHeights, upper, fromHeight) + (height - fromHeight) * (Weight(leafHeights, |upper|) % UINT64)
  }

  /** The opcode the proof collector is asked for. */
  function ProofOpcode(leafHeights: seq<nat>, upper: seq<nat>, fromHeight: nat, upToHeight: nat): nat {
    (StartIndex(leafHeights, upper, fromHeight) + upToHeight) % UINT64
  }

  /** The requests for the leaves up to a height and up to the next, a word that may wrap, both pass. */
  predicate Accepts(leafHeights: seq<nat>, upper: seq<nat>, fromHeight: nat, upToHeight: nat)
    requires upper != []
  {
    && RequestError(leafHeights, upper, fromHeight, Some((upToHeight + 1) % UINT64)) == None
    && RequestError(leafHeights, upper, fromHeight, Some(upToHeight)) == None
  }

  lemma {:induction false} LastCollected(hashAt: (nat, nat) -> Hash, block: nat, start: nat, last: nat, step: nat)
    ensures Collect(hashAt, block, start, last + 1, step)[last] == hashAt(block, start + last * step)
  {
  }

  /** The states at two neighbouring leaves and the opcode a proof is fetched for. */
  method OneStepProofData(
      leafHeights: seq<nat>, hashAt: (nat, nat) -> Hash, startHeights: seq<nat>, fromHeight: nat, upToHeight: nat)
      returns (r: Result<OneStepData, ProviderError>)
    requires upToHeight < UINT64
    ensures startHeights == [] ==> r == Err(TooFewOriginHeights)
    ensures startHeights != [] && !Accepts(leafHeights, startHeights, fromHeight, upToHeight) ==>
              var after := RequestError(leafHeights, startHeights, fromHeight, Some((upToHeight + 1) % UINT64));
              var before := RequestError(leafHeights, startHeights, fromHeight, Some(upToHeight));
              r == Err(if after.Some? then after.value else before.value)
    ensures startHeights != [] && Accepts(leafHeights, startHeights, fromHeight, upToHeight) ==>
              r == Ok(OneStepData(
                hashAt(startHeights[0], LeafOpcode(leafHeights, startHeights, fromHeight, upToHeight)),
                hashAt(startHeights[0], LeafOpcode(leafHeights, startHeights, fromHeight, (upToHeight + 1) % UINT64)),
                ProofOpcode(leafHeights, startHeights, fromHeight, upToHeight)))
  {
    hide LeafIndex, StartIndex, Weight, Collect;
    if |startHeights| < 1 {
      return Err(TooFewOriginHeights);
    }
    var endLeaves := SubchallengeLeaves(leafHeights, hashAt, startHeights, fromHeight, Some((upToHeight + 1) % UINT64));
    if endLeaves.Err? {
      return Err(endLeaves.error);
    }
    var startLeaves := SubchallengeLeaves(leafHeights, hashAt, startHeights, fromHeight, Some(upToHeight));
    if startLeaves.Err? {
      return Err(startLeaves.error);
    }
    StartsAtLeaf(leafHeights, startHeights, fromHeight);
    var machineIndex := ComputeMachineStartIndex(leafHeights, startHeights, fromHeight);
    var opcode := (machineIndex.value + upToHeight) % UINT64;
    var before, after := startLeaves.value, endLeaves.value;
    ghost var start := LeafIndex(leafHeights, startHeights, fromHeight);
    ghost var step := Weight(leafHeights, |startHeights|) % UINT64;
    LastCollected(hashAt, startHeights[0], start, upToHeight - fromHeight, step);
    LastCollected(hashAt, startHeights[0], start, (upToHeight + 1) % UINT64 - fromHeight, step);
    return Ok(OneStepData(before[|before| - 1], after[|after| - 1], opcode));
  }

  /** A whole subchallenge's leaves when its step size fits a word. */
  function FullLeaves(leafHeights: seq<nat>, hashAt: (nat, nat) -> Hash, upper: seq<nat>): seq<Hash>
    requires 0 < |upper| < |leafHeights|
  {
    Collect(hashAt, upper[0], LeafIndex(leafHeights, upper, 0), leafHeights[|upper|] + 1, Weight(leafHeights, |upper|))
  }

  /** The subchallenge on a length-one edge starts and ends in the states the edge starts and ends in. */
  lemma {:induction false} SubchallengeContinuesEdge(
      leafHeights: seq<nat>, hashAt: (nat, nat) -> Hash, upper: seq<nat>, h: nat)
    requires 0 < |upper| && |upper| + 1 < |leafHeights| && h < leafHeights[|upper|]
    ensures var parent := FullLeaves(leafHeights, hashAt, upper);
            var child := FullLeaves(leafHeights, hashAt, upper + [h]);
            child[0] == parent[h] && child[|child| - 1] == parent[h + 1]
  {
    LevelsLineUp(leafHeights, upper, h);
  }

  /** Over all accepted requests, the proof is fetched for the opcode of the before state exactly if the
      leaves from the start of the request up to that state span as many opcodes as its height, and the
      sum does not leave the word range. */
  lemma {:induction false} OneStepOpcodes(leafHeights: seq<nat>, upper: seq<nat>, fromHeight: nat, upToHeight: nat)
    requires upper != [] && upToHeight < UINT64 && Accepts(leafHeights, upper, fromHeight, upToHeight)
    ensures ProofOpcode(leafHeights, upper, fromHeight, upToHeight)
         == LeafOpcode(leafHeights, upper, fromHeight, upToHeight)
       <==> && (upToHeight - fromHeight) * (Weight(leafHeights, |upper|) % UINT64) == upToHeight
            && LeafIndex(leafHeights, upper, fromHeight) + upToHeight < UINT64
  {
    hide LeafIndex, StartIndex, Weight;
    StartsAtLeaf(leafHeights, upper, fromHeight);
    WordSumReaches(LeafIndex(leafHeights, upper, fromHeight), upToHeight,
      (upToHeight - fromHeight) * (Weight(leafHeights, |upper|) % UINT64));
  }

  lemma {:induction false} WordSumReaches(x: nat, y: nat, d: nat)
    requires x < UINT64 && y < UINT64
    ensures (x + y) % UINT64 == x + d <==> d == y && x + y < UINT64
  {
    if x + y >= UINT64 {
      assert (x + y) % UINT64 == x + y - UINT64;
    }
  }

  /** The opcode proved is the before state's, and the after state is one opcode on. */
  predicate ProvesStep(leafHeights: seq<nat>, upper: seq<nat>, fromHeight: nat, upToHeight: nat)
    requires fromHeight <= upToHeight && fromHeight <= (upToHeight + 1) % UINT64
  {
    var before := LeafOpcode(leafHeights, upper, fromHeight, upToHeight);
    && ProofOpcode(leafHeights, upper, fromHeight, upToHeight) == before
    && LeafOpcode(leafHeights, upper, fromHeight, (upToHeight + 1) % UINT64) == before + 1
  }

  /** Over all accepted requests, the opcode proved is the one executed between the two states exactly if
      the request starts at height 0, its leaves are one opcode apart and no sum leaves the word range. */
  lemma {:induction false} OneStepExact(leafHeights: seq<nat>, upper: seq<nat>, fromHeight: nat, upToHeight: nat)
    requires upper != [] && upToHeight < UINT64 && Accepts(leafHeights, upper, fromHeight, upToHeight)
    ensures ProvesStep(leafHeights, upper, fromHeight, upToHeight)
       <==> && fromHeight == 0 && Weight(leafHeights, |upper|) % UINT64 == 1
            && upToHeight + 1 < UINT64 && LeafIndex(leafHeights, upper, fromHeight) + upToHeight < UINT64
  {
    hide LeafIndex, StartIndex, Weight;
    OneStepOpcodes(leafHeights, upper, fromHeight, upToHeight);
    var step := Weight(leafHeights, |upper|) % UINT64;
    if upToHeight + 1 < UINT64 {
      DistributeOne(upToHeight - fromHeight, step);
    } else {
      assert (upToHeight + 1) % UINT64 == 0;
    }
  }

  /** On the last level leaves are one opcode apart, so only the start of the request and the word range
      matter. */
  lemma {:induction false} OneStepOnLastLevel(leafHeights: seq<nat>, upper: seq<nat>, fromHeight: nat, upToHeight: nat)
    requires upper != [] && |upper| + 1 == |leafHeights|
    requires upToHeight < UINT64 && Accepts(leafHeights, upper, fromHeight, upToHeight)
    ensures ProofOpcode(leafHeights, upper, fromHeight, upToHeight)
         == LeafOpcode(leafHeights, upper, fromHeight, upToHeight)
       <==> fromHeight == 0 && LeafIndex(leafHeights, upper, fromHeight) + upToHeight < UINT64
  {
    hide LeafIndex, StartIndex, Accepts;
    OneStepOpcodes(leafHeights, upper, fromHeight, upToHeight);
    assert Weight(leafHeights, |upper|) == 1;
  }

  /** The tracker's requests, from height 0 for a length-one edge of the last level, are accepted and prove
      the step, as long as one block's opcodes can be counted in a word. */
  lemma {:induction false} TrackerProvesStep(leafHeights: seq<nat>, upper: seq<nat>, height: nat)
    requires upper != [] && InRange(leafHeights, upper[1..] + [height], 1)
    requires Weight(leafHeights, 0) < UINT64 && leafHeights[|upper|] < UINT64
    ensures height + 1 < UINT64 && Accepts(leafHeights, upper, 0, height)
    ensures ProvesStep(leafHeights, upper, 0, height)
  {
    var heights := upper[1..] + [height];
    assert heights[|heights| - 1] == height;
    HeightsRoundTrip(leafHeights, heights, 1);
    StartsAtLeaf(leafHeights, upper, height);
    assert Weight(leafHeights, |upper|) == 1;
    assert LeafIndex(leafHeights, upper, height) == LeafIndex(leafHeights, upper, 0) + height;
    OneStepExact(leafHeights, upper, 0, height);
  }

  /** An accepted request from height 1: the proof is fetched for the opcode after the before state. */
  lemma {:induction false} OneStepFromOneIsOff()
    ensures Accepts([32, 8], [0], 1, 2)
    ensures ProofOpcode([32, 8], [0], 1, 2) == LeafOpcode([32, 8], [0], 1, 2) + 1
  {
    StartsAtLeaf([32, 8], [0], 1);
    assert Weight([32, 8], 1) == 1;
    assert [0][1..] + [0] == [0];
    assert IndexFrom([32, 8], [0], 1) == 0 by { assert [0][1..] == []; }
    assert LeafIndex([32, 8], [0], 1) == 1;
  }

  /** An accepted request from height 0 above the last level: the before state is 7 opcodes further on. */
  lemma {:induction false} OneStepAboveLastLevelIsOff()
    ensures Accepts([32, 8, 8], [0], 0, 1)
    ensures LeafOpcode([32, 8, 8], [0], 0, 1) == ProofOpcode([32, 8, 8], [0], 0, 1) + 7
  {
    StartsAtLeaf([32, 8, 8], [0], 0);
    assert Weight([32, 8, 8], 2) == 1;
    assert Weight([32, 8, 8], 1) == 8;
    assert [0][1..] + [0] == [0];
    assert IndexFrom([32, 8, 8], [0], 1) == 0 by { assert [0][1..] == []; }
    assert LeafIndex([32, 8, 8], [0], 0) == 0;
  }
}
