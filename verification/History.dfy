/** History commitments, and the prefix proofs a state provider hands out over them. */
module History {
  import opened Bits
  import opened Merkle
  import opened Expansion
  import opened MerkleExpansions
  import opened InclusionProofs
  import opened PrefixProofs
  import opened PrefixTheorems
  import opened Outcomes
  import Bisection

  datatype History = History(
    height: nat, merkle: Hash, firstLeaf: Hash, lastLeafProof: seq<Hash>, firstLeafProof: seq<Hash>, lastLeaf: Hash)

  /** A commitment whose two leaf proofs lead to its own root. */
  ghost predicate SelfConsistent(h: History) {
    && Climb(h.firstLeafProof, 0, Hash32(h.firstLeaf)) == h.merkle
    && Climb(h.lastLeafProof, h.height, Hash32(h.lastLeaf)) == h.merkle
  }

  method New(leaves: seq<Hash>, gomaxprocs: nat) returns (r: Result<History, Error>)
    requires gomaxprocs > 0
    ensures |leaves| == 0 ==> r == Err(NoLeaves)
    ensures |leaves| >= UINT64 ==> r.Err?
    ensures 0 < |leaves| < UINT64 ==>
              && r.Ok? && r.value.height == |leaves| - 1
              && r.value.merkle == Commit(leaves)
              && r.value.firstLeaf == leaves[0] && r.value.lastLeaf == leaves[|leaves| - 1]
              && SelfConsistent(r.value)
  {
    if |leaves| == 0 {
      return Err(NoLeaves);
    }
    var firstLeafProof := GenerateInclusionProof(leaves, 0, gomaxprocs);
    var lastLeafProof := GenerateInclusionProof(leaves, |leaves| - 1, gomaxprocs);
    var exp := ExpansionFromLeaves(leaves);
    if exp.Err? {
      return Err(exp.error);
    }
    ghost var hs := LeafHashes(leaves);
    ExpFits(hs);
    RootMeaning(hs);
    var root := Root(exp.value);
    PathReachesRoot(hs, 0);
    PathReachesRoot(hs, |leaves| - 1);
    return Ok(History(|leaves| - 1, root.value, leaves[0], lastLeafProof.value, firstLeafProof.value,
      leaves[|leaves| - 1]));
  }

  datatype PrefixError = InvalidRange | HighOutOfBounds | LowAboveHigh | Commitment(error: Error) | LocalCheckFailed

  /** How many leaves a request covers. */
  function RequestedLeaves(available: nat, fromHeight: nat, upTo: Option<nat>): int {
    if upTo.None? then available else upTo.value - fromHeight + 1
  }

  /** The expansion of the first low leaves and the proof that they are a prefix of the first high. */
  function Checked(leaves: seq<Hash>, low: nat, high: nat): (seq<Hash>, seq<Hash>)
    requires 0 < low < high <= |leaves|
  {
    (ExpOf(LeafHashes(leaves[..low])), ProofFor(0, LeafHashes(leaves[..high]), low))
  }

  lemma {:induction false} CheckedOfSlice(leaves: seq<Hash>, low: nat, high: nat)
    requires 0 < low < high <= |leaves|
    ensures Checked(leaves[..high], low, high) == Checked(leaves, low, high)
  {
    assert leaves[..high][..low] == leaves[..low];
    assert leaves[..high][..high] == leaves[..high];
  }

  /** The checks on a request: how many leaves the low and the high commitment have. */
  method RequestRange(available: nat, fromHeight: nat, upTo: Option<nat>, prefixHeight: nat)
      returns (r: Result<(nat, nat), PrefixError>)
    requires available < UINT64 / 2
    requires fromHeight < UINT64 && prefixHeight < UINT64 && (upTo.Some? ==> upTo.value < UINT64)
    ensures r.Ok? ==> r.value.0 <= r.value.1 <= available
    ensures r.Err? ==> !r.error.LocalCheckFailed?
    ensures var low, high := prefixHeight + 1, RequestedLeaves(available, fromHeight, upTo);
            if low < high <= available then r == Ok((low, high))
            else r.Ok? ==> r.value.0 == 0 || r.value.0 == r.value.1
    ensures prefixHeight + 1 < UINT64 && RequestedLeaves(available, fromHeight, upTo) < UINT64 ==>
              var low, high := prefixHeight + 1, RequestedLeaves(available, fromHeight, upTo);
              if upTo.Some? && upTo.value < fromHeight then r == Err(InvalidRange)
              else if high > available then r == Err(HighOutOfBounds)
              else if low > high then r == Err(LowAboveHigh)
              else r == Ok((low, high))
  {
    var low := (prefixHeight + 1) % UINT64;
    var high := available;
    if upTo.Some? {
      if upTo.value < fromHeight {
        return Err(InvalidRange);
      }
      high := (upTo.value - fromHeight + 1) % UINT64;
    }
    if high > available {
      return Err(HighOutOfBounds);
    }
    if low > high {
      return Err(LowAboveHigh);
    }
    return Ok((low, high));
  }

  /** PrefixProof over the leaves of a request from fromHeight up to upTo: the prefix expansion and
      the proof proper, checked locally before they are returned. The check never fails. */
  method PrefixProof(leaves: seq<Hash>, fromHeight: nat, upTo: Option<nat>, prefixHeight: nat, gomaxprocs: nat)
      returns (r: Result<(seq<Hash>, seq<Hash>), PrefixError>)
    requires gomaxprocs > 0
    requires |leaves| < UINT64 / 2
    requires fromHeight < UINT64 && prefixHeight < UINT64 && (upTo.Some? ==> upTo.value < UINT64)
    ensures var low, high := prefixHeight + 1, RequestedLeaves(|leaves|, fromHeight, upTo);
            if low < high <= |leaves| then r == Ok(Checked(leaves, low, high))
            else r.Err? && !r.error.LocalCheckFailed?
    ensures prefixHeight + 1 < UINT64 && RequestedLeaves(|leaves|, fromHeight, upTo) < UINT64 ==>
              var low, high := prefixHeight + 1, RequestedLeaves(|leaves|, fromHeight, upTo);
              if upTo.Some? && upTo.value < fromHeight then r == Err(InvalidRange)
              else if high > |leaves| then r == Err(HighOutOfBounds)
              else if low > high then r == Err(LowAboveHigh)
              else if low == high then r == Err(Commitment(CannotBeZero))
              else r.Ok?
  {
    var range := RequestRange(|leaves|, fromHeight, upTo, prefixHeight);
    if range.Err? {
      return Err(range.error);
    }
    var (low, high) := range.value;
    r := CheckedPrefixProof(leaves[..high], low, gomaxprocs);
    if 0 < low < high {
      CheckedOfSlice(leaves, low, high);
    }
  }

  /** Generates the proof that the first low leaves are a prefix, and verifies it. */
  method CheckedPrefixProof(leaves: seq<Hash>, low: nat, gomaxprocs: nat)
      returns (r: Result<(seq<Hash>, seq<Hash>), PrefixError>)
    requires gomaxprocs > 0 && low <= |leaves| < UINT64 / 2
    ensures if 0 < low < |leaves| then r == Ok(Checked(leaves, low, |leaves|))
            else r == Err(Commitment(CannotBeZero))
  {
    hide Commit, ExpOf, ProofFor, NonZeros, Verify;
    var prefixExpansion := ExpansionFromLeaves(leaves[..low]);
    var prefixProof := GeneratePrefixProof(low, prefixExpansion.value, leaves[low..]);
    if prefixProof.Err? {
      return Err(Commitment(prefixProof.error));
    }
    var bigCommit := New(leaves, gomaxprocs);
    var prefixCommit := New(leaves[..low], gomaxprocs);
    ProofForShift(LeafHashes(leaves), low, 0, LeafHashes(leaves)[low..]);
    HashSlices(leaves, low);
    assert leaves[..|leaves|] == leaves;
    var onlyProof := SplitProof(leaves[..low], prefixProof.value, ProofFor(0, LeafHashes(leaves), low));
    Completeness(leaves, low);
    var verified := VerifyPrefixProof(VerifyConfig(
      prefixCommit.value.merkle, low, bigCommit.value.merkle, |leaves|, prefixExpansion.value, onlyProof));
    if verified.Err? {
      return Err(LocalCheckFailed);
    }
    return Ok((prefixExpansion.value, onlyProof));
  }

  /** Drops the compact expansion in front of a generated proof. */
  method SplitProof(prefix: seq<Hash>, compactAndProof: seq<Hash>, ghost proof: seq<Hash>)
      returns (onlyProof: seq<Hash>)
    requires |prefix| < UINT64 / 2
    requires compactAndProof == NonZeros(ExpOf(LeafHashes(prefix))) + proof
    ensures onlyProof == proof
  {
    CompactRoundTripOfLeaves(prefix, proof);
    var _, numRead := MerkleExpansionFromCompact(compactAndProof, |prefix|);
    onlyProof := compactAndProof[numRead..];
  }

  /** The tracker's bisection move over the leaves up to the edge's end: the commitment at the bisection
      point and its prefix proof. Every edge of length two or more gets one that the verifier accepts. */
  method DetermineBisectionHistoryWithProof(leaves: seq<Hash>, startHeight: nat, endHeight: nat, gomaxprocs: nat)
      returns (r: Result<(History, (seq<Hash>, seq<Hash>)), PrefixError>)
    requires gomaxprocs > 0 && |leaves| == endHeight + 1 < UINT64 / 2 && startHeight <= endHeight
    ensures startHeight + 2 > endHeight ==> r == Err(InvalidRange)
    ensures startHeight + 2 <= endHeight ==>
              var mid := Bisection.Mid(startHeight, endHeight);
              && r.Ok? && r.value.0.height == mid && r.value.0.merkle == Commit(leaves[..mid + 1])
              && r.value.1 == Checked(leaves, mid + 1, endHeight + 1)
              && Verify(VerifyConfig(r.value.0.merkle, mid + 1, Commit(leaves), endHeight + 1,
                                     r.value.1.0, r.value.1.1)) == Ok(())
  {
    hide Commit, Checked, Verify, Xor, And, Msb, Pow2, Bisection.Roundest;
    var bisectTo := Bisection.Bisect(startHeight, endHeight);
    if startHeight + 2 <= endHeight {
      Bisection.BisectIsMid(startHeight, endHeight);
    }
    if !bisectTo.Point? {
      return Err(InvalidRange);
    }
    var mid := bisectTo.height;
    var historyCommit := New(leaves[..mid + 1], gomaxprocs);
    var proof := PrefixProof(leaves, 0, Some(endHeight), mid, gomaxprocs);
    BisectionVerifies(leaves, mid);
    return Ok((historyCommit.value, proof.value));
  }

  lemma {:induction false} BisectionVerifies(leaves: seq<Hash>, mid: nat)
    requires mid + 1 < |leaves| < UINT64
    ensures var checked := Checked(leaves, mid + 1, |leaves|);
            Verify(VerifyConfig(Commit(leaves[..mid + 1]), mid + 1, Commit(leaves), |leaves|,
                                checked.0, checked.1)) == Ok(())
  {
    assert leaves[..|leaves|] == leaves;
    Completeness(leaves, mid + 1);
  }
}
