/** Prefix proofs: the prover's loop, the verifier's loop, and the exact set of proofs accepted. */
module PrefixProofs {
  import opened Bits
  import opened Merkle
  import opened Expansion
  import opened Levels
  import opened MerkleExpansions
  import opened Outcomes

  /** The roots of the subtrees that lead, from position pos on, through the nodes hs of a tree in
      which base nodes come before them. */
  function ProofFor(base: nat, hs: seq<Hash>, pos: nat): seq<Hash>
    decreases |hs| - pos
  {
    if pos >= |hs| then []
    else
      var n := Pow2(Level(base + pos, base + |hs|));
      [MerkleRoot(hs[pos..pos + n])] + ProofFor(base, hs, pos + n)
  }

  /** The proof depends only on the sizes and on the nodes still to come. */
  lemma {:induction false} ProofForShift(hs: seq<Hash>, base: nat, pos: nat, later: seq<Hash>)
    requires base + pos <= |hs| && later == hs[base..]
    ensures ProofFor(base, later, pos) == ProofFor(0, hs, base + pos)
    decreases |hs| - pos
  {
    hide MerkleRoot, Level, Pow2;
    if base + pos < |hs| {
      var n := Pow2(Level(base + pos, |hs|));
      ProofForUnfolds(base, later, pos, n);
      ProofForUnfolds(0, hs, base + pos, n);
      ProofForShift(hs, base, pos + n, later);
      assert later[pos..pos + n] == hs[base + pos..base + pos + n];
    }
  }

  lemma {:induction false} ProofForUnfolds(base: nat, hs: seq<Hash>, pos: nat, n: nat)
    requires pos < |hs| && n == Pow2(Level(base + pos, base + |hs|))
    ensures 0 < n && pos + n <= |hs|
    ensures ProofFor(base, hs, pos) == [MerkleRoot(hs[pos..pos + n])] + ProofFor(base, hs, pos + n)
  {
  }

  /** A proof has one root per greedy round, so its length is at most 2 msb(start xor end) + 1. */
  lemma {:induction false} ProofLength(base: nat, hs: seq<Hash>, pos: nat)
    requires pos <= |hs|
    ensures |ProofFor(base, hs, pos)| == Steps(base + pos, base + |hs|)
    ensures pos < |hs| ==>
              var diff := Xor(base + pos, base + |hs|); diff > 0 && |ProofFor(base, hs, pos)| <= 2 * Msb(diff) + 1
    decreases |hs| - pos
  {
    hide MerkleRoot, Level, Pow2, Xor, Msb;
    if pos < |hs| {
      var n := Pow2(Level(base + pos, base + |hs|));
      ProofForUnfolds(base, hs, pos, n);
      ProofLength(base, hs, pos + n);
      StepsBound(base + pos, base + |hs|);
    }
  }

  /** The number of leaves the prover's next subtree covers. */
  method NextSubtree(height: nat, postHeight: nat) returns (numLeaves: nat)
    requires height < postHeight
    ensures numLeaves == Pow2(Level(height, postHeight))
  {
    MaskedBits(height, postHeight);
    var firstDiffBit := Msb(Xor(height, postHeight));
    var mask := Pow2(firstDiffBit + 1) - 1;
    var yyy, zzz := And(height, mask), And(postHeight, mask);
    if yyy != 0 {
      numLeaves := Pow2(Lsb(yyy));
    } else {
      numLeaves := Pow2(Msb(zzz));
    }
  }

  method GeneratePrefixProof(prefixHeight: nat, prefixExpansion: seq<Hash>, leaves: seq<Hash>)
      returns (r: Result<seq<Hash>, Error>)
    requires prefixHeight < UINT64 && |leaves| < UINT64
    ensures prefixHeight == 0 || |leaves| == 0 ==> r == Err(CannotBeZero)
    ensures 0 < prefixHeight && 0 < |leaves| && prefixHeight + |leaves| >= UINT64 ==> r == Err(StartNotLessThanEnd)
    ensures 0 < prefixHeight && 0 < |leaves| && prefixHeight + |leaves| < UINT64 ==>
              r == Ok(NonZeros(prefixExpansion) + ProofFor(prefixHeight, LeafHashes(leaves), 0))
  {
    if prefixHeight == 0 {
      return Err(CannotBeZero);
    }
    if |leaves| == 0 {
      return Err(CannotBeZero);
    }
    var height := prefixHeight;
    var postHeight := (height + |leaves|) % UINT64;
    if prefixHeight >= postHeight {
      return Err(StartNotLessThanEnd);
    }
    assert postHeight == prefixHeight + |leaves|;
    var proof, _ := Compact(prefixExpansion);
    var roots := SubtreeRoots(height, postHeight, leaves);
    return Ok(proof + roots);
  }

  /** The state of the prover's loop: the roots emitted so far and the leaves still to cover. */
  ghost predicate Emitting(base: nat, leaves: seq<Hash>, pos: nat, rest: seq<Hash>, roots: seq<Hash>) {
    && pos <= |leaves| && rest == leaves[pos..]
    && roots + ProofFor(base, LeafHashes(leaves), pos) == ProofFor(base, LeafHashes(leaves), 0)
  }

  lemma {:induction false} EmittingStep(
      base: nat, leaves: seq<Hash>, pos: nat, rest: seq<Hash>, roots: seq<Hash>, n: nat)
    requires Emitting(base, leaves, pos, rest, roots) && pos < |leaves| && n == Pow2(Level(base + pos, base + |leaves|))
    ensures 0 < n <= |rest| && Emitting(base, leaves, pos + n, rest[n..], roots + [Commit(rest[..n])])
  {
    var hs := LeafHashes(leaves);
    var root, todo := Commit(rest[..n]), ProofFor(base, hs, pos + n);
    assert hs[pos..pos + n] == LeafHashes(rest[..n]);
    assert roots + ([root] + todo) == roots + [root] + todo;
  }

  /** The prover's loop. */
  method SubtreeRoots(prefixHeight: nat, postHeight: nat, leaves: seq<Hash>) returns (roots: seq<Hash>)
    requires 0 < prefixHeight < postHeight == prefixHeight + |leaves| < UINT64
    ensures roots == ProofFor(prefixHeight, LeafHashes(leaves), 0)
  {
    hide MerkleRoot, Level;
    roots := [];
    var height, rest := prefixHeight, leaves;
    while height < postHeight
      invariant prefixHeight <= height <= postHeight
      invariant Emitting(prefixHeight, leaves, height - prefixHeight, rest, roots)
    {
      var numLeaves := NextSubtree(height, postHeight);
      EmittingStep(prefixHeight, leaves, height - prefixHeight, rest, roots, numLeaves);
      var root := RootFetcherFromExpansion(rest, numLeaves);
      roots := roots + [root.value];
      rest := rest[numLeaves..];
      height := height + numLeaves;
    }
    assert roots + [] == roots;
  }

  datatype VerifyConfig = VerifyConfig(
    preRoot: Hash, preSize: nat, postRoot: Hash, postSize: nat, preExpansion: seq<Hash>, prefixProof: seq<Hash>)

  /** The verifier's loop: the expansion reached and the part of the proof not used. */
  function Replay(exp: seq<Hash>, size: nat, postSize: nat, proof: seq<Hash>):
      Result<(seq<Hash>, seq<Hash>), Error>
    decreases postSize - size
  {
    if size >= postSize then Ok((exp, proof))
    else
      var level := Level(size, postSize);
      if proof == [] then Err(IndexOutOfRange)
      else
        var next := Append(exp, level, proof[0]);
        if next.Err? then Err(next.error)
        else Replay(next.value, size + Pow2(level), postSize, proof[1..])
  }

  function Verify(cfg: VerifyConfig): Result<(), Error> {
    if cfg.preSize == 0 then Err(CannotBeZero)
    else
      var root := RootOf(cfg.preExpansion);
      if root.Err? then Err(root.error)
      else if root.value != cfg.preRoot then Err(RootMismatch)
      else if cfg.preSize != TreeSizeOf(cfg.preExpansion) then Err(TreeSizeIncorrect)
      else if cfg.preSize >= cfg.postSize then Err(StartNotLessThanEnd)
      else
        var run := Replay(cfg.preExpansion, cfg.preSize, cfg.postSize, cfg.prefixProof);
        if run.Err? then Err(run.error)
        else
          var gotRoot := RootOf(run.value.0);
          if gotRoot.Err? then Err(gotRoot.error)
          else if gotRoot.value != cfg.postRoot then Err(RootMismatch)
          else if run.value.1 != [] then Err(IncompleteProof)
          else Ok(())
  }

  method VerifyPrefixProof(cfg: VerifyConfig) returns (r: Result<(), Error>)
    ensures r == Verify(cfg)
  {
    hide Append, Level, MaximumAppendBetween, RootOf, TreeSizeOf;
    if cfg.preSize == 0 {
      return Err(CannotBeZero);
    }
    var root := Root(cfg.preExpansion);
    if root.Err? {
      return Err(root.error);
    }
    if root.value != cfg.preRoot {
      return Err(RootMismatch);
    }
    var preTreeSize := TreeSize(cfg.preExpansion);
    if cfg.preSize != preTreeSize {
      return Err(TreeSizeIncorrect);
    }
    if cfg.preSize >= cfg.postSize {
      return Err(StartNotLessThanEnd);
    }
    var exp, size, proofIndex := cfg.preExpansion, cfg.preSize, 0;
    ghost var run := Replay(exp, size, cfg.postSize, cfg.prefixProof);
    while size < cfg.postSize
      invariant proofIndex <= |cfg.prefixProof|
      invariant size <= cfg.postSize
      invariant Replay(exp, size, cfg.postSize, cfg.prefixProof[proofIndex..]) == run
      decreases cfg.postSize - size
    {
      MaximumAppendIsLevel(size, cfg.postSize);
      var level := MaximumAppendBetween(size, cfg.postSize).value;
      if proofIndex >= |cfg.prefixProof| {
        return Err(IndexOutOfRange);
      }
      assert cfg.prefixProof[proofIndex..][1..] == cfg.prefixProof[proofIndex + 1..];
      var next := AppendCompleteSubTree(exp, level, cfg.prefixProof[proofIndex]);
      if next.Err? {
        return Err(next.error);
      }
      exp := next.value;
      size := size + Pow2(level);
      if size > cfg.postSize {
        return Err(SizeNotLeqPostSize);
      }
      proofIndex := proofIndex + 1;
    }
    var gotRoot := Root(exp);
    if gotRoot.Err? {
      return Err(gotRoot.error);
    }
    if gotRoot.value != cfg.postRoot {
      return Err(RootMismatch);
    }
    if proofIndex != |cfg.prefixProof| {
      return Err(IncompleteProof);
    }
    return Ok(());
  }
}
