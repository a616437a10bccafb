/** Inclusion proofs over the layered tree, and the exact set of proofs that reach a commitment. */
module InclusionProofs {
  import opened Bits
  import opened Merkle
  import opened Expansion
  import opened Levels
  import opened Outcomes

  // ----- the full tree -----

  function LayersOf(hs: seq<Hash>): (r: seq<seq<Hash>>)
    requires |hs| > 0
    ensures |r| == Depth(|hs|) + 1 && r[0] == hs
    decreases |hs|
  {
    if |hs| == 1 then [hs] else [hs] + LayersOf(NextLayer(hs))
  }

  /** Each layer is built from the one below it; only the last has a single node. */
  lemma {:induction false} LayerAbove(hs: seq<Hash>, k: nat)
    requires |hs| > 0 && k <= Depth(|hs|)
    ensures var r := LayersOf(hs);
            && (k == Depth(|hs|) <==> |r[k]| == 1) && |r[k]| > 0
            && (k < Depth(|hs|) ==> r[k + 1] == NextLayer(r[k]))
    decreases |hs|
  {
    if |hs| > 1 && k > 0 {
      LayerAbove(NextLayer(hs), k - 1);
    }
  }

  method BuildLayer(prevLayer: seq<Hash>) returns (r: seq<Hash>)
    ensures r == NextLayer(prevLayer)
  {
    var nextLayer := new Hash[(|prevLayer| + 1) / 2];
    for i := 0 to nextLayer.Length
      invariant forall j :: 0 <= j < i ==> nextLayer[j] == NextLayer(prevLayer)[j]
    {
      if 2 * i + 1 < |prevLayer| {
        nextLayer[i] := Hash64(prevLayer[2 * i], prevLayer[2 * i + 1]);
      } else {
        nextLayer[i] := Hash64(prevLayer[2 * i], Zero);
      }
    }
    return nextLayer[..];
  }

  /** The layers are allocated before they are built; their number is exact. */
  method FullTree(leaves: seq<Hash>) returns (r: Result<seq<seq<Hash>>, Error>)
    ensures r == if |leaves| == 0 then Err(CannotBeZero) else Ok(LayersOf(leaves))
  {
    hide Msb, Lsb, NextLayer, LayersOf;
    var msb := MostSignificantBit(|leaves|);
    if msb.Err? {
      return Err(msb.error);
    }
    var lsb := LeastSignificantBit(|leaves|);
    var maxLevel := msb.value + 1;
    if msb.value == lsb.value {
      maxLevel := msb.value;
    }
    DepthFromBits(|leaves|);
    var layers := new seq<Hash>[maxLevel + 1](_ => []);
    layers[0] := leaves;
    var l, prevLayer := 1, leaves;
    ghost var target := LayersOf(leaves);
    LayerAbove(leaves, 0);
    while |prevLayer| > 1
      invariant 1 <= l <= layers.Length && prevLayer == target[l - 1]
      invariant |prevLayer| > 0 && (l == layers.Length <==> |prevLayer| == 1)
      invariant forall j :: 0 <= j < l ==> layers[j] == target[j]
      decreases layers.Length - l
    {
      LayerAbove(leaves, l - 1);
      LayerAbove(leaves, l);
      var nextLayer := BuildLayer(prevLayer);
      layers[l] := nextLayer;
      prevLayer := nextLayer;
      l := l + 1;
    }
    assert layers[..] == target;
    return Ok(layers[..]);
  }

  // ----- hashing the leaves in batches -----

  /** Batch i of procs batches over n leaves: the last one also takes the remainder. */
  function BatchStart(n: nat, procs: nat, i: nat): nat
    requires procs > 0
  {
    i * (n / procs)
  }

  function BatchEnd(n: nat, procs: nat, i: nat): nat
    requires 0 <= i < procs
  {
    BatchStart(n, procs, i) + n / procs + (if i == procs - 1 then n % procs else 0)
  }

  /** The batches are consecutive and end with the last leaf, so every leaf is in exactly one. */
  lemma {:induction false} BatchesTile(n: nat, procs: nat, i: nat)
    requires i < procs
    ensures BatchStart(n, procs, 0) == 0
    ensures BatchEnd(n, procs, i) == if i == procs - 1 then n else BatchStart(n, procs, i + 1)
    ensures BatchEnd(n, procs, i) <= n
  {
    var b := n / procs;
    assert n == procs * b + n % procs;
    assert (i + 1) * b == i * b + b;
    if i < procs - 1 {
      MulMonotone(i + 1, procs, b);
    }
  }

  method Rehash(leaves: seq<Hash>, gomaxprocs: nat) returns (r: seq<Hash>)
    requires gomaxprocs > 0
    ensures r == LeafHashes(leaves)
  {
    var n := |leaves|;
    var rehashed := new Hash[n];
    for i := 0 to gomaxprocs
      invariant BatchStart(n, gomaxprocs, i) <= n
      invariant forall k :: 0 <= k < (if i == gomaxprocs then n else BatchStart(n, gomaxprocs, i)) ==>
                  rehashed[k] == Hash32(leaves[k])
    {
      BatchesTile(n, gomaxprocs, i);
      var start := BatchStart(n, gomaxprocs, i);
      var end := BatchEnd(n, gomaxprocs, i);
      for j := start to end
        invariant forall k :: 0 <= k < j ==> rehashed[k] == Hash32(leaves[k])
      {
        rehashed[j] := Hash32(leaves[j]);
      }
      if i == gomaxprocs - 1 {
        assert BatchStart(n, gomaxprocs, i + 1) <= n;
      }
    }
    r := rehashed[..];
    assert r == LeafHashes(leaves);
  }

  // ----- proofs -----

  function Sibling(hs: seq<Hash>, idx: nat): Hash {
    var counterpart := if idx % 2 == 0 then idx + 1 else idx - 1;
    if counterpart < |hs| then hs[counterpart] else Zero
  }

  /** The siblings on the way from node idx to the root. */
  function PathOf(hs: seq<Hash>, idx: nat): (r: seq<Hash>)
    requires |hs| > 0
    ensures |r| == Depth(|hs|)
    decreases |hs|
  {
    if |hs| == 1 then [] else [Sibling(hs, idx)] + PathOf(NextLayer(hs), idx / 2)
  }

  method GenerateInclusionProof(leaves: seq<Hash>, idx: nat, gomaxprocs: nat)
      returns (r: Result<seq<Hash>, Error>)
    requires gomaxprocs > 0
    ensures r == if idx >= |leaves| then Err(InvalidLeaves) else Ok(PathOf(LeafHashes(leaves), idx))
  {
    if |leaves| == 0 {
      return Err(InvalidLeaves);
    }
    if idx >= |leaves| {
      return Err(InvalidLeaves);
    }
    if |leaves| == 1 {
      return Ok([]);
    }
    var rehashed := Rehash(leaves, gomaxprocs);
    var fullT := FullTree(rehashed);
    var maxLevel := Msb(|rehashed| - 1);
    DepthFromPredecessor(|rehashed|);
    var proof := FillProof(fullT.value, rehashed, idx, maxLevel);
    return Ok(proof);
  }

  /** The loop that picks one sibling per layer. */
  method FillProof(fullT: seq<seq<Hash>>, ghost hs: seq<Hash>, idx: nat, maxLevel: nat) returns (r: seq<Hash>)
    requires |hs| > 1 && fullT == LayersOf(hs) && maxLevel + 1 == Depth(|hs|)
    ensures r == PathOf(hs, idx)
  {
    hide Xor, Shr, LayersOf, PathOf, Depth;
    var proof := new Hash[maxLevel + 1];
    ghost var target := PathOf(hs, idx);
    for level := 0 to maxLevel + 1
      invariant forall j :: 0 <= j < level ==> proof[j] == target[j]
    {
      var levelIndex := Shr(idx, level);
      XorOne(levelIndex);
      var counterpartIndex := Xor(levelIndex, 1);
      PathAt(hs, idx, level);
      var layer := fullT[level];
      var counterpart := Zero;
      if counterpartIndex <= |layer| - 1 {
        counterpart := layer[counterpartIndex];
      }
      proof[level] := counterpart;
    }
    r := proof[..];
    assert r == target;
  }

  /** A path's entry for a layer is the sibling, in that layer, of the node above the leaf. */
  lemma {:induction false} PathAt(hs: seq<Hash>, idx: nat, k: nat)
    requires |hs| > 0 && k < Depth(|hs|)
    ensures PathOf(hs, idx)[k] == Sibling(LayersOf(hs)[k], Shr(idx, k))
    decreases |hs|
  {
    if k > 0 {
      PathAt(NextLayer(hs), idx / 2, k - 1);
    }
  }

  /** Hashing upwards along a proof. */
  function Climb(proof: seq<Hash>, index: nat, h: Hash): Hash
    decreases |proof|
  {
    if proof == [] then h
    else Climb(proof[1..], index / 2, if index % 2 == 0 then Hash64(h, proof[0]) else Hash64(proof[0], h))
  }

  method CalculateRootFromProof(proof: seq<Hash>, index: nat, leaf: Hash) returns (r: Result<Hash, Error>)
    ensures r == if |proof| > 256 then Err(ProofTooLong) else Ok(Climb(proof, index, Hash32(leaf)))
  {
    if |proof| > 256 {
      return Err(ProofTooLong);
    }
    var h := Hash32(leaf);
    for i := 0 to |proof|
      invariant Climb(proof[i..], Shr(index, i), h) == Climb(proof, index, Hash32(leaf))
    {
      var node := proof[i];
      AndBit(i, index);
      ShrStep(index, i);
      assert proof[i..][1..] == proof[i + 1..];
      if And(Pow2(i), index) == 0 {
        h := Hash64(h, node);
      } else {
        h := Hash64(node, h);
      }
    }
    return Ok(h);
  }

  // ----- completeness and soundness -----

  /** The proof generated for a node leads to the root of the padded tree. */
  lemma {:induction false} PathReachesRoot(hs: seq<Hash>, idx: nat)
    requires idx < |hs|
    ensures Climb(PathOf(hs, idx), idx, hs[idx]) == MerkleRoot(hs)
    decreases |hs|
  {
    if |hs| > 1 {
      PathReachesRoot(NextLayer(hs), idx / 2);
      assert PathOf(hs, idx)[1..] == PathOf(NextLayer(hs), idx / 2);
    }
  }

  lemma {:induction false} ClimbLast(proof: seq<Hash>, index: nat, h: Hash)
    requires proof != []
    ensures var n := |proof| - 1; var below := Climb(proof[..n], index, h);
            Climb(proof, index, h)
            == if Shr(index, n) % 2 == 0 then Hash64(below, proof[n]) else Hash64(proof[n], below)
    decreases |proof|
  {
    if |proof| > 1 {
      ClimbLast(proof[1..], index / 2, if index % 2 == 0 then Hash64(h, proof[0]) else Hash64(proof[0], h));
      assert proof[..|proof| - 1][1..] == proof[1..][..|proof| - 2];
    }
  }

  lemma {:induction false} ClimbNonZero(proof: seq<Hash>, index: nat, h: Hash)
    requires h != Zero
    ensures Climb(proof, index, h) != Zero
    decreases |proof|
  {
    if proof != [] {
      ClimbNonZero(proof[1..], index / 2, if index % 2 == 0 then Hash64(h, proof[0]) else Hash64(proof[0], h));
    }
  }

  /** A proof that reaches a uniform root is exactly as long as the root is deep. */
  lemma {:induction false} ClimbDepth(proof: seq<Hash>, index: nat, leaf: Hash, d: nat)
    requires Uniform(Climb(proof, index, Hash32(leaf)), d)
    ensures |proof| == d
    decreases |proof|
  {
    if proof != [] {
      var n := |proof| - 1;
      ClimbLast(proof, index, Hash32(leaf));
      ClimbNonZero(proof[..n], index, Hash32(leaf));
      ClimbDepth(proof[..n], index, leaf, d - 1);
    }
  }

  /** The low k bits of a word. */
  function Low(x: nat, k: nat): nat {
    if k == 0 then 0 else x % 2 + 2 * Low(x / 2, k - 1)
  }

  lemma {:induction false} LowIsMod(x: nat, k: nat)
    ensures Low(x, k) == x % Pow2(k)
  {
    if k > 0 {
      LowIsMod(x / 2, k - 1);
      ModDouble(x, Pow2(k - 1));
    }
  }

  /** With the right length, only the generated proof of the right node leads to the root. */
  lemma {:induction false} ClimbBinds(hs: seq<Hash>, proof: seq<Hash>, index: nat, h: Hash)
    requires |hs| > 0 && h != Zero
    requires |proof| == Depth(|hs|) && Climb(proof, index, h) == MerkleRoot(hs)
    ensures var i := Low(index, |proof|); i < |hs| && h == hs[i] && proof == PathOf(hs, i)
    decreases |hs|
  {
    hide PathOf, NextLayer;
    if |hs| == 1 {
      PathOfOne(hs, 0);
    } else {
      var up := if index % 2 == 0 then Hash64(h, proof[0]) else Hash64(proof[0], h);
      assert |proof[1..]| == Depth(|NextLayer(hs)|);
      ClimbBinds(NextLayer(hs), proof[1..], index / 2, up);
      assert Low(index, |proof|) == index % 2 + 2 * Low(index / 2, |proof| - 1);
      PathStep(hs, proof, index, h, Low(index / 2, |proof| - 1));
    }
  }

  lemma {:induction false} PathOfOne(hs: seq<Hash>, idx: nat)
    requires |hs| == 1
    ensures PathOf(hs, idx) == []
  {
  }

  lemma {:induction false} PathStep(hs: seq<Hash>, proof: seq<Hash>, index: nat, h: Hash, j: nat)
    requires |hs| > 1 && h != Zero && proof != [] && j < |NextLayer(hs)|
    requires NextLayer(hs)[j] == if index % 2 == 0 then Hash64(h, proof[0]) else Hash64(proof[0], h)
    requires proof[1..] == PathOf(NextLayer(hs), j)
    ensures var i := index % 2 + 2 * j; i < |hs| && h == hs[i] && proof == PathOf(hs, i)
  {
    assert proof == [proof[0]] + proof[1..];
  }

  /** A leaf's proof reaches the commitment exactly when it is the proof generated for a position
      holding that leaf. Index bits above the depth are not looked at. */
  lemma {:induction false} InclusionExact(leaves: seq<Hash>, proof: seq<Hash>, index: nat, leaf: Hash)
    requires |leaves| > 0
    ensures Climb(proof, index, Hash32(leaf)) == Commit(leaves)
       <==> var i := index % Pow2(Depth(|leaves|));
            i < |leaves| && leaf == leaves[i] && proof == PathOf(LeafHashes(leaves), i)
  {
    var hs, d := LeafHashes(leaves), Depth(|leaves|);
    LowIsMod(index, d);
    var i := Low(index, d);
    MerkleRootUniform(hs, 0);
    if Climb(proof, index, Hash32(leaf)) == Commit(leaves) {
      ClimbDepth(proof, index, leaf, d);
      ClimbBinds(hs, proof, index, Hash32(leaf));
    }
    if i < |leaves| && leaf == leaves[i] && proof == PathOf(hs, i) {
      PathReachesRoot(hs, i);
      ClimbLowBits(proof, index, Hash32(leaf));
    }
  }

  lemma {:induction false} ClimbLowBits(proof: seq<Hash>, index: nat, h: Hash)
    ensures Climb(proof, index, h) == Climb(proof, Low(index, |proof|), h)
    decreases |proof|
  {
    if proof != [] {
      var low := Low(index, |proof|);
      LowStep(index, |proof|);
      ClimbLowBits(proof[1..], index / 2, if index % 2 == 0 then Hash64(h, proof[0]) else Hash64(proof[0], h));
      assert |proof[1..]| == |proof| - 1;
    }
  }

  lemma {:induction false} LowStep(x: nat, k: nat)
    requires k > 0
    ensures Low(x, k) % 2 == x % 2 && Low(x, k) / 2 == Low(x / 2, k - 1)
  {
    BitBehind(Low(x / 2, k - 1), x % 2);
  }
}
