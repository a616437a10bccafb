/** The reference Merkle tree: hashes as free terms, the tree built layer by layer with zero padding
    on the right, and the collision freedom of its root. */
module Merkle {
  import opened Bits

  /** Keccak-256 as a free constructor: Hash32 hashes one word, Hash64 hashes two. Zero is the
      all-zero word, Word any other word that is not a hash. */
  datatype Hash = Zero | Word(n: nat) | Hash32(leaf: Hash) | Hash64(left: Hash, right: Hash)

  function LeafHashes(leaves: seq<Hash>): (hs: seq<Hash>)
    ensures |hs| == |leaves|
    ensures forall i :: 0 <= i < |hs| ==> hs[i] == Hash32(leaves[i])
  {
    seq(|leaves|, i requires 0 <= i < |leaves| => Hash32(leaves[i]))
  }

  ghost predicate NoZero(hs: seq<Hash>) {
    forall i :: 0 <= i < |hs| ==> hs[i] != Zero
  }

  /** One layer up. An unpaired last node is hashed with zero. */
  function NextLayer(hs: seq<Hash>): (r: seq<Hash>)
    ensures |r| == (|hs| + 1) / 2
    ensures NoZero(r)
  {
    seq((|hs| + 1) / 2, i requires 0 <= i < (|hs| + 1) / 2 =>
      Hash64(hs[2 * i], if 2 * i + 1 < |hs| then hs[2 * i + 1] else Zero))
  }

  /** The root of the zero-padded tree over the nodes hs. */
  function MerkleRoot(hs: seq<Hash>): Hash
    requires |hs| > 0
    decreases |hs|
  {
    if |hs| == 1 then hs[0] else MerkleRoot(NextLayer(hs))
  }

  /** The commitment to a list of leaves. */
  function Commit(leaves: seq<Hash>): Hash
    requires |leaves| > 0
  {
    MerkleRoot(LeafHashes(leaves))
  }

  /** Number of layers above the nodes of a tree of n nodes. */
  function Depth(n: nat): nat
    requires n > 0
  {
    if n == 1 then 0 else 1 + Depth((n + 1) / 2)
  }

  lemma {:induction false} NextLayerConcat(a: seq<Hash>, b: seq<Hash>)
    requires |a| % 2 == 0
    ensures NextLayer(a + b) == NextLayer(a) + NextLayer(b)
  {
    var l, r := NextLayer(a + b), NextLayer(a) + NextLayer(b);
    forall i | 0 <= i < |l|
      ensures l[i] == r[i]
    {
      if i >= |a| / 2 {
        assert r[i] == NextLayer(b)[i - |a| / 2];
      }
    }
  }

  lemma {:induction false} LastIsPadded(a: seq<Hash>)
    requires |a| > 0 && NoZero(a)
    ensures NextLayer(a)[(|a| - 1) / 2].right == Zero <==> |a| % 2 == 1
  {
    if |a| % 2 == 0 {
      assert NextLayer(a)[(|a| - 1) / 2].right == a[|a| - 1];
    }
  }

  lemma {:induction false} NextLayerInjective(a: seq<Hash>, b: seq<Hash>)
    requires NoZero(a) && NoZero(b)
    requires NextLayer(a) == NextLayer(b)
    ensures a == b
  {
    if |a| == 0 { return; }
    LastIsPadded(a);
    LastIsPadded(b);
    assert |a| == |b|;
    forall i | 0 <= i < |a|
      ensures a[i] == b[i]
    {
      var na, nb := NextLayer(a)[i / 2], NextLayer(b)[i / 2];
      if i % 2 == 0 {
        assert na.left == a[i] && nb.left == b[i];
      } else {
        assert na.right == a[i] && nb.right == b[i];
      }
    }
  }

  /** Every leaf of x lies exactly d steps below its root, and the only other subterms met are zeros
      standing to the right. */
  ghost predicate Uniform(x: Hash, d: nat) {
    if d == 0 then x.Hash32?
    else x.Hash64? && Uniform(x.left, d - 1) && (x.right == Zero || Uniform(x.right, d - 1))
  }

  ghost predicate AllUniform(hs: seq<Hash>, d: nat) {
    forall i :: 0 <= i < |hs| ==> Uniform(hs[i], d)
  }

  lemma {:induction false} UniformDepthUnique(x: Hash, d: nat, e: nat)
    requires Uniform(x, d) && Uniform(x, e)
    ensures d == e
  {
    if d > 0 && e > 0 {
      UniformDepthUnique(x.left, d - 1, e - 1);
    }
  }

  lemma {:induction false} MerkleRootUniform(hs: seq<Hash>, d: nat)
    requires |hs| > 0 && AllUniform(hs, d)
    ensures Uniform(MerkleRoot(hs), d + Depth(|hs|))
    decreases |hs|
  {
    if |hs| > 1 {
      MerkleRootUniform(NextLayer(hs), d + 1);
    }
  }

  /** The padded root determines the nodes below it once their depth is known. */
  lemma {:induction false} MerkleRootInjective(a: seq<Hash>, b: seq<Hash>, d: nat)
    requires |a| > 0 && |b| > 0
    requires AllUniform(a, d) && AllUniform(b, d)
    requires MerkleRoot(a) == MerkleRoot(b)
    ensures a == b
    decreases |a|
  {
    MerkleRootUniform(a, d);
    MerkleRootUniform(b, d);
    UniformDepthUnique(MerkleRoot(a), d + Depth(|a|), d + Depth(|b|));
    if |a| > 1 {
      MerkleRootInjective(NextLayer(a), NextLayer(b), d + 1);
      NextLayerInjective(a, b);
    }
  }

  /** Root is a collision-free commitment to the leaves, whatever their number. */
  lemma {:induction false} CommitInjective(a: seq<Hash>, b: seq<Hash>)
    requires |a| > 0 && |b| > 0
    ensures Commit(a) == Commit(b) <==> a == b
  {
    if Commit(a) == Commit(b) {
      MerkleRootInjective(LeafHashes(a), LeafHashes(b), 0);
      forall i | 0 <= i < |a|
        ensures a[i] == b[i]
      {
        assert LeafHashes(a)[i] == LeafHashes(b)[i];
      }
    }
  }

  /** The root over leaf hashes is never some node padded with zero. */
  lemma {:induction false} MerkleRootNotPadded(hs: seq<Hash>)
    requires |hs| > 1 && NoZero(hs)
    ensures MerkleRoot(hs).Hash64? && MerkleRoot(hs).right != Zero
    decreases |hs|
  {
    if |hs| == 2 {
      assert MerkleRoot(hs) == MerkleRoot(NextLayer(hs)) == NextLayer(hs)[0];
    } else {
      MerkleRootNotPadded(NextLayer(hs));
    }
  }

  /** The depth as the inclusion-proof code computes it: from the most significant bit of n - 1. */
  lemma {:induction false} DepthFromPredecessor(n: nat)
    requires n > 1
    ensures Depth(n) == Msb(n - 1) + 1
  {
    if n > 2 {
      DepthFromPredecessor((n + 1) / 2);
      assert (n - 1) / 2 == (n + 1) / 2 - 1;
    }
  }

  /** The depth as the tree builder computes it: the most significant bit of n, plus one unless n is
      a power of two. */
  lemma {:induction false} DepthFromBits(n: nat)
    requires n > 0
    ensures Depth(n) == if Msb(n) == Lsb(n) then Msb(n) else Msb(n) + 1
  {
    if n > 1 {
      if n % 2 == 0 {
        DepthFromBits(n / 2);
      } else {
        DepthFromPredecessor(n);
        assert (n - 1) / 2 == n / 2;
      }
    }
  }
}
