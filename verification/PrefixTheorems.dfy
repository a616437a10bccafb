/** Which prefix proofs the verifier accepts: completeness, soundness and the exact condition. */
module PrefixTheorems {
  import opened Bits
  import opened Merkle
  import opened Expansion
  import opened Levels
  import opened MerkleExpansions
  import opened PrefixProofs
  import opened Outcomes

  /** The length of an append's result depends only on the shape of its argument. */
  lemma {:induction false} CarryLength(a: seq<Hash>, x: Hash, b: seq<Hash>, y: Hash)
    requires |a| == |b| && TreeSizeOf(a) == TreeSizeOf(b)
    ensures |Carry(a, x)| == |Carry(b, y)|
    decreases |a|
  {
    if a != [] {
      CarryLength(a[1..], Hash64(a[0], x), b[1..], Hash64(b[0], y));
    }
  }

  lemma {:induction false} AppendLength(a: seq<Hash>, x: Hash, b: seq<Hash>, y: Hash, level: nat)
    requires |a| == |b| && TreeSizeOf(a) == TreeSizeOf(b)
    ensures |Appended(a, level, x)| == |Appended(b, level, y)|
    decreases level
  {
    if level == 0 {
      CarryLength(a, x, b, y);
    } else {
      AppendLength(Tail(a), x, Tail(b), y, level - 1);
    }
  }

  /** The expansion of the first size nodes, with zeros on top up to some length. */
  ghost function Padded(hs: seq<Hash>, size: nat, length: nat): seq<Hash>
    requires size <= |hs|
  {
    PadTo(ExpOf(hs[..size]), length)
  }

  lemma {:induction false} PaddedSize(hs: seq<Hash>, size: nat, length: nat)
    requires NoZero(hs) && size <= |hs|
    ensures TreeSizeOf(Padded(hs, size, length)) == size
  {
    SizeMeaning(hs[..size]);
    PadSize(ExpOf(hs[..size]), length);
  }

  /** An expansion of some size is at least as long as the list's expansion of that size. */
  lemma {:induction false} LongEnough(me: seq<Hash>, hs: seq<Hash>, size: nat)
    requires NoZero(hs) && size <= |hs| && TreeSizeOf(me) == size
    ensures |Padded(hs, size, |me|)| == |me|
  {
    StripSpec(me);
    PadSize(Strip(me), |me|);
    SizeMeaning(hs[..size]);
    ExpOfCanonical(hs[..size]);
    CanonicalLength(Strip(me), ExpOf(hs[..size]));
  }

  /** One round on a list: appending the next subtree's root to the padded expansion. */
  lemma {:induction false} PaddedStep(hs: seq<Hash>, size: nat, length: nat)
    requires NoZero(hs) && size < |hs|
    ensures var k := Level(size, |hs|); var n := Pow2(k);
            && EmptyBelow(Padded(hs, size, length), k)
            && MerkleRoot(hs[size..size + n]) != Zero
            && Appended(Padded(hs, size, length), k, MerkleRoot(hs[size..size + n])) == Padded(hs, size + n, length)
  {
    hide ExpOf, MerkleRoot, Level, Pow2, Aligned, EmptyBelow, Appended, TreeSizeOf;
    var k := Level(size, |hs|);
    var ys := hs[size..size + Pow2(k)];
    PaddedSize(hs, size, length);
    EmptyBelowIffAligned(Padded(hs, size, length), k);
    RootNonZero(ys);
    AppendMeaning(hs[..size], ys, k);
    assert hs[..size] + ys == hs[..size + Pow2(k)];
    AppendPadded(ExpOf(hs[..size]), k, MerkleRoot(ys), length);
  }

  lemma {:induction false} RootNonZero(hs: seq<Hash>)
    requires |hs| > 0 && NoZero(hs)
    ensures MerkleRoot(hs) != Zero
    decreases |hs|
  {
    if |hs| > 1 {
      RootNonZero(NextLayer(hs));
    }
  }

  lemma {:induction false} ExpOfFits(hs: seq<Hash>, size: nat, length: nat)
    requires size <= |hs| < UINT64 && length <= MAX_LEVEL
    ensures |Padded(hs, size, length)| <= MAX_LEVEL
  {
    ExpFits(hs[..size]);
  }

  /** Level is below the length of any expansion of the starting size. */
  lemma {:induction false} LevelFitsExpansion(me: seq<Hash>, e: nat)
    requires 0 < TreeSizeOf(me) < e
    ensures Level(TreeSizeOf(me), e) < |me|
  {
    var s := TreeSizeOf(me);
    var k := Level(s, e);
    SizeBound(me);
    AlignedAtLeast(s, k);
    if |me| <= k {
      Pow2Monotone(|me|, k);
    }
  }

  lemma {:induction false} AlignedAtLeast(x: nat, k: nat)
    requires Aligned(x, k) && x > 0
    ensures x >= Pow2(k)
  {
    if k > 0 {
      AlignedAtLeast(x / 2, k - 1);
    }
  }

  lemma {:induction false} ReplayStep(
      exp: seq<Hash>, size: nat, postSize: nat, sub: Hash, rest: seq<Hash>, next: seq<Hash>)
    requires size < postSize && Append(exp, Level(size, postSize), sub) == Ok(next)
    ensures Replay(exp, size, postSize, [sub] + rest)
         == Replay(next, size + Pow2(Level(size, postSize)), postSize, rest)
  {
    assert ([sub] + rest)[1..] == rest;
  }

  lemma {:induction false} AppendAccepted(hs: seq<Hash>, size: nat, length: nat, n: nat)
    requires NoZero(hs) && 0 < size < |hs| < UINT64 && length <= MAX_LEVEL && n == Pow2(Level(size, |hs|))
    ensures Append(Padded(hs, size, length), Level(size, |hs|), MerkleRoot(hs[size..size + n]))
         == Ok(Padded(hs, size + n, length))
  {
    LevelBelow64(size, |hs|);
    PaddedStep(hs, size, length);
    PaddedSize(hs, size, length);
    LevelFitsExpansion(Padded(hs, size, length), |hs|);
    ExpOfFits(hs, size, length);
    ExpOfFits(hs, size + n, length);
  }

  /** Replaying the generated proof ends in the expansion of the whole list. */
  lemma {:induction false} ReplayForward(hs: seq<Hash>, size: nat, length: nat)
    requires NoZero(hs) && 0 < size <= |hs| < UINT64 && length <= MAX_LEVEL
    ensures Replay(Padded(hs, size, length), size, |hs|, ProofFor(0, hs, size))
         == Ok((Padded(hs, |hs|, length), []))
    decreases |hs| - size
  {
    hide MerkleRoot, Append, Padded, Level, Pow2;
    if size < |hs| {
      var n := Pow2(Level(size, |hs|));
      AppendAccepted(hs, size, length, n);
      ProofForUnfolds(0, hs, size, n);
      ReplayStep(Padded(hs, size, length), size, |hs|, MerkleRoot(hs[size..size + n]),
        ProofFor(0, hs, size + n), Padded(hs, size + n, length));
      ReplayForward(hs, size + n, length);
    }
  }

  /** A replay that uses up its proof begins with an append that succeeds and goes on from there. */
  lemma {:induction false} FirstRound(exp: seq<Hash>, size: nat, postSize: nat, proof: seq<Hash>, final: seq<Hash>)
      returns (sub: Hash, rest: seq<Hash>, next: seq<Hash>)
    requires size < postSize && TreeSizeOf(exp) == size && Replay(exp, size, postSize, proof) == Ok((final, []))
    ensures proof == [sub] + rest && Append(exp, Level(size, postSize), sub) == Ok(next)
    ensures var grown := size + Pow2(Level(size, postSize));
            TreeSizeOf(next) == grown && Replay(next, grown, postSize, rest) == Ok((final, []))
  {
    sub, rest := proof[0], proof[1..];
    next := Append(exp, Level(size, postSize), sub).value;
    AppendSize(exp, Level(size, postSize), sub);
  }

  /** Undoing the carries: a replay that ends in the list's expansion started from the expansion of
      the list's prefix and used exactly the generated proof. */
  lemma {:induction false} ReplayBackward(hs: seq<Hash>, exp: seq<Hash>, size: nat, proof: seq<Hash>, final: seq<Hash>)
    requires NoZero(hs) && 0 < size <= |hs| && TreeSizeOf(exp) == size
    requires Replay(exp, size, |hs|, proof) == Ok((final, []))
    requires final == Padded(hs, |hs|, |final|)
    ensures exp == Padded(hs, size, |exp|)
    ensures proof == ProofFor(0, hs, size)
    decreases |hs| - size
  {
    hide MerkleRoot, Append, ExpOf, Level, Pow2, TreeSizeOf;
    if size < |hs| {
      var n := Pow2(Level(size, |hs|));
      var sub, rest, next := FirstRound(exp, size, |hs|, proof, final);
      ReplayBackward(hs, next, size + n, rest, final);
      UndoAppend(hs, exp, size, sub, next);
      ProofForUnfolds(0, hs, size, n);
    }
  }

  lemma {:induction false} UndoAppend(hs: seq<Hash>, exp: seq<Hash>, size: nat, sub: Hash, next: seq<Hash>)
    requires NoZero(hs) && 0 < size < |hs| && TreeSizeOf(exp) == size
    requires var k := Level(size, |hs|);
             && Append(exp, k, sub) == Ok(next)
             && next == Padded(hs, size + Pow2(k), |next|)
    ensures exp == Padded(hs, size, |exp|)
    ensures sub == MerkleRoot(hs[size..size + Pow2(Level(size, |hs|))])
  {
    var k := Level(size, |hs|);
    var twin, root := Padded(hs, size, |exp|), MerkleRoot(hs[size..size + Pow2(k)]);
    LongEnough(exp, hs, size);
    PaddedSize(hs, size, |exp|);
    PaddedStep(hs, size, |exp|);
    AppendLength(exp, sub, twin, root, k);
    AppendInjective(exp, sub, twin, root, k);
  }

  /** The proof generated for a prefix, accepted as is. */
  ghost function GeneratedConfig(post: seq<Hash>, preSize: nat): VerifyConfig
    requires 0 < preSize < |post|
  {
    VerifyConfig(Commit(post[..preSize]), preSize, Commit(post), |post|,
      ExpOf(LeafHashes(post[..preSize])), ProofFor(0, LeafHashes(post), preSize))
  }

  ghost predicate Committed(cfg: VerifyConfig, post: seq<Hash>) {
    |post| > 0 && cfg.postRoot == Commit(post) && cfg.postSize == |post|
  }

  /** The exact acceptance condition against a committed list: the expansion is that of the list's
      prefix, possibly with zeros on top as far as the list's own expansion reaches; the pre-root is
      its root; the proof is the generated one. */
  ghost predicate Acceptable(cfg: VerifyConfig, post: seq<Hash>) {
    && 0 < cfg.preSize < |post|
    && cfg.preExpansion == PadTo(ExpOf(LeafHashes(post[..cfg.preSize])), |cfg.preExpansion|)
    && |cfg.preExpansion| <= |ExpOf(LeafHashes(post))|
    && cfg.preRoot == RootFold(Zero, cfg.preExpansion)
    && cfg.prefixProof == ProofFor(0, LeafHashes(post), cfg.preSize)
  }

  lemma {:induction false} HashSlices(post: seq<Hash>, n: nat)
    requires n <= |post|
    ensures LeafHashes(post)[..n] == LeafHashes(post[..n])
    ensures LeafHashes(post)[n..] == LeafHashes(post[n..])
    ensures LeafHashes(post)[..|post|] == LeafHashes(post)
  {
  }

  lemma {:induction false} AcceptableIsAccepted(cfg: VerifyConfig, post: seq<Hash>)
    requires Committed(cfg, post) && |post| < UINT64 && Acceptable(cfg, post)
    ensures Verify(cfg) == Ok(())
  {
    var hs, length := LeafHashes(post), |cfg.preExpansion|;
    HashSlices(post, cfg.preSize);
    ExpFits(hs);
    PaddedSize(hs, cfg.preSize, length);
    SizeBound(cfg.preExpansion);
    ReplayForward(hs, cfg.preSize, length);
    RootMeaning(hs);
  }

  lemma {:induction false} AcceptedIsAcceptable(cfg: VerifyConfig, post: seq<Hash>)
    requires Committed(cfg, post) && |post| < UINT64 && Verify(cfg) == Ok(())
    ensures Acceptable(cfg, post)
  {
    var hs, pre := LeafHashes(post), cfg.preExpansion;
    HashSlices(post, cfg.preSize);
    var final := Replay(pre, cfg.preSize, cfg.postSize, cfg.prefixProof).value.0;
    ReplaySize(pre, cfg.preSize, cfg.postSize, cfg.prefixProof);
    RootBinds(final, post);
    ReplayBackward(hs, pre, cfg.preSize, cfg.prefixProof, final);
    ReplayForward(hs, cfg.preSize, |pre|);
    assert final == Padded(hs, |hs|, |pre|);
  }

  lemma {:induction false} ReplaySize(exp: seq<Hash>, size: nat, postSize: nat, proof: seq<Hash>)
    requires 0 < size <= postSize && TreeSizeOf(exp) == size && Replay(exp, size, postSize, proof).Ok?
    ensures TreeSizeOf(Replay(exp, size, postSize, proof).value.0) == postSize
    decreases postSize - size
  {
    if size < postSize {
      var k := Level(size, postSize);
      AppendSize(exp, k, proof[0]);
      ReplaySize(Append(exp, k, proof[0]).value, size + Pow2(k), postSize, proof[1..]);
    }
  }

  /** The replay takes one root off the proof per greedy round. */
  lemma {:induction false} ReplayLength(exp: seq<Hash>, size: nat, postSize: nat, proof: seq<Hash>)
    requires size <= postSize && Replay(exp, size, postSize, proof).Ok?
    ensures |proof| == Steps(size, postSize) + |Replay(exp, size, postSize, proof).value.1|
    decreases postSize - size
  {
    hide Append, Level, Pow2;
    if size < postSize {
      var k := Level(size, postSize);
      ReplayLength(Append(exp, k, proof[0]).value, size + Pow2(k), postSize, proof[1..]);
    }
  }

  /** Every accepted proof, whatever its roots are, has one hash per greedy round. */
  lemma {:induction false} AcceptedProofLength(cfg: VerifyConfig)
    requires Verify(cfg) == Ok(())
    ensures 0 < cfg.preSize < cfg.postSize && Xor(cfg.preSize, cfg.postSize) > 0
    ensures |cfg.prefixProof| == Steps(cfg.preSize, cfg.postSize) <= 2 * Msb(Xor(cfg.preSize, cfg.postSize)) + 1
  {
    hide Replay, Steps, Xor, Msb, RootOf, TreeSizeOf;
    ReplayLength(cfg.preExpansion, cfg.preSize, cfg.postSize, cfg.prefixProof);
    StepsBound(cfg.preSize, cfg.postSize);
  }

  /** VerifyPrefixProof accepts exactly the acceptable configurations. */
  lemma {:induction false} VerifyExact(cfg: VerifyConfig, post: seq<Hash>)
    requires Committed(cfg, post) && |post| < UINT64
    ensures Verify(cfg) == Ok(()) <==> Acceptable(cfg, post)
  {
    if Acceptable(cfg, post) {
      AcceptableIsAccepted(cfg, post);
    }
    if Verify(cfg) == Ok(()) {
      AcceptedIsAcceptable(cfg, post);
    }
  }

  /** Completeness: the generated proof of any proper non-empty prefix is accepted. */
  lemma {:induction false} Completeness(post: seq<Hash>, preSize: nat)
    requires 0 < preSize < |post| < UINT64
    ensures Verify(GeneratedConfig(post, preSize)) == Ok(())
  {
    var hs := LeafHashes(post);
    HashSlices(post, preSize);
    RootMeaning(hs[..preSize]);
    ExpLength(hs[..preSize]);
    ExpLength(hs);
    MsbMonotone(preSize, |post|);
    VerifyExact(GeneratedConfig(post, preSize), post);
  }

  lemma {:induction false} MsbMonotone(a: nat, b: nat)
    requires 0 < a <= b
    ensures Msb(a) <= Msb(b)
  {
    if a > 1 {
      MsbMonotone(a / 2, b / 2);
    }
  }

  /** Soundness: if both roots commit to leaf lists, an accepted proof shows a proper prefix. */
  lemma {:induction false} Soundness(cfg: VerifyConfig, pre: seq<Hash>, post: seq<Hash>)
    requires Committed(cfg, post) && |post| < UINT64
    requires |pre| > 0 && cfg.preRoot == Commit(pre) && cfg.preSize == |pre|
    requires Verify(cfg) == Ok(())
    ensures pre < post
    ensures cfg == GeneratedConfig(post, |pre|)
  {
    VerifyExact(cfg, post);
    RootBinds(cfg.preExpansion, pre);
    ExpOfCanonical(LeafHashes(pre));
    CanonicalUnpadded(cfg.preExpansion, LeafHashes(post[..|pre|]));
    RootMeaning(LeafHashes(post[..|pre|]));
    CommitInjective(pre, post[..|pre|]);
  }

  lemma {:induction false} CanonicalUnpadded(me: seq<Hash>, hs: seq<Hash>)
    requires me != [] && me == PadTo(ExpOf(hs), |me|) && NoZero(hs) && hs != []
    ensures Canonical(me) <==> me == ExpOf(hs)
  {
    ExpOfCanonical(hs);
  }

  /** Some proof convinces the verifier exactly when the one list is a proper prefix of the other. */
  lemma {:induction false} ProvableIffPrefix(pre: seq<Hash>, post: seq<Hash>)
    requires |pre| > 0 && 0 < |post| < UINT64
    ensures (exists exp, proof ::
               Verify(VerifyConfig(Commit(pre), |pre|, Commit(post), |post|, exp, proof)) == Ok(()))
       <==> pre < post
  {
    if pre < post {
      Completeness(post, |pre|);
      assert post[..|pre|] == pre;
      var cfg := GeneratedConfig(post, |pre|);
      assert cfg == VerifyConfig(Commit(pre), |pre|, Commit(post), |post|, cfg.preExpansion, cfg.prefixProof);
    }
    if exp, proof :| Verify(VerifyConfig(Commit(pre), |pre|, Commit(post), |post|, exp, proof)) == Ok(()) {
      Soundness(VerifyConfig(Commit(pre), |pre|, Commit(post), |post|, exp, proof), pre, post);
    }
  }

  /** An accepted pre-root need not commit to any list: it does exactly when the pre-expansion has no
      zero on top. */
  lemma {:induction false} PreRootIsCommitmentIff(cfg: VerifyConfig, post: seq<Hash>)
    requires Committed(cfg, post) && |post| < UINT64 && Verify(cfg) == Ok(())
    ensures 0 < cfg.preSize < |post| && cfg.preExpansion != []
    ensures cfg.preRoot == Commit(post[..cfg.preSize]) <==> cfg.preExpansion[|cfg.preExpansion| - 1] != Zero
    ensures cfg.preExpansion[|cfg.preExpansion| - 1] == Zero ==> CommitsToNothing(cfg.preRoot)
  {
    VerifyExact(cfg, post);
    var prefix := post[..cfg.preSize];
    SizeMeaning(LeafHashes(prefix));
    PadSize(ExpOf(LeafHashes(prefix)), |cfg.preExpansion|);
    RootBinds(cfg.preExpansion, prefix);
    CanonicalUnpadded(cfg.preExpansion, LeafHashes(prefix));
    if cfg.preExpansion[|cfg.preExpansion| - 1] == Zero {
      PaddedRootCommitsToNothing(cfg.preExpansion);
    }
  }

  ghost predicate CommitsToNothing(root: Hash) {
    forall leaves :: |leaves| > 0 ==> root != Commit(leaves)
  }

  /** A zero on top of an expansion makes its root one that no list of leaves has. */
  lemma {:induction false} PaddedRootCommitsToNothing(me: seq<Hash>)
    requires me != [] && me[|me| - 1] == Zero && TreeSizeOf(me) > 0
    ensures CommitsToNothing(RootFold(Zero, me))
  {
    hide RootFold, MerkleRoot;
    RootFoldPadded(Zero, me);
    forall leaves: seq<Hash> | |leaves| > 0
      ensures RootFold(Zero, me) != Commit(leaves)
    {
      if |leaves| > 1 {
        MerkleRootNotPadded(LeafHashes(leaves));
      } else {
        RootOfOne(LeafHashes(leaves));
      }
    }
  }

  lemma {:induction false} RootOfOne(hs: seq<Hash>)
    requires |hs| == 1
    ensures MerkleRoot(hs) == hs[0]
  {
  }

  /** Four leaves, a prefix of two, one zero on top: accepted, with a pre-root that commits to nothing. */
  lemma {:induction false} PaddedPreExpansionAccepted(post: seq<Hash>, cfg: VerifyConfig)
    requires |post| == 4 && Committed(cfg, post)
    requires var pair := Hash64(Hash32(post[0]), Hash32(post[1]));
             && cfg.preSize == 2
             && cfg.preExpansion == [Zero, pair, Zero]
             && cfg.preRoot == Hash64(Hash64(pair, Zero), Zero)
             && cfg.prefixProof == [Hash64(Hash32(post[2]), Hash32(post[3]))]
    ensures Verify(cfg) == Ok(()) && CommitsToNothing(cfg.preRoot)
  {
    var lower, upper := LeafHashes(post[..2]), LeafHashes(post[2..]);
    var pair := Hash64(Hash32(post[0]), Hash32(post[1]));
    assert NextLayer(lower) == [pair] && Paired(lower) == lower && Paired([pair]) == [];
    assert NextLayer([]) == [];
    assert ExpOf([pair]) == [pair] + ExpOf([]);
    assert ExpOf(lower) == [Zero, pair];
    assert PadTo([Zero, pair], 3) == [Zero, pair, Zero];
    assert NextLayer(upper) == [Hash64(Hash32(post[2]), Hash32(post[3]))];
    assert Level(2, 4) == 1 by { assert Level(1, 2) == 0; }
    assert LeafHashes(post)[2..4] == upper;
    assert ProofFor(0, LeafHashes(post), 2) == [MerkleRoot(upper)] + ProofFor(0, LeafHashes(post), 4);
    ExpLength(LeafHashes(post));
    assert Msb(4) == 2 by { assert Msb(2) == 1; }
    RootFoldOfThree(pair);
    VerifyExact(cfg, post);
    PreRootIsCommitmentIff(cfg, post);
  }

  lemma {:induction false} RootFoldOfThree(pair: Hash)
    requires pair != Zero
    ensures RootFold(Zero, [Zero, pair, Zero]) == Hash64(Hash64(pair, Zero), Zero)
  {
    assert [Zero, pair, Zero][1..] == [pair, Zero];
    assert [pair, Zero][1..] == [Zero];
    assert RootFold(Hash64(pair, Zero), [Zero]) == RootFold(Hash64(Hash64(pair, Zero), Zero), []);
  }

  // ----- what a corrupted proof is refused for -----

  lemma {:induction false} ReplayWithSuffix(
      exp: seq<Hash>, size: nat, postSize: nat, proof: seq<Hash>, final: seq<Hash>, suffix: seq<Hash>)
    requires size <= postSize && Replay(exp, size, postSize, proof) == Ok((final, []))
    ensures Replay(exp, size, postSize, proof + suffix) == Ok((final, suffix))
    decreases postSize - size
  {
    hide Append, Level, Pow2;
    if size < postSize {
      var k := Level(size, postSize);
      assert (proof + suffix)[1..] == proof[1..] + suffix;
      ReplayWithSuffix(Append(exp, k, proof[0]).value, size + Pow2(k), postSize, proof[1..], final, suffix);
    } else {
      assert proof + suffix == suffix;
    }
  }

  lemma {:induction false} ReplayCutShort(
      exp: seq<Hash>, size: nat, postSize: nat, proof: seq<Hash>, final: seq<Hash>, n: nat)
    requires size <= postSize && Replay(exp, size, postSize, proof) == Ok((final, [])) && n < |proof|
    ensures Replay(exp, size, postSize, proof[..n]) == Err(IndexOutOfRange)
    decreases postSize - size
  {
    hide Append, Level, Pow2;
    if n > 0 {
      var k := Level(size, postSize);
      assert proof[..n][1..] == proof[1..][..n - 1];
      ReplayCutShort(Append(exp, k, proof[0]).value, size + Pow2(k), postSize, proof[1..], final, n - 1);
    }
  }

  /** The checks a generated proof passes on its way. */
  lemma {:induction false} GeneratedReplay(post: seq<Hash>, preSize: nat)
    requires 0 < preSize < |post| < UINT64
    ensures var cfg := GeneratedConfig(post, preSize); var final := ExpOf(LeafHashes(post));
            && RootOf(cfg.preExpansion) == Ok(cfg.preRoot) && TreeSizeOf(cfg.preExpansion) == preSize
            && Replay(cfg.preExpansion, preSize, |post|, cfg.prefixProof) == Ok((final, []))
            && RootOf(final) == Ok(cfg.postRoot)
  {
    var cfg := GeneratedConfig(post, preSize);
    Completeness(post, preSize);
    var run := Replay(cfg.preExpansion, preSize, |post|, cfg.prefixProof);
    ReplaySize(cfg.preExpansion, preSize, |post|, cfg.prefixProof);
    RootBinds(run.value.0, post);
  }

  /** Each single corruption of a generated proof is refused, for its own reason: a wrong root before or after, a
      wrong size, sizes in the wrong order, a proof too long or too short. */
  lemma {:induction false} CorruptionsAreTold(post: seq<Hash>, preSize: nat, h: Hash, n: nat)
    requires 0 < preSize < |post| < UINT64
    ensures var cfg := GeneratedConfig(post, preSize); var proof := cfg.prefixProof;
            && (h != cfg.preRoot ==> Verify(cfg.(preRoot := h)) == Err(RootMismatch))
            && (h != cfg.postRoot ==> Verify(cfg.(postRoot := h)) == Err(RootMismatch))
            && Verify(cfg.(preSize := 0)) == Err(CannotBeZero)
            && (0 < n != preSize ==> Verify(cfg.(preSize := n)) == Err(TreeSizeIncorrect))
            && (n <= preSize ==> Verify(cfg.(postSize := n)) == Err(StartNotLessThanEnd))
            && Verify(cfg.(prefixProof := proof + [h])) == Err(IncompleteProof)
            && (n < |proof| ==> Verify(cfg.(prefixProof := proof[..n])) == Err(IndexOutOfRange))
  {
    hide ExpOf, RootOf, TreeSizeOf, Replay, ProofFor, Commit;
    var cfg, final := GeneratedConfig(post, preSize), ExpOf(LeafHashes(post));
    GeneratedReplay(post, preSize);
    ReplayWithSuffix(cfg.preExpansion, preSize, |post|, cfg.prefixProof, final, [h]);
    if n < |cfg.prefixProof| {
      ReplayCutShort(cfg.preExpansion, preSize, |post|, cfg.prefixProof, final, n);
    }
  }
}
