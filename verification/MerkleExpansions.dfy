/** The loops that build, measure, compact and rebuild Merkle expansions. */
module MerkleExpansions {
  import opened Bits
  import opened Merkle
  import opened Expansion
  import opened Outcomes

  method Root(me: seq<Hash>) returns (r: Result<Hash, Error>)
    ensures r == RootOf(me)
  {
    if |me| > MAX_LEVEL {
      return Err(ExpansionTooLarge);
    }
    if |me| == 0 {
      return Err(RootForEmpty);
    }
    var accum := Zero;
    for i := 0 to |me|
      invariant RootFold(accum, me[i..]) == RootFold(Zero, me)
    {
      var val := me[i];
      assert me[i..][1..] == me[i + 1..];
      if accum == Zero {
        if val != Zero {
          accum := val;
          if i != |me| - 1 {
            accum := Hash64(accum, Zero);
          }
        }
      } else if val != Zero {
        accum := Hash64(val, accum);
      } else {
        accum := Hash64(accum, Zero);
      }
    }
    return Ok(accum);
  }

  lemma {:induction false} SizeStep(me: seq<Hash>, i: nat)
    requires i < |me|
    ensures Pow2(i) * TreeSizeOf(me[i..])
         == (if me[i] != Zero then Pow2(i) else 0) + Pow2(i + 1) * TreeSizeOf(me[i + 1..])
  {
    assert me[i..][1..] == me[i + 1..];
    Distribute(Pow2(i), if me[i] != Zero then 1 else 0, TreeSizeOf(me[i + 1..]));
  }

  lemma {:induction false} Distribute(p: nat, b: nat, t: nat)
    ensures p * (b + 2 * t) == p * b + (2 * p) * t
  {
  }

  method TreeSize(me: seq<Hash>) returns (sum: nat)
    ensures sum == TreeSizeOf(me)
  {
    sum := 0;
    for i := 0 to |me|
      invariant sum + Pow2(i) * TreeSizeOf(me[i..]) == TreeSizeOf(me)
    {
      SizeStep(me, i);
      if me[i] != Zero {
        sum := sum + Pow2(i);
      }
    }
  }

  /** What the append loop still has to produce from level i on. */
  ghost function Remaining(me: seq<Hash>, i: nat, level: nat, accum: Hash): seq<Hash>
    requires i <= |me|
  {
    if i < level then Appended(me[i..], level - i, accum)
    else if accum == Zero then me[i..]
    else Carry(me[i..], accum)
  }

  /** One round of the append loop at an entry: what stays there and what moves up. */
  method Settle(entry: Hash, below: bool, accum: Hash) returns (out: Hash, accum': Hash)
    ensures Settles(entry, below, accum, out, accum')
  {
    if below {
      return Zero, accum;
    } else if accum == Zero {
      return entry, Zero;
    } else if entry == Zero {
      return accum, Zero;
    } else {
      return Zero, Hash64(entry, accum);
    }
  }

  ghost predicate Settles(entry: Hash, below: bool, accum: Hash, out: Hash, accum': Hash) {
    if below then out == Zero && accum' == accum
    else if accum == Zero || entry == Zero then accum' == Zero && out == if accum == Zero then entry else accum
    else out == Zero && accum' == Hash64(entry, accum)
  }

  lemma {:induction false} RemainingHead(me: seq<Hash>, i: nat, level: nat, accum: Hash, out: Hash, accum': Hash)
    requires i < |me| && (i < level ==> accum != Zero)
    requires Settles(me[i], i < level, accum, out, accum')
    ensures Remaining(me, i, level, accum) == [out] + Remaining(me, i + 1, level, accum')
  {
    assert me[i..][1..] == me[i + 1..];
  }

  /** The rounds of the append loop before level i: what each left behind and what it carried up. */
  ghost predicate Rounds(me: seq<Hash>, level: nat, i: nat, outs: seq<Hash>, accums: seq<Hash>) {
    && i <= |me| && |outs| == i && |accums| == i + 1
    && forall k :: 0 <= k < i ==> Settles(me[k], k < level, accums[k], outs[k], accums[k + 1])
  }

  lemma {:induction false} RoundsKeepCarry(me: seq<Hash>, level: nat, outs: seq<Hash>, accums: seq<Hash>, i: nat)
    requires Rounds(me, level, |me|, outs, accums) && i <= level < |me|
    ensures accums[i] == accums[0]
  {
    if i > 0 {
      RoundsKeepCarry(me, level, outs, accums, i - 1);
      assert Settles(me[i - 1], i - 1 < level, accums[i - 1], outs[i - 1], accums[i]);
    }
  }

  /** All rounds together produce what the recursion produces. */
  lemma {:induction false} RoundsAppend(me: seq<Hash>, level: nat, outs: seq<Hash>, accums: seq<Hash>, i: nat)
    requires Rounds(me, level, |me|, outs, accums) && level < |me| && accums[0] != Zero && i <= |me|
    ensures Remaining(me, i, level, accums[i]) == outs[i..] + (if accums[|me|] == Zero then [] else [accums[|me|]])
    decreases |me| - i
  {
    hide Remaining;
    if i < |me| {
      RoundsAppend(me, level, outs, accums, i + 1);
      if i < level {
        RoundsKeepCarry(me, level, outs, accums, i);
      }
      assert Settles(me[i], i < level, accums[i], outs[i], accums[i + 1]);
      RemainingHead(me, i, level, accums[i], outs[i], accums[i + 1]);
      assert outs[i..] == [outs[i]] + outs[i + 1..];
    } else {
      RemainingEnd(me, level, accums[i]);
      assert outs[|me|..] == [];
    }
  }

  lemma {:induction false} RemainingEnd(me: seq<Hash>, level: nat, accum: Hash)
    requires level < |me|
    ensures Remaining(me, |me|, level, accum) == if accum == Zero then [] else [accum]
  {
    assert me[|me|..] == [];
  }

  /** The carry loop: fails if a level below the append level is occupied. */
  method Propagate(me: seq<Hash>, level: nat, subtreeRoot: Hash) returns (ok: bool, result: seq<Hash>)
    requires level < |me| && subtreeRoot != Zero
    ensures ok <==> EmptyBelow(me, level)
    ensures ok ==> result == Remaining(me, 0, level, subtreeRoot)
  {
    var accumHash := subtreeRoot;
    var next := new Hash[|me|];
    ghost var accums, outs := [accumHash], [];
    for i := 0 to |me|
      invariant EmptyBelow(me, if i < level then i else level)
      invariant Rounds(me, level, i, outs, accums) && accums[0] == subtreeRoot && accums[i] == accumHash
      invariant forall j :: 0 <= j < i ==> next[j] == outs[j]
    {
      if i < level && me[i] != Zero {
        return false, [];
      }
      var out;
      out, accumHash := Settle(me[i], i < level, accumHash);
      next[i] := out;
      outs, accums := outs + [out], accums + [accumHash];
    }
    result := next[..];
    assert result == outs == outs[0..];
    RoundsAppend(me, level, outs, accums, 0);
    if accumHash != Zero {
      result := result + [accumHash];
    }
    return true, result;
  }

  method AppendCompleteSubTree(me: seq<Hash>, level: nat, subtreeRoot: Hash)
      returns (r: Result<seq<Hash>, Error>)
    ensures r == Append(me, level, subtreeRoot)
  {
    if level >= MAX_LEVEL {
      return Err(LevelTooHigh);
    }
    if subtreeRoot == Zero {
      return Err(CannotAppendEmpty);
    }
    if |me| > MAX_LEVEL {
      return Err(ExpansionTooLarge);
    }
    if |me| == 0 {
      AppendToEmpty(level, subtreeRoot);
      return Ok(seq(level, _ => Zero) + [subtreeRoot]);
    }
    if level >= |me| {
      return Err(LevelTooHigh);
    }
    assert me[0..] == me;
    var ok, next := Propagate(me, level, subtreeRoot);
    if !ok {
      return Err(CannotAppendAboveLeastSignificant);
    }
    if |next| >= MAX_LEVEL + 1 {
      return Err(LevelTooHigh);
    }
    return Ok(next);
  }

  /** An append succeeds exactly if the subtree is not empty, its level divides the size and exists in the
      expansion, unless that is empty, and neither expansion needs more than 64 levels. */
  lemma {:induction false} AppendOkIff(me: seq<Hash>, level: nat, sub: Hash)
    ensures Append(me, level, sub).Ok? <==>
              && level < 64 && sub != Zero && |me| <= 64
              && (me == [] || (&& level < |me| && TreeSizeOf(me) % Pow2(level) == 0
                               && TreeSizeOf(me) + Pow2(level) < UINT64))
    ensures Append(me, level, sub) == Err(CannotAppendEmpty) <==> level < 64 && sub == Zero
    ensures Append(me, level, sub) == Err(ExpansionTooLarge) <==> level < 64 && sub != Zero && |me| > 64
    ensures Append(me, level, sub) == Err(CannotAppendAboveLeastSignificant) <==>
              level < 64 && sub != Zero && level < |me| <= 64 && TreeSizeOf(me) % Pow2(level) != 0
    ensures Append(me, level, sub).Ok? ==> Append(me, level, sub).value == Appended(me, level, sub)
  {
    hide Appended, TreeSizeOf, EmptyBelow, Pow2;
    AlignedIffDivides(TreeSizeOf(me), level);
    EmptyBelowIffAligned(me, level);
    if sub != Zero && level < |me| <= 64 && EmptyBelow(me, level) {
      AppendedGrows(me, level, sub);
      FitsIff(me, level);
    }
  }

  lemma {:induction false} FitsIff(me: seq<Hash>, level: nat)
    requires level < |me| <= 64
    ensures TreeSizeOf(me) + Pow2(level) < UINT64 <==> |me| < 64 || TreeSizeOf(me) + Pow2(level) < Pow2(|me|)
  {
    hide TreeSizeOf;
    Pow64();
    SizeBound(me);
    if |me| < 64 {
      Pow2Monotone(level, 63);
      Pow2Monotone(|me|, 63);
      assert Pow2(64) == 2 * Pow2(63);
    }
  }

  /** A root is refused exactly for empty expansions and for those of more than 64 levels. */
  lemma {:induction false} RootRefusesIff(me: seq<Hash>)
    ensures RootOf(me) == Err(RootForEmpty) <==> me == []
    ensures RootOf(me) == Err(ExpansionTooLarge) <==> |me| > 64
    ensures RootOf(me).Ok? <==> 0 < |me| <= 64
  {
  }

  lemma {:induction false} AppendToEmpty(level: nat, sub: Hash)
    ensures Appended([], level, sub) == seq(level, _ => Zero) + [sub]
  {
    if level > 0 {
      AppendToEmpty(level - 1, sub);
    }
  }

  method AppendLeaf(me: seq<Hash>, leaf: Hash) returns (r: Result<seq<Hash>, Error>)
    ensures r == Append(me, 0, Hash32(leaf))
  {
    r := AppendCompleteSubTree(me, 0, Hash32(leaf));
  }

  // ----- building from leaves -----

  /** An expansion is as long as the size has bits. */
  lemma {:induction false} ExpLength(hs: seq<Hash>)
    requires |hs| > 0
    ensures |ExpOf(hs)| == Msb(|hs|) + 1
    decreases |hs|
  {
    if |hs| > 1 {
      ExpLength(NextLayer(Paired(hs)));
    }
  }

  /** An expansion fits the level limit exactly when its size is a 64-bit word. */
  lemma {:induction false} ExpFits(hs: seq<Hash>)
    ensures |ExpOf(hs)| <= MAX_LEVEL <==> |hs| < UINT64
  {
    Pow64();
    if |hs| > 0 {
      ExpLength(hs);
      MsbBounds(|hs|);
      if Msb(|hs|) < 64 {
        Pow2Monotone(Msb(|hs|) + 1, 64);
      } else {
        Pow2Monotone(64, Msb(|hs|));
      }
    }
  }

  method ExpansionFromLeaves(leaves: seq<Hash>) returns (r: Result<seq<Hash>, Error>)
    ensures r == if |leaves| < UINT64 then Ok(ExpOf(LeafHashes(leaves))) else Err(LevelTooHigh)
  {
    var ret := [];
    for i := 0 to |leaves|
      invariant i < UINT64
      invariant ret == ExpOf(LeafHashes(leaves[..i]))
    {
      ghost var hs, h := LeafHashes(leaves[..i]), Hash32(leaves[i]);
      assert LeafHashes(leaves[..i + 1]) == hs + [h];
      CarryMeaning(hs, h);
      ExpFits(hs);
      ExpFits(hs + [h]);
      var appended := AppendLeaf(ret, leaves[i]);
      if appended.Err? {
        return Err(appended.error);
      }
      ret := appended.value;
    }
    assert leaves[..|leaves|] == leaves;
    return Ok(ret);
  }

  /** Root of the first upTo leaves. */
  method RootFetcherFromExpansion(leaves: seq<Hash>, upTo: nat) returns (r: Result<Hash, Error>)
    requires upTo <= |leaves|
    ensures 0 < upTo < UINT64 ==> r == Ok(Commit(leaves[..upTo]))
    ensures upTo == 0 || upTo >= UINT64 ==> r.Err?
  {
    var exp := ExpansionFromLeaves(leaves[..upTo]);
    if exp.Err? {
      return Err(exp.error);
    }
    ghost var hs := LeafHashes(leaves[..upTo]);
    ExpFits(hs);
    if upTo > 0 {
      RootMeaning(hs);
    }
    r := Root(exp.value);
  }

  // ----- compact form -----

  function NonZeros(me: seq<Hash>): seq<Hash> {
    if me == [] then [] else (if me[0] != Zero then [me[0]] else []) + NonZeros(me[1..])
  }

  function PopCount(n: nat): nat {
    if n == 0 then 0 else n % 2 + PopCount(n / 2)
  }

  /** Spreads the hashes of comp over the set bits of n. */
  function Spread(comp: seq<Hash>, n: nat): seq<Hash>
    decreases n
  {
    if n == 0 then []
    else if n % 2 == 1 && comp != [] then [comp[0]] + Spread(comp[1..], n / 2)
    else [Zero] + Spread(comp, n / 2)
  }

  method Compact(me: seq<Hash>) returns (comp: seq<Hash>, size: nat)
    ensures comp == NonZeros(me) && size == TreeSizeOf(me)
  {
    comp, size := [], 0;
    for level := 0 to |me|
      invariant comp + NonZeros(me[level..]) == NonZeros(me)
      invariant size + Pow2(level) * TreeSizeOf(me[level..]) == TreeSizeOf(me)
    {
      assert me[level..][1..] == me[level + 1..];
      SizeStep(me, level);
      if me[level] != Zero {
        comp := comp + [me[level]];
        size := size + Pow2(level);
      }
    }
  }

  /** The word i doubles each round and wraps once it passes 2^63, so the loop needs a size below. */
  method MerkleExpansionFromCompact(comp: seq<Hash>, size: nat) returns (me: seq<Hash>, numRead: nat)
    requires size < UINT64 / 2
    requires |comp| >= PopCount(size)
    ensures me == Spread(comp, size)
    ensures numRead == PopCount(size)
  {
    hide And, Spread, PopCount;
    me, numRead := [], 0;
    var rest := comp;
    var i := 1;
    ghost var k, q := 0, size;
    while i <= size
      invariant i == Pow2(k) < UINT64
      invariant q == Shr(size, k)
      invariant numRead + PopCount(q) == PopCount(size)
      invariant |rest| >= PopCount(q)
      invariant me + Spread(rest, q) == Spread(comp, size)
      decreases if i <= size then size - i + 1 else 0
    {
      AndBit(k, size);
      ShrZero(size, k);
      ShrStep(size, k);
      SpreadStep(me, rest, q);
      if And(i, size) != 0 {
        numRead := numRead + 1;
        me := me + [rest[0]];
        rest := rest[1..];
      } else {
        me := me + [Zero];
      }
      i := (i * 2) % UINT64;
      k, q := k + 1, q / 2;
    }
    ShrZero(size, k);
    SpreadEnd(me, rest);
  }

  lemma {:induction false} SpreadEnd(me: seq<Hash>, rest: seq<Hash>)
    ensures me + Spread(rest, 0) == me && PopCount(0) == 0
  {
    assert me + [] == me;
  }

  lemma {:induction false} SpreadStep(me: seq<Hash>, rest: seq<Hash>, q: nat)
    requires |rest| >= PopCount(q) && q > 0
    ensures PopCount(q) == q % 2 + PopCount(q / 2)
    ensures q % 2 == 1 ==> me + Spread(rest, q) == me + [rest[0]] + Spread(rest[1..], q / 2)
    ensures q % 2 == 0 ==> me + Spread(rest, q) == me + [Zero] + Spread(rest, q / 2)
  {
  }

  /** Rebuilding from the compact form gives a well-formed expansion back and ignores what follows. */
  lemma {:induction false} CompactRoundTrip(me: seq<Hash>, suffix: seq<Hash>)
    requires Canonical(me)
    ensures Spread(NonZeros(me) + suffix, TreeSizeOf(me)) == me
  {
    if me != [] {
      CompactRoundTrip(me[1..], suffix);
      CanonicalLength(me[1..], me[1..]);
      NonZerosCons(me, suffix);
      SpreadCons(me[0], me[1..], NonZeros(me[1..]) + suffix, TreeSizeOf(me[1..]));
    }
  }

  lemma {:induction false} NonZerosCons(me: seq<Hash>, suffix: seq<Hash>)
    requires me != []
    ensures me == [me[0]] + me[1..]
    ensures NonZeros(me) + suffix ==
            (if me[0] != Zero then [me[0]] else []) + (NonZeros(me[1..]) + suffix)
  {
  }

  lemma {:induction false} SpreadCons(v: Hash, t: seq<Hash>, comp: seq<Hash>, n: nat)
    requires Spread(comp, n) == t && (v == Zero ==> n > 0)
    ensures Spread((if v != Zero then [v] else []) + comp, (if v != Zero then 1 else 0) + 2 * n) == [v] + t
  {
    if v != Zero {
      SpreadOdd(v, comp, n, 1 + 2 * n);
    } else {
      assert [] + comp == comp;
      SpreadEven(comp, n, 2 * n);
    }
  }

  lemma {:induction false} SpreadOdd(v: Hash, comp: seq<Hash>, n: nat, m: nat)
    requires m == 1 + 2 * n
    ensures Spread([v] + comp, m) == [v] + Spread(comp, n)
  {
    assert m % 2 == 1 && m / 2 == n;
    assert ([v] + comp)[1..] == comp;
  }

  lemma {:induction false} SpreadEven(comp: seq<Hash>, n: nat, m: nat)
    requires m == 2 * n && n > 0
    ensures Spread(comp, m) == [Zero] + Spread(comp, n)
  {
    assert m % 2 == 0 && m / 2 == n;
  }

  /** One hash per set bit of the size. */
  lemma {:induction false} CompactCount(me: seq<Hash>)
    ensures |NonZeros(me)| == PopCount(TreeSizeOf(me))
  {
    if me != [] {
      CompactCount(me[1..]);
      PopCountStep(if me[0] != Zero then 1 else 0, TreeSizeOf(me[1..]));
    }
  }

  lemma {:induction false} PopCountStep(b: nat, n: nat)
    requires b < 2
    ensures PopCount(b + 2 * n) == b + PopCount(n)
  {
  }

  /** For the expansion of a leaf list the round trip is exact. */
  lemma {:induction false} CompactRoundTripOfLeaves(leaves: seq<Hash>, suffix: seq<Hash>)
    ensures var exp := ExpOf(LeafHashes(leaves));
            && |NonZeros(exp)| == PopCount(|leaves|)
            && Spread(NonZeros(exp) + suffix, |leaves|) == exp
  {
    ExpOfCanonical(LeafHashes(leaves));
    CompactCount(ExpOf(LeafHashes(leaves)));
    CompactRoundTrip(ExpOf(LeafHashes(leaves)), suffix);
    SizeMeaning(LeafHashes(leaves));
  }
}
