/** Merkle expansions: a binary number whose set bits carry the roots of complete subtrees.
    The specification side: root, size and append as recursions over the levels, their meaning in
    terms of the reference tree, and what each determines. */
module Expansion {
  import opened Bits
  import opened Merkle
  import opened Outcomes

  const MAX_LEVEL: nat := 64

  datatype Error =
    | RootForEmpty
    | ExpansionTooLarge
    | LevelTooHigh
    | TreeSizeIncorrect
    | CannotAppendEmpty
    | CannotAppendAboveLeastSignificant
    | StartNotLessThanEnd
    | CannotBeZero
    | RootMismatch
    | IncompleteProof
    | SizeNotLeqPostSize
    | IndexOutOfRange
    | ProofTooLong
    | InvalidLeaves
    | NoLeaves

  // ----- meaning -----

  /** The nodes that pair up; an odd last node stays at its own level. */
  function Paired(hs: seq<Hash>): (r: seq<Hash>)
    ensures |r| % 2 == 0 && |hs| - 1 <= |r| <= |hs|
    ensures NoZero(hs) ==> NoZero(r)
  {
    hs[..|hs| - |hs| % 2]
  }

  /** The expansion of the tree over the nodes hs. */
  function ExpOf(hs: seq<Hash>): seq<Hash>
    decreases |hs|
  {
    if |hs| == 0 then []
    else [if |hs| % 2 == 1 then hs[|hs| - 1] else Zero] + ExpOf(NextLayer(Paired(hs)))
  }

  // ----- root -----

  /** One round of the root loop: last tells whether val is the top entry. */
  function Absorb(accum: Hash, val: Hash, last: bool): Hash {
    if accum == Zero then
      if val == Zero || last then val else Hash64(val, Zero)
    else if val != Zero then Hash64(val, accum)
    else Hash64(accum, Zero)
  }

  function RootFold(accum: Hash, me: seq<Hash>): Hash
    decreases |me|
  {
    if me == [] then accum else RootFold(Absorb(accum, me[0], |me| == 1), me[1..])
  }

  function RootOf(me: seq<Hash>): Result<Hash, Error> {
    if |me| > MAX_LEVEL then Err(ExpansionTooLarge)
    else if |me| == 0 then Err(RootForEmpty)
    else Ok(RootFold(Zero, me))
  }

  lemma {:induction false} RootFoldMeaning(accum: Hash, hs: seq<Hash>)
    requires accum != Zero && NoZero(hs)
    ensures RootFold(accum, ExpOf(hs)) == MerkleRoot(hs + [accum])
    decreases |hs|
  {
    if |hs| > 0 {
      var top := Absorb(accum, ExpOf(hs)[0], |ExpOf(hs)| == 1);
      RootFoldMeaning(top, NextLayer(Paired(hs)));
      var rest := hs[|Paired(hs)|..] + [accum];
      assert hs + [accum] == Paired(hs) + rest;
      NextLayerConcat(Paired(hs), rest);
      assert NextLayer(rest) == [top];
    }
  }

  /** The folded root of an expansion is the root of the zero-padded tree. */
  lemma {:induction false} RootMeaning(hs: seq<Hash>)
    requires |hs| > 0 && NoZero(hs)
    ensures RootFold(Zero, ExpOf(hs)) == MerkleRoot(hs)
    decreases |hs|
  {
    var up := NextLayer(Paired(hs));
    if |hs| % 2 == 0 {
      RootMeaning(up);
      assert Paired(hs) == hs;
    } else if |hs| > 1 {
      var last := [hs[|hs| - 1]];
      RootFoldMeaning(Hash64(last[0], Zero), up);
      assert hs == Paired(hs) + last;
      NextLayerConcat(Paired(hs), last);
      assert NextLayer(last) == [Hash64(last[0], Zero)];
    }
  }

  // ----- size -----

  function TreeSizeOf(me: seq<Hash>): nat {
    if me == [] then 0 else (if me[0] != Zero then 1 else 0) + 2 * TreeSizeOf(me[1..])
  }

  lemma {:induction false} SizeMeaning(hs: seq<Hash>)
    requires NoZero(hs)
    ensures TreeSizeOf(ExpOf(hs)) == |hs|
    decreases |hs|
  {
    if |hs| > 0 {
      var up := NextLayer(Paired(hs));
      SizeMeaning(up);
      assert |up| == |hs| / 2 && ExpOf(hs)[1..] == ExpOf(up);
    }
  }

  lemma {:induction false} SizeBound(me: seq<Hash>)
    ensures TreeSizeOf(me) < Pow2(|me|)
  {
    if me != [] {
      SizeBound(me[1..]);
    }
  }

  // ----- append -----

  /** Adds a subtree at the bottom level, carrying while levels are occupied. */
  function Carry(me: seq<Hash>, accum: Hash): seq<Hash> {
    if me == [] then [accum]
    else if me[0] == Zero then [accum] + me[1..]
    else [Zero] + Carry(me[1..], Hash64(me[0], accum))
  }

  function Tail(me: seq<Hash>): seq<Hash> {
    if me == [] then [] else me[1..]
  }

  /** Adds a subtree at the given level of an expansion that is empty below it. */
  function Appended(me: seq<Hash>, level: nat, sub: Hash): seq<Hash>
    decreases level
  {
    if level == 0 then Carry(me, sub) else [Zero] + Appended(Tail(me), level - 1, sub)
  }

  lemma {:induction false} AppendedStep(me: seq<Hash>, level: nat, sub: Hash)
    requires level > 0
    ensures Appended(me, level, sub) == [Zero] + Appended(Tail(me), level - 1, sub)
    ensures Appended(me, level, sub)[1..] == Appended(Tail(me), level - 1, sub)
  {
  }

  predicate EmptyBelow(me: seq<Hash>, level: nat) {
    forall i :: 0 <= i < level && i < |me| ==> me[i] == Zero
  }

  function Append(me: seq<Hash>, level: nat, sub: Hash): Result<seq<Hash>, Error> {
    if level >= MAX_LEVEL then Err(LevelTooHigh)
    else if sub == Zero then Err(CannotAppendEmpty)
    else if |me| > MAX_LEVEL then Err(ExpansionTooLarge)
    else if |me| == 0 then Ok(Appended(me, level, sub))
    else if level >= |me| then Err(LevelTooHigh)
    else if !EmptyBelow(me, level) then Err(CannotAppendAboveLeastSignificant)
    else if |Appended(me, level, sub)| >= MAX_LEVEL + 1 then Err(LevelTooHigh)
    else Ok(Appended(me, level, sub))
  }

  lemma {:induction false} CarryMeaning(hs: seq<Hash>, h: Hash)
    requires NoZero(hs) && h != Zero
    ensures Carry(ExpOf(hs), h) == ExpOf(hs + [h])
    decreases |hs|
  {
    if |hs| % 2 == 1 {
      var up, last := NextLayer(Paired(hs)), hs[|hs| - 1];
      CarryMeaning(up, Hash64(last, h));
      assert hs + [h] == Paired(hs) + [last, h];
      assert Paired(hs + [h]) == hs + [h];
      NextLayerConcat(Paired(hs), [last, h]);
      assert NextLayer([last, h]) == [Hash64(last, h)];
    } else {
      assert Paired(hs + [h]) == hs == Paired(hs);
    }
  }

  lemma {:induction false} ExpOfEven(hs: seq<Hash>)
    requires |hs| % 2 == 0
    ensures Tail(ExpOf(hs)) == ExpOf(NextLayer(hs))
    ensures hs != [] ==> ExpOf(hs) == [Zero] + ExpOf(NextLayer(hs))
  {
    assert Paired(hs) == hs;
  }

  /** Appending the root of a complete tree over ys to the expansion of hs is the expansion of
      hs + ys: binary addition that keeps the meaning. */
  lemma {:induction false} AppendMeaning(hs: seq<Hash>, ys: seq<Hash>, level: nat)
    requires NoZero(hs) && NoZero(ys)
    requires |ys| == Pow2(level) && Aligned(|hs|, level)
    ensures Appended(ExpOf(hs), level, MerkleRoot(ys)) == ExpOf(hs + ys)
    decreases level
  {
    if level == 0 {
      assert ys == [ys[0]];
      CarryMeaning(hs, ys[0]);
    } else {
      LayersAligned(hs, ys, level);
      AppendMeaning(NextLayer(hs), NextLayer(ys), level - 1);
      AppendedStep(ExpOf(hs), level, MerkleRoot(ys));
    }
  }

  /** One layer up, both node lists halve and the claim of AppendMeaning moves down a level. */
  lemma {:induction false} LayersAligned(hs: seq<Hash>, ys: seq<Hash>, level: nat)
    requires level > 0 && |ys| == Pow2(level) && Aligned(|hs|, level)
    ensures |NextLayer(ys)| == Pow2(level - 1) && Aligned(|NextLayer(hs)|, level - 1)
    ensures MerkleRoot(ys) == MerkleRoot(NextLayer(ys))
    ensures Tail(ExpOf(hs)) == ExpOf(NextLayer(hs))
    ensures ExpOf(hs + ys) == [Zero] + ExpOf(NextLayer(hs) + NextLayer(ys))
  {
    hide ExpOf, NextLayer, Pow2, Tail, Aligned;
    HalfLayer(ys, level);
    AlignedLayer(hs, level);
    EvenLength(hs, ys);
    ExpOfEven(hs);
    ExpOfEven(hs + ys);
    NextLayerConcat(hs, ys);
  }

  lemma {:induction false} AlignedLayer(hs: seq<Hash>, level: nat)
    requires level > 0 && Aligned(|hs|, level)
    ensures |hs| % 2 == 0 && Aligned(|NextLayer(hs)|, level - 1)
  {
    hide NextLayer;
    BitBehind(|hs| / 2, 1);
  }

  lemma {:induction false} EvenLength(a: seq<Hash>, b: seq<Hash>)
    requires |a| % 2 == 0 && |b| % 2 == 0
    ensures |a + b| % 2 == 0
  {
  }

  lemma {:induction false} HalfLayer(ys: seq<Hash>, level: nat)
    requires level > 0 && |ys| == Pow2(level)
    ensures |ys| % 2 == 0 && |ys| > 1 && |NextLayer(ys)| == Pow2(level - 1)
  {
    hide NextLayer;
    BitBehind(Pow2(level - 1), 0);
    BitBehind(Pow2(level - 1), 1);
  }

  lemma {:induction false} CarrySize(me: seq<Hash>, accum: Hash)
    requires accum != Zero
    ensures TreeSizeOf(Carry(me, accum)) == TreeSizeOf(me) + 1
  {
    if me != [] && me[0] != Zero {
      CarrySize(me[1..], Hash64(me[0], accum));
    }
  }

  /** Appending at a level adds exactly that power of two to the size. */
  lemma {:induction false} AppendSize(me: seq<Hash>, level: nat, sub: Hash)
    requires sub != Zero && EmptyBelow(me, level)
    ensures TreeSizeOf(Appended(me, level, sub)) == TreeSizeOf(me) + Pow2(level)
    decreases level
  {
    if level == 0 {
      CarrySize(me, sub);
    } else {
      EmptyBelowTail(me, level);
      AppendSize(Tail(me), level - 1, sub);
      AppendedStep(me, level, sub);
    }
  }

  /** A carry lengthens an expansion exactly if every level from the start of the carry on is occupied. */
  lemma {:induction false} CarryGrows(me: seq<Hash>, accum: Hash)
    requires accum != Zero
    ensures |Carry(me, accum)| == |me| + (if TreeSizeOf(me) + 1 == Pow2(|me|) then 1 else 0)
  {
    SizeBound(me);
    if me != [] {
      SizeBound(me[1..]);
      if me[0] != Zero {
        CarryGrows(me[1..], Hash64(me[0], accum));
      }
    }
  }

  lemma {:induction false} AppendedGrows(me: seq<Hash>, level: nat, sub: Hash)
    requires sub != Zero && level < |me| && EmptyBelow(me, level)
    ensures |Appended(me, level, sub)| == |me| + (if TreeSizeOf(me) + Pow2(level) < Pow2(|me|) then 0 else 1)
    decreases level
  {
    SizeBound(me);
    if level == 0 {
      CarryGrows(me, sub);
    } else {
      EmptyBelowTail(me, level);
      AppendedGrows(Tail(me), level - 1, sub);
    }
  }

  /** An expansion is empty below a level exactly when that power of two divides its size. */
  lemma {:induction false} EmptyBelowIffAligned(me: seq<Hash>, level: nat)
    ensures EmptyBelow(me, level) <==> Aligned(TreeSizeOf(me), level)
    decreases level
  {
    if level > 0 {
      EmptyBelowIffAligned(Tail(me), level - 1);
      EmptyBelowTail(me, level);
      SizeTail(me);
    }
  }

  lemma {:induction false} EmptyBelowTail(me: seq<Hash>, level: nat)
    requires level > 0
    ensures EmptyBelow(me, level) <==> (me != [] ==> me[0] == Zero) && EmptyBelow(Tail(me), level - 1)
  {
    if me != [] {
      assert forall i :: 0 <= i < |me[1..]| ==> me[1..][i] == me[i + 1];
      if me[0] == Zero && EmptyBelow(me[1..], level - 1) {
        assert forall i :: 0 < i < level && i < |me| ==> me[i] == me[1..][i - 1];
      }
    }
  }

  lemma {:induction false} SizeTail(me: seq<Hash>)
    ensures TreeSizeOf(me) / 2 == TreeSizeOf(Tail(me))
    ensures TreeSizeOf(me) % 2 == 0 <==> (me != [] ==> me[0] == Zero)
  {
  }

  // ----- top zeros -----

  /** An expansion without zeros on top. The expansion of a list never has any. */
  ghost predicate Canonical(me: seq<Hash>) {
    me != [] ==> me[|me| - 1] != Zero
  }

  function PadTo(me: seq<Hash>, length: nat): (r: seq<Hash>)
    ensures |r| == if |me| < length then length else |me|
  {
    if |me| < length then me + seq(length - |me|, _ => Zero) else me
  }

  /** Drops the zeros on top. */
  function Strip(me: seq<Hash>): (r: seq<Hash>)
    ensures |r| <= |me|
  {
    if me != [] && me[|me| - 1] == Zero then Strip(me[..|me| - 1]) else me
  }

  lemma {:induction false} StripSpec(me: seq<Hash>)
    ensures Canonical(Strip(me))
    ensures me == PadTo(Strip(me), |me|)
  {
    if me != [] && me[|me| - 1] == Zero {
      StripSpec(me[..|me| - 1]);
      assert me == me[..|me| - 1] + [Zero];
    }
  }

  lemma {:induction false} ExpOfCanonical(hs: seq<Hash>)
    requires NoZero(hs)
    ensures Canonical(ExpOf(hs))
    decreases |hs|
  {
    if |hs| > 0 {
      ExpOfCanonical(NextLayer(Paired(hs)));
    }
  }

  lemma {:induction false} PadSize(me: seq<Hash>, length: nat)
    ensures TreeSizeOf(PadTo(me, length)) == TreeSizeOf(me)
    decreases length, |me|
  {
    if me == [] {
      if length > 0 {
        assert PadTo(me, length)[1..] == PadTo(me, length - 1);
        PadSize(me, length - 1);
      }
    } else if length > 0 {
      assert PadTo(me, length)[1..] == PadTo(me[1..], length - 1);
      PadSize(me[1..], length - 1);
    }
  }

  /** A canonical expansion's length is fixed by its size. */
  lemma {:induction false} CanonicalLength(a: seq<Hash>, b: seq<Hash>)
    requires Canonical(a) && Canonical(b) && TreeSizeOf(a) == TreeSizeOf(b)
    ensures |a| == |b|
    ensures a != [] ==> TreeSizeOf(a) > 0
    decreases |a| + |b|
  {
    if a != [] || b != [] {
      CanonicalLength(Tail(a), Tail(b));
    }
  }

  lemma {:induction false} PadCons(v: Hash, t: seq<Hash>, length: nat)
    ensures PadTo([v] + t, length) == [v] + PadTo(t, if length > 0 then length - 1 else 0)
  {
  }

  lemma {:induction false} PadTail(me: seq<Hash>, length: nat)
    ensures Tail(PadTo(me, length)) == PadTo(Tail(me), if length > 0 then length - 1 else 0)
  {
  }

  lemma {:induction false} CarryPadded(me: seq<Hash>, accum: Hash, length: nat)
    ensures Carry(PadTo(me, length), accum) == PadTo(Carry(me, accum), length)
    decreases |me|
  {
    var l := if length > 0 then length - 1 else 0;
    if me == [] {
      if length > 0 {
        assert PadTo(me, length) == [Zero] + PadTo([], l);
        assert PadTo([accum], length) == [accum] + PadTo([], l);
      }
    } else {
      assert me == [me[0]] + me[1..];
      PadCons(me[0], me[1..], length);
      if me[0] == Zero {
        PadCons(accum, me[1..], length);
      } else {
        CarryPadded(me[1..], Hash64(me[0], accum), l);
        PadCons(Zero, Carry(me[1..], Hash64(me[0], accum)), length);
      }
    }
  }

  /** Zeros on top commute with appending. */
  lemma {:induction false} AppendPadded(me: seq<Hash>, level: nat, sub: Hash, length: nat)
    ensures Appended(PadTo(me, length), level, sub) == PadTo(Appended(me, level, sub), length)
    decreases level
  {
    if level == 0 {
      CarryPadded(me, sub, length);
    } else {
      var l := if length > 0 then length - 1 else 0;
      PadTail(me, length);
      AppendPadded(Tail(me), level - 1, sub, l);
      PadCons(Zero, Appended(Tail(me), level - 1, sub), length);
    }
  }

  // ----- what a result determines -----

  lemma {:induction false} CarryInjective(a: seq<Hash>, x: Hash, b: seq<Hash>, y: Hash)
    requires x != Zero && y != Zero && |a| == |b| && TreeSizeOf(a) == TreeSizeOf(b)
    requires Carry(a, x) == Carry(b, y)
    ensures a == b && x == y
  {
    if a != [] {
      var u, v := Carry(a, x), Carry(b, y);
      assert a == [a[0]] + a[1..] && b == [b[0]] + b[1..];
      if a[0] == Zero {
        assert u[0] == x && u[1..] == a[1..] && v[0] == y && v[1..] == b[1..];
      } else {
        assert u[1..] == v[1..];
        CarryInjective(a[1..], Hash64(a[0], x), b[1..], Hash64(b[0], y));
      }
    } else {
      assert Carry(a, x)[0] == x && Carry(b, y)[0] == y;
    }
  }

  /** An append can be undone: its result and the old size fix the old expansion and the subtree. */
  lemma {:induction false} AppendInjective(a: seq<Hash>, x: Hash, b: seq<Hash>, y: Hash, level: nat)
    requires x != Zero && y != Zero && |a| == |b| && TreeSizeOf(a) == TreeSizeOf(b)
    requires EmptyBelow(a, level) && EmptyBelow(b, level)
    requires Appended(a, level, x) == Appended(b, level, y)
    ensures a == b && x == y
    decreases level
  {
    if level == 0 {
      CarryInjective(a, x, b, y);
    } else {
      var u, v := Appended(a, level, x), Appended(b, level, y);
      assert u[1..] == v[1..];
      EmptyBelowTail(a, level);
      EmptyBelowTail(b, level);
      AppendedStep(a, level, x);
      AppendedStep(b, level, y);
      AppendInjective(Tail(a), x, Tail(b), y, level - 1);
      assert a != [] ==> a == [Zero] + Tail(a) && b == [Zero] + Tail(b);
    }
  }

  lemma {:induction false} RootFoldInjective(x: Hash, a: seq<Hash>, y: Hash, b: seq<Hash>)
    requires x != Zero && y != Zero && |a| == |b| && TreeSizeOf(a) == TreeSizeOf(b)
    requires RootFold(x, a) == RootFold(y, b)
    ensures x == y && a == b
    decreases |a|
  {
    if a != [] {
      RootFoldInjective(Absorb(x, a[0], |a| == 1), a[1..], Absorb(y, b[0], |b| == 1), b[1..]);
      assert a == [a[0]] + a[1..] && b == [b[0]] + b[1..];
    }
  }

  /** Among expansions of one length and size the root determines every entry. */
  lemma {:induction false} RootInjective(a: seq<Hash>, b: seq<Hash>)
    requires |a| == |b| && TreeSizeOf(a) == TreeSizeOf(b)
    requires RootFold(Zero, a) == RootFold(Zero, b)
    ensures a == b
  {
    if a != [] {
      assert a == [a[0]] + a[1..] && b == [b[0]] + b[1..];
      if a[0] == Zero {
        RootInjective(a[1..], b[1..]);
      } else if |a| > 1 {
        RootFoldInjective(Absorb(Zero, a[0], false), a[1..], Absorb(Zero, b[0], false), b[1..]);
      }
    }
  }

  lemma {:induction false} RootFoldPadded(accum: Hash, me: seq<Hash>)
    requires me != [] && me[|me| - 1] == Zero
    requires accum != Zero || TreeSizeOf(me) > 0
    ensures RootFold(accum, me).Hash64? && RootFold(accum, me).right == Zero
    decreases |me|
  {
    var top := Absorb(accum, me[0], |me| == 1);
    if |me| > 1 {
      RootFoldPadded(top, me[1..]);
    }
  }

  /** Any expansion of the right size with the root of a leaf list is that list's expansion. */
  lemma {:induction false} RootBinds(me: seq<Hash>, leaves: seq<Hash>)
    requires |leaves| > 0 && TreeSizeOf(me) == |leaves|
    ensures RootFold(Zero, me) == Commit(leaves) <==> me == ExpOf(LeafHashes(leaves))
  {
    var hs := LeafHashes(leaves);
    RootMeaning(hs);
    SizeMeaning(hs);
    ExpOfCanonical(hs);
    if RootFold(Zero, me) == Commit(leaves) {
      if |hs| > 1 {
        MerkleRootNotPadded(hs);
      }
      if me[|me| - 1] == Zero {
        RootFoldPadded(Zero, me);
      } else {
        CanonicalLength(me, ExpOf(hs));
        RootInjective(me, ExpOf(hs));
      }
    }
  }
}
