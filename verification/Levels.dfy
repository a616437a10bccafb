/** The greedy choice of subtree levels that prover and verifier make independently. */
module Levels {
  import opened Bits
  import opened Expansion
  import opened Outcomes

  function LeastSignificantBit(x: nat): Result<nat, Error> {
    if x == 0 then Err(CannotBeZero) else Ok(Lsb(x))
  }

  function MostSignificantBit(x: nat): Result<nat, Error> {
    if x == 0 then Err(CannotBeZero) else Ok(Msb(x))
  }

  /** The mask keeps the bits up to the highest one in which the sizes differ. For bit 63 the shift
      wraps to zero and the decrement to the all-ones word, which is the same number. */
  function MaximumAppendBetween(startSize: nat, endSize: nat): Result<nat, Error> {
    if startSize >= endSize then Err(StartNotLessThanEnd)
    else
      var diff := MostSignificantBit(Xor(startSize, endSize));
      if diff.Err? then diff
      else
        var mask := Pow2(diff.value + 1) - 1;
        var y, z := And(startSize, mask), And(endSize, mask);
        if y != 0 then LeastSignificantBit(y)
        else if z != 0 then MostSignificantBit(z)
        else Err(CannotBeZero)
  }

  /** The largest level that may be appended between two sizes, found bit by bit. */
  function Level(s: nat, e: nat): (k: nat)
    requires s < e
    ensures Aligned(s, k) && s + Pow2(k) <= e
  {
    if s % 2 == 1 || e == s + 1 then 0 else 1 + Level(s / 2, e / 2)
  }

  /** k is what the loops read off the masked sizes. */
  predicate Chosen(y: nat, z: nat, k: nat) {
    if y != 0 then Lsb(y) == k else z != 0 && Msb(z) == k
  }

  lemma {:induction false} ChosenDouble(y: nat, z: nat, k: nat, b: nat)
    requires Chosen(y, z, k) && b < 2
    ensures Chosen(2 * y, 2 * z + b, k + 1)
    ensures Chosen(2 * y + 1, 2 * z + b, 0)
  {
    BitBehind(y, 0);
    BitBehind(y, 1);
    BitBehind(z, b);
  }

  /** The bit expressions of the prover's and the verifier's loop both yield Level. */
  lemma {:induction false} MaskedBits(s: nat, e: nat)
    requires s < e
    ensures Xor(s, e) > 0
    ensures var mask := Pow2(Msb(Xor(s, e)) + 1) - 1;
            Chosen(And(s, mask), And(e, mask), Level(s, e))
  {
    hide Xor, And, Msb, Lsb, Pow2;
    MsbXorHalves(s, e);
    var m := Msb(Xor(s, e));
    MaskHalf(s, m);
    MaskHalf(e, m);
    if s / 2 == e / 2 {
      NoBits(s / 2);
      ChosenBit();
    } else {
      MaskedBits(s / 2, e / 2);
      var y, z, k := And(s / 2, Pow2(m) - 1), And(e / 2, Pow2(m) - 1), Level(s / 2, e / 2);
      assert Chosen(y, z, k);
      ChosenDouble(y, z, k, e % 2);
    }
  }

  lemma {:induction false} NoBits(x: nat)
    ensures And(x, Pow2(0) - 1) == 0
  {
  }

  lemma {:induction false} ChosenBit()
    ensures Chosen(0, 1, 0)
  {
  }

  lemma {:induction false} MaskHalf(x: nat, m: nat)
    ensures And(x, Pow2(m + 1) - 1) == 2 * And(x / 2, Pow2(m) - 1) + x % 2
  {
    AndOdd(x, Pow2(m) - 1);
  }

  lemma {:induction false} MaximumAppendIsLevel(s: nat, e: nat)
    ensures MaximumAppendBetween(s, e) == if s < e then Ok(Level(s, e)) else Err(StartNotLessThanEnd)
  {
    if s < e {
      MaskedBits(s, e);
    }
  }

  /** Level is the largest k with 2^k dividing s and s + 2^k at most e. */
  lemma {:induction false} LevelIsLargest(s: nat, e: nat, k: nat)
    requires s < e
    ensures k <= Level(s, e) <==> s % Pow2(k) == 0 && s + Pow2(k) <= e
  {
    AlignedIffDivides(s, k);
    LevelIsLargestAligned(s, e, k);
  }

  lemma {:induction false} LevelIsLargestAligned(s: nat, e: nat, k: nat)
    requires s < e
    ensures k <= Level(s, e) <==> Aligned(s, k) && s + Pow2(k) <= e
  {
    if k > 0 && s % 2 == 0 && e > s + 1 {
      LevelIsLargestAligned(s / 2, e / 2, k - 1);
    }
  }

  lemma {:induction false} LevelBelow64(s: nat, e: nat)
    requires s < e < UINT64
    ensures Level(s, e) < 64
  {
    Pow64();
    if Level(s, e) >= 64 {
      Pow2Monotone(64, Level(s, e));
    }
  }

  /** The number of rounds either loop takes. */
  function Steps(s: nat, e: nat): nat
    requires s <= e
    decreases e - s
  {
    if s == e then 0 else 1 + Steps(s + Pow2(Level(s, e)), e)
  }

  lemma {:induction false} StepsUnfold(s: nat, e: nat, k: nat)
    requires s < e && k == Level(s, e)
    ensures Steps(s, e) == 1 + Steps(s + Pow2(k), e)
  {
  }

  lemma {:induction false} Pow2Next(k: nat)
    ensures Pow2(1 + k) == 2 * Pow2(k)
  {
  }

  lemma {:induction false} StepsHalve(a: nat, b: nat)
    requires a <= b
    ensures Steps(2 * a, 2 * b) == Steps(a, b)
    decreases b - a
  {
    hide Steps, Level, Pow2, Aligned;
    if a < b {
      var k := Level(a, b);
      LevelOfEven(a, b);
      Pow2Next(k);
      StepsUnfold(a, b, k);
      StepsUnfold(2 * a, 2 * b, 1 + k);
      StepsHalve(a + Pow2(k), b);
    } else {
      StepsLast(a);
      StepsLast(2 * a);
    }
  }

  lemma {:induction false} StepsToOdd(a: nat, b: nat)
    requires a <= b
    ensures Steps(2 * a, 2 * b + 1) == Steps(2 * a, 2 * b) + 1
    decreases b - a
  {
    hide Steps, Level, Pow2, Aligned;
    if a < b {
      var k := Level(a, b);
      LevelOfEven(a, b);
      Pow2Next(k);
      StepsUnfold(2 * a, 2 * b, 1 + k);
      StepsUnfold(2 * a, 2 * b + 1, 1 + k);
      StepsToOdd(a + Pow2(k), b);
    } else {
      StepsLast(2 * a);
    }
  }

  lemma {:induction false} StepsLast(s: nat)
    ensures Steps(s, s + 1) == 1 && Steps(s, s) == 0
  {
    StepsUnfold(s, s + 1, 0);
  }

  lemma {:induction false} StepsFromOdd(s: nat, e: nat)
    requires s < e && s % 2 == 1
    ensures Steps(s, e) == 1 + Steps(s + 1, e)
  {
    StepsUnfold(s, e, 0);
  }

  lemma {:induction false} LevelOfEven(a: nat, b: nat)
    requires a < b
    ensures Level(2 * a, 2 * b) == Level(2 * a, 2 * b + 1) == 1 + Level(a, b)
  {
    BitBehind(a, 0);
    BitBehind(b, 0);
    BitBehind(b, 1);
  }

  /** Peeling the lowest bit of both sizes costs at most one round for each. */
  lemma {:induction false} StepsPeel(a: nat, b: nat, s: nat, e: nat)
    requires s < e && 2 * a - 1 <= s <= 2 * a && 2 * b <= e <= 2 * b + 1
    ensures Steps(s, e) == (2 * a - s) + (e - 2 * b) + Steps(a, b)
  {
    hide Steps;
    StepsHalve(a, b);
    if e == 2 * b + 1 {
      StepsToOdd(a, b);
    }
    if s == 2 * a - 1 {
      StepsFromOdd(s, e);
    }
  }

  /** Sizes in one block of 2^(m+1) are at most 2m + 1 rounds apart. */
  lemma {:induction false} StepsInBlock(s: nat, e: nat, m: nat)
    requires s < e && Shr(s, m + 1) == Shr(e, m + 1)
    ensures Steps(s, e) <= 2 * m + 1
    decreases m
  {
    hide Level, Pow2;
    var a, b := (s + 1) / 2, e / 2;
    assert 2 * a - 1 <= s <= 2 * a && 2 * b <= e <= 2 * b + 1;
    StepsPeel(a, b, s, e);
    if a < b {
      ShrMonotone(s / 2, a, m);
      ShrMonotone(a, b, m);
      if m > 0 {
        StepsInBlock(a, b, m - 1);
      }
    } else {
      assert Steps(a, b) == 0;
    }
  }

  lemma {:induction false} ShrMonotone(x: nat, y: nat, k: nat)
    requires x <= y
    ensures Shr(x, k) <= Shr(y, k)
  {
    if k > 0 {
      ShrMonotone(x / 2, y / 2, k - 1);
    }
  }

  lemma {:induction false} AgreeAboveMsb(s: nat, e: nat)
    requires s != e
    ensures Xor(s, e) > 0 && Shr(s, Msb(Xor(s, e)) + 1) == Shr(e, Msb(Xor(s, e)) + 1)
    decreases s + e
  {
    MsbXorHalves(s, e);
    if s / 2 != e / 2 {
      AgreeAboveMsb(s / 2, e / 2);
    } else {
      assert Shr(s, 1) == Shr(s / 2, 0) && Shr(e, 1) == Shr(e / 2, 0);
    }
  }

  /** Prover and verifier take at most 2 msb(s xor e) + 1 rounds. */
  lemma {:induction false} StepsBound(s: nat, e: nat)
    requires s < e
    ensures Xor(s, e) > 0 && Steps(s, e) <= 2 * Msb(Xor(s, e)) + 1
  {
    AgreeAboveMsb(s, e);
    StepsInBlock(s, e, Msb(Xor(s, e)));
  }
}
