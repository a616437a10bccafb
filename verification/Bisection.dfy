/** The deterministic bisection point and the interval tree it defines. */
module Bisection {
  import opened Bits

  datatype Outcome = Point(height: nat) | UnableToBisect | NegativeShift

  /** Bisect on 64-bit words, wrap-around of pre + 2 included. */
  function Bisect(pre: nat, post: nat): Outcome
    requires pre < UINT64 && post < UINT64
  {
    var next := (pre + 2) % UINT64;
    if next > post then UnableToBisect
    else if next == post then Point((pre + 1) % UINT64)
    else
      var diff := Xor(post - 1, pre);
      if diff == 0 then NegativeShift
      else
        XorBelow64(post - 1, pre);
        Point(And(post - 1, UINT64 - Pow2(Msb(diff))))
  }

  lemma {:induction false} XorBelow64(a: nat, b: nat)
    requires a < UINT64 && b < UINT64 && Xor(a, b) > 0
    ensures Msb(Xor(a, b)) < 64 && Pow2(Msb(Xor(a, b))) <= UINT64
  {
    Pow64();
    XorBound(a, b, 64);
    MsbBounds(Xor(a, b));
    if Msb(Xor(a, b)) >= 64 {
      Pow2Monotone(64, Msb(Xor(a, b)));
    }
  }

  /** The number in (pre, q] with the most trailing zeros. */
  function Roundest(pre: nat, q: nat): (r: nat)
    requires pre < q
    ensures pre < r <= q
  {
    if pre / 2 == q / 2 then q else 2 * Roundest(pre / 2, q / 2)
  }

  function Mid(pre: nat, post: nat): (r: nat)
    requires pre + 2 <= post
    ensures pre < r < post
  {
    Roundest(pre, post - 1)
  }

  lemma {:induction false} ClearIsRoundest(pre: nat, q: nat)
    requires pre < q
    ensures Xor(q, pre) > 0 && Clear(q, Msb(Xor(q, pre))) == Roundest(pre, q)
  {
    MsbXorHalves(q, pre);
    if pre / 2 != q / 2 {
      ClearIsRoundest(pre / 2, q / 2);
    }
  }

  /** On every bisectable range the code returns Mid; the branch for a difference of two is no exception. */
  lemma {:induction false} BisectIsMid(pre: nat, post: nat)
    requires pre + 2 <= post < UINT64
    ensures Bisect(pre, post) == Point(Mid(pre, post))
  {
    hide Roundest, Xor, And, Msb, Pow2;
    if pre + 2 < post {
      MaskedIsRoundest(pre, post - 1);
    }
  }

  lemma {:induction false} MaskedIsRoundest(pre: nat, q: nat)
    requires pre < q < UINT64
    ensures Xor(q, pre) > 0 && Pow2(Msb(Xor(q, pre))) <= UINT64
    ensures And(q, UINT64 - Pow2(Msb(Xor(q, pre)))) == Roundest(pre, q)
  {
    ClearIsRoundest(pre, q);
    XorBelow64(q, pre);
    Pow64();
    AndHighMask(q, 64, Msb(Xor(q, pre)), UINT64 - Pow2(Msb(Xor(q, pre))));
  }

  /** Refusing exactly the ranges shorter than two holds unless pre + 2 wraps. */
  lemma {:induction false} BisectRefusesIff(pre: nat, post: nat)
    requires pre < UINT64 && post < UINT64
    ensures (Bisect(pre, post) == UnableToBisect <==> post < pre + 2)
       <==> pre < UINT64 - 2 || (pre == UINT64 - 1 && post == 0)
    ensures Bisect(pre, post) == NegativeShift <==> pre == UINT64 - 2 && post == UINT64 - 1
  {
    if pre + 2 <= post {
      BisectIsMid(pre, post);
    }
    if post > 0 {
      XorZero(post - 1, pre);
    }
  }

  /** From the last word, pre + 2 wraps to 1: an empty range is not refused. */
  lemma {:induction false} BisectWraps()
    ensures Bisect(UINT64 - 1, 1) == Point(0)
  {
  }

  /** Mid is the unique number strictly between with the most trailing zero bits. */
  lemma {:induction false} MidIsCanonical(pre: nat, post: nat, x: nat)
    requires pre + 2 <= post && pre < x < post && x != Mid(pre, post)
    ensures Lsb(x) < Lsb(Mid(pre, post))
  {
    RoundestIsCanonical(pre, post - 1, x);
  }

  lemma {:induction false} RoundestIsCanonical(pre: nat, q: nat, x: nat)
    requires pre < x <= q && x != Roundest(pre, q)
    ensures Lsb(x) < Lsb(Roundest(pre, q))
  {
    if x % 2 == 0 {
      RoundestIsCanonical(pre / 2, q / 2, x / 2);
    }
  }

  // ----- depth -----

  /** The number of low bits up to the highest one in which two words differ. */
  function DiffBits(x: nat, y: nat): nat
    decreases x + y
  {
    if x == y then 0 else 1 + DiffBits(x / 2, y / 2)
  }

  /** How far pre and the last height below post differ. */
  function Rank(pre: nat, post: nat): nat
    requires pre < post
  {
    DiffBits(pre, post - 1)
  }

  lemma {:induction false} RankIsMsb(pre: nat, post: nat)
    requires pre + 2 <= post
    ensures Xor(post - 1, pre) > 0 && Rank(pre, post) == Msb(Xor(post - 1, pre)) + 1
  {
    DiffBitsIsMsb(pre, post - 1);
  }

  lemma {:induction false} DiffBitsIsMsb(x: nat, y: nat)
    requires x != y
    ensures Xor(y, x) > 0 && DiffBits(x, y) == Msb(Xor(y, x)) + 1
    decreases x + y
  {
    MsbXorHalves(y, x);
    if x / 2 != y / 2 {
      DiffBitsIsMsb(x / 2, y / 2);
    }
  }

  /** Both halves have a smaller rank, so every bisection lowers it. */
  lemma {:induction false} RankFalls(pre: nat, post: nat)
    requires pre + 2 <= post
    ensures Rank(pre, Mid(pre, post)) < Rank(pre, post)
    ensures Rank(Mid(pre, post), post) < Rank(pre, post)
  {
    RankFallsHalves(pre, post - 1);
  }

  lemma {:induction false} RankFallsHalves(pre: nat, q: nat)
    requires pre < q
    ensures DiffBits(pre, Roundest(pre, q) - 1) < DiffBits(pre, q)
    ensures DiffBits(Roundest(pre, q), q) < DiffBits(pre, q)
  {
    hide DiffBits;
    var r := Roundest(pre, q);
    DiffBitsStep(pre, q);
    if pre / 2 == q / 2 {
      DiffBitsStep(q, q);
      DiffBitsStep(pre, pre);
    } else {
      RankFallsHalves(pre / 2, q / 2);
      var d := Roundest(pre / 2, q / 2);
      assert (2 * d - 1) / 2 == d - 1;
      DiffBitsStep(pre, r - 1);
      DiffBitsStep(r, q);
    }
  }

  lemma {:induction false} DiffBitsStep(x: nat, y: nat)
    ensures DiffBits(x, y) == if x == y then 0 else 1 + DiffBits(x / 2, y / 2)
    ensures DiffBits(x, y) <= 1 + DiffBits(x / 2, y / 2)
  {
  }

  lemma {:induction false} RankAtMost64(pre: nat, post: nat)
    requires pre < post < UINT64
    ensures Rank(pre, post) <= 64
  {
    if post > pre + 1 {
      RankIsMsb(pre, post);
      XorBelow64(post - 1, pre);
    }
  }

  // ----- the interval tree -----

  datatype Interval = Interval(start: nat, end: nat)

  predicate Divisible(i: Interval) {
    i.start + 2 <= i.end
  }

  function Lower(i: Interval): Interval
    requires Divisible(i)
  {
    Interval(i.start, Mid(i.start, i.end))
  }

  function Upper(i: Interval): Interval
    requires Divisible(i)
  {
    Interval(Mid(i.start, i.end), i.end)
  }

  predicate IsHalf(parent: Interval, child: Interval) {
    Divisible(parent) && (child == Lower(parent) || child == Upper(parent))
  }

  /** Each interval is a half of the one before it. */
  ghost predicate Halvings(chain: seq<Interval>) {
    |chain| > 0 && forall i :: 0 < i < |chain| ==> IsHalf(chain[i - 1], chain[i])
  }

  lemma {:induction false} RankPaysForHalvings(chain: seq<Interval>)
    requires Halvings(chain) && chain[0].start < chain[0].end
    ensures var last := chain[|chain| - 1];
            last.start < last.end && |chain| - 1 + Rank(last.start, last.end) <= Rank(chain[0].start, chain[0].end)
  {
    hide Rank, Mid;
    var n := |chain| - 1;
    if n > 0 {
      RankPaysForHalvings(chain[..n]);
      assert IsHalf(chain[n - 1], chain[n]);
      RankFalls(chain[n - 1].start, chain[n - 1].end);
    }
  }

  /** However a range of 64-bit heights is bisected, it takes at most 64 steps. */
  lemma {:induction false} BisectionDepth(chain: seq<Interval>)
    requires Halvings(chain) && chain[0].start < chain[0].end < UINT64
    ensures |chain| - 1 <= 64
  {
    RankPaysForHalvings(chain);
    RankAtMost64(chain[0].start, chain[0].end);
  }

  /** x is reached from root by repeated bisection. */
  predicate InTree(root: Interval, x: Interval)
    decreases root.end - root.start
  {
    x == root || (Divisible(root) && (InTree(Lower(root), x) || InTree(Upper(root), x)))
  }

  predicate Within(x: Interval, y: Interval) {
    y.start <= x.start < x.end <= y.end
  }

  lemma {:induction false} InTreeWithin(root: Interval, x: Interval)
    requires InTree(root, x) && root.start < root.end
    ensures Within(x, root)
    decreases root.end - root.start
  {
    if x != root {
      if InTree(Lower(root), x) {
        InTreeWithin(Lower(root), x);
      } else {
        InTreeWithin(Upper(root), x);
      }
    }
  }

  lemma {:induction false} InTreeExtend(root: Interval, p: Interval, c: Interval)
    requires InTree(root, p) && IsHalf(p, c)
    ensures InTree(root, c)
    decreases root.end - root.start
  {
    if p == root {
      assert InTree(c, c);
    } else if InTree(Lower(root), p) {
      InTreeExtend(Lower(root), p, c);
    } else {
      InTreeExtend(Upper(root), p, c);
    }
  }

  /** The tree is laminar: two of its intervals are nested in the tree or do not overlap. */
  lemma {:induction false} Laminar(root: Interval, x: Interval, y: Interval)
    requires root.start < root.end && InTree(root, x) && InTree(root, y)
    ensures InTree(x, y) || InTree(y, x) || x.end <= y.start || y.end <= x.start
    decreases root.end - root.start
  {
    if x != root && y != root {
      var lo, hi := Lower(root), Upper(root);
      if InTree(lo, x) {
        InTreeWithin(lo, x);
        if InTree(lo, y) {
          Laminar(lo, x, y);
        } else {
          InTreeWithin(hi, y);
        }
      } else {
        InTreeWithin(hi, x);
        if InTree(hi, y) {
          Laminar(hi, x, y);
        } else {
          InTreeWithin(lo, y);
        }
      }
    }
  }

  /** An interval of the tree is a half of only one other. */
  lemma {:induction false} ParentUnique(root: Interval, p: Interval, q: Interval, c: Interval)
    requires root.start < root.end && InTree(root, p) && InTree(root, q)
    requires IsHalf(p, c) && IsHalf(q, c)
    ensures p == q
  {
    Laminar(root, p, q);
    if p != q {
      if InTree(p, q) {
        HalfContainsNoParent(p, q, c);
      } else {
        HalfContainsNoParent(q, p, c);
      }
    }
  }

  lemma {:induction false} HalfContainsNoParent(p: Interval, q: Interval, c: Interval)
    requires InTree(p, q) && IsHalf(p, c) && IsHalf(q, c)
    ensures p == q
  {
    if p != q {
      if InTree(Lower(p), q) {
        InTreeWithin(Lower(p), q);
      } else {
        InTreeWithin(Upper(p), q);
      }
    }
  }
}
