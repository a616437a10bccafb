/** Unsigned 64-bit words as naturals: powers of two, most and least significant bits, and the
    bitwise operators the Go code uses, all defined by halving. */
module Bits {

  const UINT64: nat := 0x1_0000_0000_0000_0000

  function Pow2(n: nat): (r: nat)
    ensures r > 0
  {
    if n == 0 then 1 else 2 * Pow2(n - 1)
  }

  /** bits.TrailingZeros64 of a non-zero word. */
  function Lsb(x: nat): nat
    requires x > 0
  {
    if x % 2 == 1 then 0 else 1 + Lsb(x / 2)
  }

  /** 63 - bits.LeadingZeros64 of a non-zero word. */
  function Msb(x: nat): nat
    requires x > 0
  {
    if x == 1 then 0 else 1 + Msb(x / 2)
  }

  function Xor(a: nat, b: nat): nat {
    if a == 0 && b == 0 then 0 else 2 * Xor(a / 2, b / 2) + (if a % 2 == b % 2 then 0 else 1)
  }

  function And(a: nat, b: nat): nat {
    if a == 0 || b == 0 then 0 else 2 * And(a / 2, b / 2) + (if a % 2 == 1 && b % 2 == 1 then 1 else 0)
  }

  /** x >> k. */
  function Shr(x: nat, k: nat): nat {
    if k == 0 then x else Shr(x / 2, k - 1)
  }

  /** The low k bits of x are zero. */
  predicate Aligned(x: nat, k: nat) {
    k == 0 || (x % 2 == 0 && Aligned(x / 2, k - 1))
  }

  lemma {:induction false} AlignedIffDivides(x: nat, k: nat)
    ensures Aligned(x, k) <==> x % Pow2(k) == 0
  {
    if k > 0 {
      AlignedIffDivides(x / 2, k - 1);
      ModDouble(x, Pow2(k - 1));
    }
  }

  lemma {:induction false} Pow2Plus8(n: nat)
    ensures Pow2(n + 8) == 256 * Pow2(n)
  {
    assert Pow2(n + 2) == 4 * Pow2(n);
    assert Pow2(n + 4) == 4 * Pow2(n + 2);
    assert Pow2(n + 6) == 4 * Pow2(n + 4);
    assert Pow2(n + 8) == 4 * Pow2(n + 6);
  }

  lemma {:induction false} Pow64()
    ensures Pow2(64) == UINT64
  {
    Pow2Plus8(0);
    Pow2Plus8(8);
    Pow2Plus8(16);
    Pow2Plus8(24);
    Pow2Plus8(32);
    Pow2Plus8(40);
    Pow2Plus8(48);
    Pow2Plus8(56);
  }

  lemma {:induction false} Pow2Monotone(a: nat, b: nat)
    requires a <= b
    ensures Pow2(a) <= Pow2(b)
  {
    if a < b {
      Pow2Monotone(a, b - 1);
    }
  }

  lemma {:induction false} MsbBounds(x: nat)
    requires x > 0
    ensures Pow2(Msb(x)) <= x < Pow2(Msb(x) + 1)
  {
    if x > 1 {
      MsbBounds(x / 2);
    }
  }

  /** A number with one bit put behind it. */
  lemma {:induction false} BitBehind(h: nat, b: nat)
    requires b < 2
    ensures (2 * h + b) / 2 == h && (2 * h + b) % 2 == b
  {
  }

  /** Remainders by an even number, one bit at a time. */
  lemma {:induction false} ModDouble(x: nat, b: nat)
    requires b > 0
    ensures x % (2 * b) == 2 * ((x / 2) % b) + x % 2
    ensures x / (2 * b) == (x / 2) / b
  {
    var q, r := (x / 2) / b, (x / 2) % b;
    assert x / 2 == q * b + r;
    assert x == q * (2 * b) + (2 * r + x % 2);
    DivModUnique(x, 2 * b, q, 2 * r + x % 2);
  }

  lemma {:induction false} DivModUnique(x: nat, d: nat, q: nat, r: nat)
    requires d > 0 && r < d && x == q * d + r
    ensures x / d == q && x % d == r
  {
    var q', r' := x / d, x % d;
    assert x == q' * d + r';
    if q > q' {
      MulAtLeast(q - q', d);
    } else if q < q' {
      MulAtLeast(q' - q, d);
    }
  }

  lemma {:induction false} MulAtLeast(a: nat, d: nat)
    requires a > 0
    ensures a * d >= d
  {
    assert a * d == (a - 1) * d + d;
  }

  lemma {:induction false} MulMonotone(a: nat, c: nat, b: nat)
    requires a <= c
    ensures a * b <= c * b
  {
    assert c * b == a * b + (c - a) * b;
  }

  lemma {:induction false} AndOdd(x: nat, p: nat)
    ensures And(x, 2 * p + 1) == 2 * And(x / 2, p) + x % 2
  {
  }

  /** x with its low m bits cleared. */
  function Clear(x: nat, m: nat): nat {
    if m == 0 then x else 2 * Clear(x / 2, m - 1)
  }

  lemma {:induction false} AndFull(x: nat, n: nat)
    requires x < Pow2(n)
    ensures And(x, Pow2(n) - 1) == x
  {
    if n > 0 {
      AndFull(x / 2, n - 1);
      AndOdd(x, Pow2(n - 1) - 1);
    }
  }

  /** Masking a word below 2^n with the ones from bit m to bit n - 1 clears its low m bits. */
  lemma {:induction false} AndHighMask(x: nat, n: nat, m: nat, mask: nat)
    requires m <= n && x < Pow2(n) && mask + Pow2(m) == Pow2(n)
    ensures And(x, mask) == Clear(x, m)
  {
    if m == 0 {
      AndFull(x, n);
    } else {
      AndHighMask(x / 2, n - 1, m - 1, mask / 2);
    }
  }

  lemma {:induction false} XorZero(a: nat, b: nat)
    ensures Xor(a, b) == 0 <==> a == b
    decreases a + b
  {
    if a > 0 || b > 0 {
      XorZero(a / 2, b / 2);
    }
  }

  /** The highest differing bit of two words, one bit at a time. */
  lemma {:induction false} MsbXorHalves(a: nat, b: nat)
    requires a != b
    ensures Xor(a, b) > 0
    ensures a / 2 == b / 2 ==> Msb(Xor(a, b)) == 0
    ensures a / 2 != b / 2 ==> Xor(a / 2, b / 2) > 0 && Msb(Xor(a, b)) == 1 + Msb(Xor(a / 2, b / 2))
  {
    XorZero(a, b);
    XorZero(a / 2, b / 2);
  }

  lemma {:induction false} XorBound(a: nat, b: nat, n: nat)
    requires a < Pow2(n) && b < Pow2(n)
    ensures Xor(a, b) < Pow2(n)
  {
    if n > 0 {
      XorBound(a / 2, b / 2, n - 1);
    }
  }

  /** Flipping the lowest bit. */
  lemma {:induction false} XorOne(x: nat)
    ensures Xor(x, 1) == if x % 2 == 0 then x + 1 else x - 1
  {
    XorRightZero(x / 2);
  }

  lemma {:induction false} XorRightZero(x: nat)
    ensures Xor(x, 0) == x
  {
    if x > 0 {
      XorRightZero(x / 2);
    }
  }

  lemma {:induction false} ShrStep(x: nat, k: nat)
    ensures Shr(x, k + 1) == Shr(x, k) / 2
  {
    if k > 0 {
      ShrStep(x / 2, k - 1);
    }
  }

  lemma {:induction false} ShrZero(x: nat, k: nat)
    ensures Shr(x, k) == 0 <==> x < Pow2(k)
  {
    if k > 0 {
      ShrZero(x / 2, k - 1);
    }
  }

  /** Testing a single bit. */
  lemma {:induction false} AndBit(k: nat, x: nat)
    ensures And(Pow2(k), x) != 0 <==> Shr(x, k) % 2 == 1
  {
    if k == 0 {
      assert And(0, x / 2) == 0;
    } else {
      AndBit(k - 1, x / 2);
      AndEven(Pow2(k - 1), x);
    }
  }

  lemma {:induction false} AndEven(p: nat, x: nat)
    ensures And(2 * p, x) == 2 * And(p, x / 2)
  {
  }
}
