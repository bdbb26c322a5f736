/**
 * Machine integers and bit arithmetic shared by the Bloom filter model.
 *
 * Hash values, word counts and counters are C++ `u64`/`usize` values; they are
 * modelled as bounded naturals, and the `&` the filter applies to them is the
 * explicit `BitAnd` below.  The filter's 64-bit words are `bv64` values, on
 * which `|`, `&` and `<<` are Dafny's own bit-vector operators.
 */
module Bits {

  /** An unsigned 64-bit value (`u64`, `usize`). */
  type u64 = x: int | 0 <= x < 0x1_0000_0000_0000_0000

  /** An unsigned 16-bit value (`u16`), the width of the stored hash count. */
  type u16 = x: int | 0 <= x < 0x1_0000

  /** 2 raised to the power k. */
  function Pow2(k: nat): (p: nat)
    ensures p >= 1
  {
    if k == 0 then 1 else 2 * Pow2(k - 1)
  }

  /** n is 1, 2, 4, 8, ... */
  predicate IsPowerOfTwo(n: nat)
  {
    n == 1 || (n >= 2 && n % 2 == 0 && IsPowerOfTwo(n / 2))
  }

  lemma {:induction false} Pow2IsPowerOfTwo(k: nat)
    ensures IsPowerOfTwo(Pow2(k))
  {
    if k > 0 {
      Pow2IsPowerOfTwo(k - 1);
      assert Pow2(k) / 2 == Pow2(k - 1);
    }
  }

  /** Every power of two is Pow2(k) for some exponent k. */
  lemma {:induction false} PowerOfTwoExponent(n: nat) returns (k: nat)
    requires IsPowerOfTwo(n)
    ensures Pow2(k) == n
  {
    if n == 1 {
      k := 0;
    } else {
      var k' := PowerOfTwoExponent(n / 2);
      k := k' + 1;
    }
  }

  /**
   * The smallest k with 2^k >= x (`batt::log2_ceil`, which is not part of this
   * model; only the property it is used for is).
   */
  function Log2Ceil(x: nat): (k: nat)
    requires x >= 1
    ensures Pow2(k) >= x
    ensures k == 0 || Pow2(k - 1) < x
  {
    if x == 1 then 0 else 1 + Log2Ceil((x + 1) / 2)
  }

  /** Bitwise AND of two naturals, bit by bit from the least significant one. */
  function BitAnd(a: nat, b: nat): (r: nat)
    ensures r <= a && r <= b
  {
    if a == 0 || b == 0 then 0
    else 2 * BitAnd(a / 2, b / 2) + (if a % 2 == 1 && b % 2 == 1 then 1 else 0)
  }

  lemma MulAtLeast(d: nat, x: nat)
    requires x >= 1
    ensures d * x >= d
  {
  }

  /** a = d*q + r with 0 <= r < d fixes the remainder. */
  lemma ModOfDecomposition(a: nat, d: nat, q: nat, r: nat)
    requires d > 0 && r < d && a == d * q + r
    ensures a % d == r
  {
    var q', r' := a / d, a % d;
    assert a == d * q' + r';
    if q' > q {
      assert d * q' == d * q + d * (q' - q);
      MulAtLeast(d, q' - q);
      assert false;
    } else if q' < q {
      assert d * q == d * q' + d * (q - q');
      MulAtLeast(d, q - q');
      assert false;
    }
  }

  /** Reducing modulo 2p splits into the lowest bit and a reduction modulo p of the rest. */
  lemma ModDouble(a: nat, p: nat)
    requires p > 0
    ensures a % (2 * p) == 2 * ((a / 2) % p) + a % 2
  {
    var h, t, s := a / 2, (a / 2) % p, (a / 2) / p;
    assert h == p * s + t;
    assert a == 2 * h + a % 2;
    assert 2 * h == (2 * p) * s + 2 * t;
    ModOfDecomposition(a, 2 * p, s, 2 * t + a % 2);
  }

  /** ANDing with an odd mask keeps the lowest bit and ANDs the rest with half the mask. */
  lemma BitAndOddStep(a: nat, m: nat)
    requires a > 0 && m % 2 == 1
    ensures BitAnd(a, m) == 2 * BitAnd(a / 2, m / 2) + a % 2
  {
  }

  /** 2^k - 1 for k > 0 is odd, and half of it is 2^(k-1) - 1. */
  lemma LowMaskHalf(k: nat)
    requires k > 0
    ensures Pow2(k) == 2 * Pow2(k - 1)
    ensures (Pow2(k) - 1) % 2 == 1 && (Pow2(k) - 1) / 2 == Pow2(k - 1) - 1
  {
    var p := Pow2(k - 1);
    assert Pow2(k) - 1 == 2 * (p - 1) + 1;
  }

  /** The inductive step of BitAndLowMask: from the low k - 1 bits of a / 2 to the low k bits of a. */
  lemma BitAndLowMaskStep(a: nat, k: nat)
    requires k > 0 && a > 0
    requires BitAnd(a / 2, Pow2(k - 1) - 1) == (a / 2) % Pow2(k - 1)
    ensures BitAnd(a, Pow2(k) - 1) == a % Pow2(k)
  {
    LowMaskHalf(k);
    calc {
      BitAnd(a, Pow2(k) - 1);
      == { BitAndOddStep(a, Pow2(k) - 1); }
      2 * BitAnd(a / 2, Pow2(k - 1) - 1) + a % 2;
      == { ModDouble(a, Pow2(k - 1)); }
      a % (2 * Pow2(k - 1));
    }
  }

  /** Masking with 2^k - 1 keeps the low k bits, i.e. it is reduction modulo 2^k. */
  lemma {:induction false} BitAndLowMask(a: nat, k: nat)
    ensures BitAnd(a, Pow2(k) - 1) == a % Pow2(k)
  {
    if k > 0 && a > 0 {
      BitAndLowMask(a / 2, k - 1);
      BitAndLowMaskStep(a, k);
    } else if k == 0 {
      assert Pow2(k) == 1;
    } else {
      ModOfDecomposition(a, Pow2(k), 0, 0);
    }
  }

  /** u64{1} << b: the word whose only set bit is bit b. */
  function SingleBit(b: bv6): bv64
  {
    (1 as bv64) << b
  }

  /** Bit j of w is set: w & (1 << j) != 0. */
  predicate TestBit(w: bv64, j: bv6)
  {
    w & SingleBit(j) != 0
  }

  /** 1 << b has bit b set and no other bit. */
  lemma SingleBitExactlyOne(b: bv6)
    ensures forall j: bv6 :: TestBit(SingleBit(b), j) <==> j == b
  {
  }

  /** & distributes over |. */
  lemma AndOverOr(x: bv64, y: bv64, m: bv64)
    ensures (x | y) & m == (x & m) | (y & m)
  {
  }

  /** An OR is non-zero exactly when one of its operands is. */
  lemma OrNonZero(a: bv64, b: bv64)
    ensures a | b != 0 <==> a != 0 || b != 0
  {
  }

  /** A bit is set in an OR exactly when it is set in one of the operands. */
  lemma OrBit(x: bv64, y: bv64, j: bv6)
    ensures TestBit(x | y, j) <==> TestBit(x, j) || TestBit(y, j)
  {
    var m := SingleBit(j);
    AndOverOr(x, y, m);
    OrNonZero(x & m, y & m);
  }

  /** Every bit set in `small` is set in `big`. */
  predicate Covers(big: bv64, small: bv64)
  {
    big | small == big
  }

  /** A bit set in a covered word is set in the covering word. */
  lemma CoversBit(big: bv64, small: bv64, j: bv6)
    requires Covers(big, small) && TestBit(small, j)
    ensures TestBit(big, j)
  {
    OrBit(big, small, j);
  }

  /** A word covers an OR exactly when it covers both operands. */
  lemma CoversOr(z: bv64, a: bv64, b: bv64)
    ensures Covers(z, a | b) <==> Covers(z, a) && Covers(z, b)
  {
    if Covers(z, a) && Covers(z, b) {
      assert z | (a | b) == (z | a) | b;
    }
    if Covers(z, a | b) {
      assert z | a == (z | (a | b)) | a;
      assert (z | (a | b)) | a == z | (a | b);
      assert z | b == (z | (a | b)) | b;
      assert (z | (a | b)) | b == z | (a | b);
    }
  }
}
