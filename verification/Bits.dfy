/** Bit operations on unsigned words, and two's complement views of them. */
module Bits {

  const TWO32: nat := 0x1_0000_0000
  const TWO64: nat := 0x1_0000_0000_0000_0000

  function Pow2(n: nat): (p: nat)
    ensures p > 0
  {
    if n == 0 then 1 else 2 * Pow2(n - 1)
  }

  /** The bitwise or of two words. */
  function BitOr(x: nat, y: nat): nat {
    if x == 0 then y
    else if y == 0 then x
    else 2 * BitOr(x / 2, y / 2) + (if x % 2 == 1 || y % 2 == 1 then 1 else 0)
  }

  /** Bit `k` of a word, counted from the least significant end. */
  predicate Bit(x: nat, k: nat) {
    if k == 0 then x % 2 == 1 else Bit(x / 2, k - 1)
  }

  lemma {:induction false} BitOfZero(k: nat)
    ensures !Bit(0, k)
  {
    if k > 0 { BitOfZero(k - 1); }
  }

  lemma {:induction false} BitOfBitOr(x: nat, y: nat, k: nat)
    ensures Bit(BitOr(x, y), k) <==> Bit(x, k) || Bit(y, k)
  {
    if x == 0 || y == 0 {
      BitOfZero(k);
    } else if k > 0 {
      BitOfBitOr(x / 2, y / 2, k - 1);
    }
  }

  lemma {:induction false} BitOfPow2(n: nat, k: nat)
    ensures Bit(Pow2(n), k) <==> k == n
  {
    if n == 0 {
      if k > 0 { BitOfZero(k - 1); }
    } else if k > 0 {
      BitOfPow2(n - 1, k - 1);
    }
  }

  /** Or-ing a high part onto a low part that does not overlap it is addition. */
  lemma {:induction false} BitOrDisjoint(low: nat, high: nat, k: nat)
    requires low < Pow2(k)
    ensures BitOr(low, high * Pow2(k)) == low + high * Pow2(k)
  {
    if k > 0 && low > 0 && high > 0 {
      assert high * Pow2(k) == 2 * (high * Pow2(k - 1));
      BitOrDisjoint(low / 2, high, k - 1);
    }
  }

  lemma {:induction false} BitOrBound(x: nat, y: nat, n: nat)
    requires x < Pow2(n) && y < Pow2(n)
    ensures BitOr(x, y) < Pow2(n)
  {
    if n > 0 && x > 0 && y > 0 {
      BitOrBound(x / 2, y / 2, n - 1);
    }
  }

  predicate LowBitsSet(x: nat, n: nat) {
    forall k: nat :: k < n ==> Bit(x, k)
  }

  /** An n-bit word is all ones exactly when each of its n bits is set. */
  lemma {:induction false} AllOnes(x: nat, n: nat)
    requires x < Pow2(n)
    ensures x == Pow2(n) - 1 <==> LowBitsSet(x, n)
  {
    if n > 0 {
      AllOnes(x / 2, n - 1);
      if LowBitsSet(x, n) {
        assert Bit(x, 0);
        forall k: nat | k < n - 1 ensures Bit(x / 2, k) { assert Bit(x, k + 1); }
      }
      if x == Pow2(n) - 1 {
        forall k: nat | k < n ensures Bit(x, k) {
          if k > 0 {
            assert LowBitsSet(x / 2, n - 1);
            assert Bit(x / 2, k - 1);
          }
        }
      }
    }
  }

  lemma {:induction false} Pow2Adds(m: nat, n: nat)
    ensures Pow2(m + n) == Pow2(m) * Pow2(n)
  {
    if m > 0 {
      Pow2Adds(m - 1, n);
      assert 2 * (Pow2(m - 1) * Pow2(n)) == Pow2(m) * Pow2(n);
    }
  }

  lemma Product(m: nat, a: nat, n: nat, b: nat)
    requires Pow2(m) == a && Pow2(n) == b
    ensures Pow2(m + n) == a * b
  {
    hide Pow2;
    Pow2Adds(m, n);
  }

  lemma Pow2Words()
    ensures Pow2(7) == 128 && Pow2(28) == 0x1000_0000 && Pow2(31) == 0x8000_0000
    ensures Pow2(32) == TWO32 && Pow2(64) == TWO64
  {
    assert Pow2(3) == 8 && Pow2(1) == 2;
    hide Pow2;
    Product(3, 8, 3, 8);
    Product(6, 64, 1, 2);
    Product(7, 128, 7, 128);
    Product(14, 0x4000, 14, 0x4000);
    Product(28, 0x1000_0000, 3, 8);
    Product(31, 0x8000_0000, 1, 2);
    Product(32, TWO32, 32, TWO32);
  }

  /** A word is determined by its bits. */
  lemma {:induction false} SameBits(x: nat, y: nat)
    requires forall k: nat :: Bit(x, k) <==> Bit(y, k)
    ensures x == y
    decreases x + y
  {
    if x + y > 0 {
      assert Bit(x, 0) <==> Bit(y, 0);
      forall k: nat ensures Bit(x / 2, k) <==> Bit(y / 2, k) {
        assert Bit(x, k + 1) <==> Bit(y, k + 1);
      }
      SameBits(x / 2, y / 2);
    }
  }

  lemma {:induction false} BitOfShift(x: nat, n: nat, k: nat)
    ensures Bit(x * Pow2(n), k) <==> k >= n && Bit(x, k - n)
  {
    if n > 0 {
      assert x * Pow2(n) == 2 * (x * Pow2(n - 1));
      if k > 0 { BitOfShift(x, n - 1, k - 1); }
    }
  }

  /** The low bits `x` of a word whose other bits are `y`. */
  lemma {:induction false} BitOfJoin(x: nat, y: nat, n: nat, k: nat)
    requires x < Pow2(n)
    ensures Bit(x + y * Pow2(n), k) <==> if k < n then Bit(x, k) else Bit(y, k - n)
  {
    if n > 0 {
      JoinHalves(x, y, Pow2(n - 1));
      if k > 0 { BitOfJoin(x / 2, y, n - 1, k - 1); }
    } else {
      assert y * Pow2(0) == y;
    }
  }

  lemma JoinHalves(x: nat, y: nat, p: nat)
    ensures var z := x + y * (2 * p); 0 <= y * p && z >= 0 && z % 2 == x % 2 && z / 2 == x / 2 + y * p
  {
    var h: nat := y * p;
    assert y * (2 * p) == 2 * h;
  }

  lemma QuotientAndRemainder(x: nat, p: nat)
    requires p > 0
    ensures 0 <= x / p && x % p < p && x % p + x / p * p == x
  {
  }

  lemma BitOfMod(x: nat, n: nat, k: nat)
    ensures Bit(x % Pow2(n), k) <==> k < n && Bit(x, k)
  {
    hide Bit, Pow2;
    var low, high := x % Pow2(n), x / Pow2(n);
    QuotientAndRemainder(x, Pow2(n));
    BitOfJoin(low, high, n, k);
    BitOfJoin(low, 0, n, k);
    if k >= n { BitOfZero(k - n); }
  }

  /** Number of values of a C integer of `size` bytes. */
  function Modulus(size: nat): (m: nat)
    ensures m > 0
  {
    if size == 1 then 0x100 else if size == 2 then 0x1_0000 else if size == 4 then TWO32
    else if size == 8 then TWO64 else 1
  }

  /** A cast to a signed C integer of `size` bytes: wraps around two's complement. */
  function SignedCast(x: int, size: nat): int {
    var w := x % Modulus(size);
    if 2 * w < Modulus(size) then w else w - Modulus(size)
  }

  predicate InSigned(x: int, size: nat) {
    2 * x < Modulus(size) && 0 <= 2 * x + Modulus(size)
  }

  predicate InUnsigned(x: int, size: nat) {
    0 <= x < Modulus(size)
  }

  lemma SignedCastKeeps(x: int, size: nat)
    requires size == 1 || size == 2 || size == 4 || size == 8
    ensures InSigned(SignedCast(x, size), size)
    ensures SignedCast(x, size) == x <==> InSigned(x, size)
  {
  }
}
