/**
 Unsigned 64-bit words as numbers below 2^64, with the bit operations the code uses on them.

 Powers of two, single bits, shifts, bitwise and, bitwise or, each defined on the binary digits of a
 number; and what the code relies on: masking with 2^k - 1 is the remainder modulo 2^k, masking with the
 bits from k on compares exactly those bits, and a number whose low bits are all set is one less than a
 power of two.
 */
module Bits {

  function Pow2(k: nat): (p: nat)
    ensures p >= 1
  {
    if k == 0 then 1 else 2 * Pow2(k - 1)
  }

  /** Unsigned arithmetic is modulo 2^64. */
  const WORD_BITS := 64
  const WORD := 0x1_0000_0000_0000_0000
  const HALF := 0x8000_0000_0000_0000

  lemma Pow2Of4(k: nat)
    requires k == 4
    ensures Pow2(k) == 16
  {
    assert Pow2(k - 4) == 1;
    assert Pow2(k - 2) == 4;
  }

  lemma WordIsPow2()
    ensures Pow2(WORD_BITS) == WORD && Pow2(WORD_BITS - 1) == HALF
  {
    var k := WORD_BITS / 16;
    Pow2Of4(k);
    Pow2Sum(k, k);
    Pow2Sum(2 * k, 2 * k);
    Pow2Sum(4 * k, 4 * k);
    Pow2Sum(8 * k, 8 * k);
    assert Pow2(WORD_BITS) == 2 * Pow2(WORD_BITS - 1);
  }

  function Or(a: nat, b: nat): nat {
    if a == 0 && b == 0 then 0
    else 2 * Or(a / 2, b / 2) + if a % 2 == 1 || b % 2 == 1 then 1 else 0
  }

  function And(a: nat, b: nat): nat {
    if a == 0 || b == 0 then 0
    else 2 * And(a / 2, b / 2) + if a % 2 == 1 && b % 2 == 1 then 1 else 0
  }

  predicate Bit(n: nat, i: nat) {
    if i == 0 then n % 2 == 1 else Bit(n / 2, i - 1)
  }

  function Shr(n: nat, k: nat): nat {
    if k == 0 then n else Shr(n / 2, k - 1)
  }

  lemma {:induction false} Pow2Sum(a: nat, b: nat)
    ensures Pow2(a + b) == Pow2(a) * Pow2(b)
  {
    if a > 0 {
      Pow2Sum(a - 1, b);
      assert Pow2(a + b) == 2 * (Pow2(a - 1) * Pow2(b)) == (2 * Pow2(a - 1)) * Pow2(b);
    }
  }

  lemma {:induction false} Pow2Monotone(a: nat, b: nat)
    ensures a <= b ==> Pow2(a) <= Pow2(b)
    ensures a < b ==> Pow2(a) < Pow2(b)
    decreases b
  {
    if a < b {
      Pow2Monotone(a, b - 1);
    }
  }

  lemma OrHalves(a: nat, b: nat)
    ensures Or(a, b) / 2 == Or(a / 2, b / 2)
    ensures Or(a, b) % 2 == 1 <==> a % 2 == 1 || b % 2 == 1
  {
    if a == 0 && b == 0 {
      assert Or(0, 0) == 0;
    }
  }

  lemma {:induction false} OrBit(a: nat, b: nat, i: nat)
    ensures Bit(Or(a, b), i) <==> Bit(a, i) || Bit(b, i)
    decreases i
  {
    OrHalves(a, b);
    if i > 0 {
      OrBit(a / 2, b / 2, i - 1);
    }
  }

  lemma {:induction false} ShrBit(n: nat, k: nat, i: nat)
    ensures Bit(Shr(n, k), i) == Bit(n, i + k)
    decreases k
  {
    if k > 0 {
      ShrBit(n / 2, k - 1, i);
    }
  }

  /** Masking with 2^k - 1 is the remainder modulo 2^k. */
  lemma {:induction false} MaskIsRemainder(x: nat, k: nat)
    ensures And(x, Pow2(k) - 1) == x % Pow2(k)
    decreases k
  {
    if x == 0 {
      RemainderUnique(0, Pow2(k), 0, 0);
    } else if k > 0 {
      MaskIsRemainder(x / 2, k - 1);
      MaskStep(x, Pow2(k - 1));
    }
  }

  lemma MaskStep(x: nat, p: nat)
    requires x > 0 && p >= 1 && And(x / 2, p - 1) == (x / 2) % p
    ensures And(x, 2 * p - 1) == x % (2 * p)
  {
    RemainderHalves(x, p);
    MaskHalves(x, p);
  }

  lemma MaskHalves(x: nat, p: nat)
    requires x > 0 && p >= 1
    ensures And(x, 2 * p - 1) == 2 * And(x / 2, p - 1) + x % 2
  {
    assert (2 * p - 1) / 2 == p - 1 && (2 * p - 1) % 2 == 1;
  }

  lemma RemainderHalves(x: nat, p: nat)
    requires p >= 1
    ensures x % (2 * p) == 2 * ((x / 2) % p) + x % 2
  {
    var q, r := (x / 2) / p, (x / 2) % p;
    assert x / 2 == p * q + r;
    assert x == 2 * p * q + (2 * r + x % 2);
    RemainderUnique(x, 2 * p, q, 2 * r + x % 2);
  }

  lemma MulAtLeast(m: nat, d: nat)
    requires d >= 1
    ensures m * d >= m
  {
  }

  lemma RemainderUnique(x: int, m: int, q: int, r: int)
    requires 0 <= r < m && x == m * q + r
    ensures x % m == r && x / m == q
  {
    SameQuotient(m, q, r, x / m, x % m);
  }

  lemma SameQuotient(m: int, q: int, r: int, q': int, r': int)
    requires 0 <= r < m && 0 <= r' < m && m * q + r == m * q' + r'
    ensures q == q' && r == r'
  {
    if q > q' {
      assert m * q - m * q' == m * (q - q');
      MulAtLeast(m, q - q');
    } else if q < q' {
      assert m * q' - m * q == m * (q' - q);
      MulAtLeast(m, q' - q);
    }
  }

  lemma {:induction false} ZeroBits(i: nat)
    ensures !Bit(0, i)
  {
    if i > 0 {
      ZeroBits(i - 1);
    }
  }

  /** A word has no bit at or above its width. */
  lemma {:induction false} BitsBounded(n: nat, k: nat, i: nat)
    requires n < Pow2(k) && k <= i
    ensures !Bit(n, i)
    decreases k
  {
    if k == 0 {
      ZeroBits(i);
    } else {
      BitsBounded(n / 2, k - 1, i - 1);
    }
  }

  /** The number with exactly the `len` lowest bits set is 2^len - 1. */
  lemma {:induction false} AllOnes(n: nat, len: nat)
    requires forall i: nat :: Bit(n, i) <==> i < len
    ensures n == Pow2(len) - 1
    decreases n
  {
    if len == 0 {
      if n > 0 {
        var i := TopBit(n);
      }
    } else {
      assert Bit(n, 0);
      forall i: nat ensures Bit(n / 2, i) <==> i < len - 1 {
        assert Bit(n, i + 1) == Bit(n / 2, i);
      }
      AllOnes(n / 2, len - 1);
    }
  }

  /** The highest set bit, which brackets the number between two powers of two. */
  lemma {:induction false} TopBit(n: nat) returns (i: nat)
    requires n > 0
    ensures Bit(n, i) && Pow2(i) <= n < Pow2(i + 1)
    ensures forall j: nat :: j > i ==> !Bit(n, j)
  {
    if n == 1 {
      i := 0;
      forall j: nat | j > 0 ensures !Bit(n, j) { BitsBounded(1, 1, j); }
    } else {
      var h := TopBit(n / 2);
      i := h + 1;
      forall j: nat | j > i ensures !Bit(n, j) { BitsBounded(n, i + 1, j); }
    }
  }

  /** Masking with a word whose `k` lowest bits are clear and the rest set drops those bits. */
  lemma {:induction false} HighMask(a: nat, k: nat, width: nat)
    requires k <= width && a < Pow2(width)
    ensures Pow2(k) <= Pow2(width)
    ensures And(a, Pow2(width) - Pow2(k)) == Pow2(k) * Shr(a, k)
    decreases k
  {
    Pow2Monotone(k, width);
    if k == 0 {
      MaskIsRemainder(a, width);
      RemainderUnique(a, Pow2(width), 0, a);
    } else if a == 0 {
      ShrZero(k);
    } else {
      Pow2Monotone(k - 1, width - 1);
      HighMask(a / 2, k - 1, width - 1);
      EvenMask(a, Pow2(width - 1) - Pow2(k - 1), Pow2(k - 1), Shr(a / 2, k - 1));
    }
  }

  lemma EvenMask(a: nat, m: nat, p: nat, s: nat)
    requires a > 0 && And(a / 2, m) == p * s
    ensures And(a, 2 * m) == (2 * p) * s
  {
    AndDoubles(a, m);
    DoubleProduct(p, s);
  }

  lemma AndDoubles(a: nat, m: nat)
    requires a > 0
    ensures And(a, 2 * m) == 2 * And(a / 2, m)
  {
    assert (2 * m) / 2 == m && (2 * m) % 2 == 0;
  }

  lemma DoubleProduct(p: nat, s: nat)
    ensures (2 * p) * s == 2 * (p * s)
  {
  }

  lemma {:induction false} ShrZero(k: nat)
    ensures Shr(0, k) == 0
  {
    if k > 0 {
      ShrZero(k - 1);
    }
  }

  /** Numbers with the same bits are equal. */
  lemma {:induction false} SameBits(a: nat, b: nat)
    requires forall i: nat :: Bit(a, i) == Bit(b, i)
    ensures a == b
    decreases a + b
  {
    if a + b > 0 {
      forall i: nat ensures Bit(a / 2, i) == Bit(b / 2, i) {
        assert Bit(a, i + 1) == Bit(b, i + 1);
      }
      SameBits(a / 2, b / 2);
      assert Bit(a, 0) == Bit(b, 0);
    }
  }

  /** The bits from `k` up to `width` are the same. */
  ghost predicate AgreeFrom(a: nat, b: nat, k: nat, width: nat) {
    forall i: nat :: k <= i < width ==> Bit(a, i) == Bit(b, i)
  }

  /** Two numbers have the same bits from `k` on exactly when they are equal without the others. */
  lemma ShiftedSame(a: nat, b: nat, k: nat, width: nat)
    requires a < Pow2(width) && b < Pow2(width)
    ensures Shr(a, k) == Shr(b, k) <==> AgreeFrom(a, b, k, width)
  {
    if Shr(a, k) == Shr(b, k) {
      forall i: nat | k <= i < width ensures Bit(a, i) == Bit(b, i) {
        ShrBit(a, k, i - k);
        ShrBit(b, k, i - k);
      }
    }
    if AgreeFrom(a, b, k, width) {
      forall i: nat ensures Bit(Shr(a, k), i) == Bit(Shr(b, k), i) {
        ShrBit(a, k, i);
        ShrBit(b, k, i);
        if i + k >= width {
          BitsBounded(a, width, i + k);
          BitsBounded(b, width, i + k);
        } else {
          assert Bit(a, i + k) == Bit(b, i + k);
        }
      }
      SameBits(Shr(a, k), Shr(b, k));
    }
  }

  /** Two numbers agree from bit `k` on exactly when masking the bits below leaves the same. */
  lemma SameHighBits(a: nat, b: nat, k: nat, width: nat)
    requires k <= width && a < Pow2(width) && b < Pow2(width)
    ensures Pow2(k) <= Pow2(width)
    ensures And(a, Pow2(width) - Pow2(k)) == And(b, Pow2(width) - Pow2(k)) <==> AgreeFrom(a, b, k, width)
  {
    HighMask(a, k, width);
    HighMask(b, k, width);
    Cancel(Pow2(k), Shr(a, k), Shr(b, k));
    ShiftedSame(a, b, k, width);
  }

  lemma Cancel(p: nat, x: nat, y: nat)
    requires p >= 1
    ensures p * x == p * y <==> x == y
  {
    if p * x == p * y {
      SameQuotient(p, x, 0, y, 0);
    }
  }
}
