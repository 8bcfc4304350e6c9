/** Machine-word bit operations on naturals, and what they mean arithmetically.
    The kernel computes buddies, page offsets and table entries with shifts and
    masks; here each operator is defined bit by bit, so that the arithmetic used in
    the proofs is a theorem about the operator and not a definition of it. */
module Bits {

  const WORD: nat := 0x1_0000_0000_0000_0000

  type usize = x: int | 0 <= x < WORD

  function Pow2(n: nat): (r: nat)
    ensures r > 0
  {
    if n == 0 then 1 else 2 * Pow2(n - 1)
  }

  function Xor(a: nat, b: nat): nat
    decreases a + b
  {
    if a == 0 && b == 0 then 0 else (a % 2 + b % 2) % 2 + 2 * Xor(a / 2, b / 2)
  }

  function And(a: nat, b: nat): nat
    decreases a + b
  {
    if a == 0 && b == 0 then 0 else (a % 2) * (b % 2) + 2 * And(a / 2, b / 2)
  }

  function Or(a: nat, b: nat): nat
    decreases a + b
  {
    if a == 0 && b == 0 then 0
    else (if a % 2 == 1 || b % 2 == 1 then 1 else 0) + 2 * Or(a / 2, b / 2)
  }

  /** Bitwise complement in a 64-bit word. */
  function Not(a: usize): usize {
    WORD - 1 - a
  }

  function Shl(a: nat, n: nat): nat {
    a * Pow2(n)
  }

  function Shr(a: nat, n: nat): nat {
    if n == 0 then a else Shr(a / 2, n - 1)
  }

  /** The position of the lowest set bit. */
  function TrailingZeros(a: nat): nat
    requires a > 0
  {
    if a % 2 == 1 then 0 else 1 + TrailingZeros(a / 2)
  }

  /** The least power of two that is not below `a`, found by doubling from `p`. */
  function NextPowerOfTwo(a: nat, p: nat := 1): (r: nat)
    requires p > 0
    ensures a <= r && p <= r
    decreases a - p
  {
    if a <= p then p else NextPowerOfTwo(a, 2 * p)
  }

  lemma DivTwoPow(a: nat, k: nat)
    requires k > 0
    ensures a / Pow2(k) == (a / 2) / Pow2(k - 1)
    ensures a % Pow2(k) == a % 2 + 2 * ((a / 2) % Pow2(k - 1))
  {
    var p, q, r := Pow2(k - 1), (a / 2) / Pow2(k - 1), (a / 2) % Pow2(k - 1);
    assert a / 2 == q * p + r;
    assert a == 2 * (q * p + r) + a % 2 == q * (2 * p) + (2 * r + a % 2);
    DivModUnique(a, 2 * p, q, 2 * r + a % 2);
  }

  lemma {:induction false} ShrIsDivision(a: nat, n: nat)
    ensures Shr(a, n) == a / Pow2(n)
  {
    if n > 0 {
      DivTwoPow(a, n);
      ShrIsDivision(a / 2, n - 1);
    }
  }

  lemma DivModUnique(a: int, m: int, q: int, r: int)
    requires m > 0 && a == q * m + r && 0 <= r < m
    ensures a / m == q && a % m == r
  {
    var d := a / m - q;
    assert a == (a / m) * m + a % m;
    assert d * m == r - a % m by {
      assert d * m == (a / m) * m - q * m;
    }
    MulAtLeast(d, m);
  }

  lemma MulAtLeast(d: int, m: int)
    requires m > 0
    ensures d >= 1 ==> d * m >= m
    ensures d <= -1 ==> d * m <= -m
  {
  }

  lemma XorZero(a: nat)
    ensures Xor(a, 0) == a
  {
    if a != 0 { XorZero(a / 2); }
  }

  lemma XorUnfold(a: nat, h: nat, l: nat)
    requires l < 2
    ensures Xor(a, 2 * h + l) == (a % 2 + l) % 2 + 2 * Xor(a / 2, h)
  {
    assert (2 * h + l) / 2 == h && (2 * h + l) % 2 == l;
  }

  /** Bit `k` of `a`. */
  function Bit(a: nat, k: nat): nat {
    if k == 0 then a % 2 else Bit(a / 2, k - 1)
  }

  lemma {:induction false} BitIsQuotientParity(a: nat, k: nat)
    ensures Bit(a, k) == (a / Pow2(k)) % 2
  {
    if k > 0 {
      DivTwoPow(a, k);
      BitIsQuotientParity(a / 2, k - 1);
    }
  }

  /** Flipping one bit adds that power of two when the bit was clear, and subtracts it
      when it was set. */
  lemma {:induction false} XorBit(a: nat, k: nat)
    ensures Xor(a, Pow2(k)) == if Bit(a, k) == 0 then a + Pow2(k) else a - Pow2(k)
  {
    hide Xor;
    if k == 0 {
      XorZero(a / 2);
      XorUnfold(a, 0, 1);
    } else {
      XorBit(a / 2, k - 1);
      XorUnfold(a, Pow2(k - 1), 0);
    }
  }

  lemma AndZero(a: nat)
    ensures And(a, 0) == 0
  {
    if a != 0 { AndZero(a / 2); }
  }

  lemma AndUnfold(a: nat, h: nat, l: nat)
    requires l < 2
    ensures And(a, 2 * h + l) == (if l == 1 then a % 2 else 0) + 2 * And(a / 2, h)
  {
    assert (2 * h + l) / 2 == h && (2 * h + l) % 2 == l;
  }

  /** A low mask keeps the remainder. */
  lemma {:induction false} AndLowMask(a: nat, k: nat)
    ensures And(a, Pow2(k) - 1) == a % Pow2(k)
  {
    hide And;
    if k == 0 {
      AndZero(a);
    } else {
      DivTwoPow(a, k);
      AndLowMask(a / 2, k - 1);
      AndUnfold(a, Pow2(k - 1) - 1, 1);
    }
  }

  /** A high mask of a `w`-bit word clears the remainder. */
  lemma {:induction false} AndHighMask(a: nat, k: nat, w: nat)
    requires k <= w && a < Pow2(w)
    ensures Pow2(k) <= Pow2(w)
    ensures And(a, Pow2(w) - Pow2(k)) == a - a % Pow2(k)
  {
    if k == 0 {
      AndLowMask(a, w);
      DivModUnique(a, Pow2(w), 0, a);
    } else {
      hide And;
      DivTwoPow(a, k);
      AndHighMask(a / 2, k - 1, w - 1);
      AndUnfold(a, Pow2(w - 1) - Pow2(k - 1), 0);
    }
  }

  lemma OrZero(a: nat)
    ensures Or(a, 0) == a && Or(0, a) == a
  {
    if a != 0 { OrZero(a / 2); }
  }

  /** Operands without a common bit: `|` is addition. */
  lemma {:induction false} OrDisjoint(a: nat, b: nat, k: nat)
    requires b < Pow2(k)
    ensures Or(a * Pow2(k), b) == a * Pow2(k) + b
  {
    if k == 0 {
      OrZero(a);
    } else {
      var p := Pow2(k - 1);
      assert a * Pow2(k) == 2 * (a * p);
      assert (2 * (a * p)) / 2 == a * p && (2 * (a * p)) % 2 == 0;
      OrDisjoint(a, b / 2, k - 1);
    }
  }

  lemma {:induction false} Pow2Doubling(n: nat)
    ensures Pow2(2 * n) == Pow2(n) * Pow2(n)
  {
    Pow2Sum(n, n);
  }

  lemma {:induction false} SixteenIsPow2()
    ensures Pow2(4) == 16
  {
  }

  lemma {:induction false} WordIsPow2()
    ensures Pow2(64) == WORD
  {
    hide Pow2;
    assert Pow2(4) == 16 by { SixteenIsPow2(); }
    Pow2Doubling(4);
    Pow2Doubling(8);
    Pow2Doubling(16);
    Pow2Doubling(32);
  }

  lemma {:induction false} Pow2Sum(a: nat, b: nat)
    ensures Pow2(a + b) == Pow2(a) * Pow2(b)
  {
    if b > 0 {
      Pow2Sum(a, b - 1);
      assert Pow2(a + b) == 2 * (Pow2(a) * Pow2(b - 1));
    }
  }

  lemma Pow2Monotone(a: nat, b: nat)
    requires a <= b
    ensures Pow2(a) <= Pow2(b)
    decreases b - a
  {
    if a < b { Pow2Monotone(a, b - 1); }
  }

  /** `(addr + align - 1) & !(align - 1)`, as both crates write it; the addition traps on
      overflow, which is what the precondition excludes. */
  function AlignUp(addr: nat, align: nat): nat
    requires 0 < align && addr + align <= WORD
  {
    And(addr + align - 1, Not(align - 1))
  }

  lemma {:induction false} AndHighMaskWord(a: usize, k: nat)
    requires k <= 64
    ensures Pow2(k) <= WORD
    ensures And(a, WORD - Pow2(k)) == a - a % Pow2(k)
  {
    WordIsPow2();
    AndHighMask(a, k, 64);
  }

  lemma FloorMultiple(x: nat, p: nat)
    requires p > 0
    ensures (x - x % p) % p == 0
  {
    assert x - x % p == (x / p) * p + 0;
    DivModUnique(x - x % p, p, x / p, 0);
  }

  /** For a power of two, `AlignUp` is the least multiple that is not below `addr`. */
  lemma {:induction false} AlignUpIsLeast(addr: nat, k: nat)
    requires k <= 64 && addr + Pow2(k) <= WORD
    ensures addr <= AlignUp(addr, Pow2(k)) < addr + Pow2(k)
    ensures AlignUp(addr, Pow2(k)) % Pow2(k) == 0
  {
    var p, x := Pow2(k), addr + Pow2(k) - 1;
    AndHighMaskWord(x, k);
    assert AlignUp(addr, p) == x - x % p;
    FloorMultiple(x, p);
  }
}
