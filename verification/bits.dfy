// The bit operators of the source on natural numbers, defined digit by digit, and the
// facts that turn masking into division with remainder.
module Bits {
  function Pow2(k: nat): (p: nat)
    ensures p >= 1
    ensures k >= 1 ==> p % 2 == 0
  {
    if k == 0 then 1 else 2 * Pow2(k - 1)
  }

  const W16 := 0x1_0000
  const W32 := 0x1_0000_0000
  const W64 := 0x1_0000_0000_0000_0000

  predicate IsPow2(p: nat) {
    exists k: nat | k <= p :: Pow2(k) == p
  }

  /** `a & b` */
  function And(a: nat, b: nat): nat {
    if a == 0 then 0
    else 2 * And(a / 2, b / 2) + (if a % 2 == 1 && b % 2 == 1 then 1 else 0)
  }

  /** `a | b` */
  function Or(a: nat, b: nat): nat {
    if a == 0 then b
    else 2 * Or(a / 2, b / 2) + (if a % 2 == 1 || b % 2 == 1 then 1 else 0)
  }

  /** `!a` on a word of which `top` is one past the largest value */
  function Not(a: nat, top: nat): nat
    requires a < top
  {
    top - 1 - a
  }

  lemma Words()
    ensures Pow2(2) == 4 && Pow2(3) == 8 && Pow2(4) == 16 && Pow2(8) == 0x100 && Pow2(12) == 0x1000
    ensures Pow2(11) == 0x800 && Pow2(15) == 0x8000 && Pow2(20) == 0x10_0000
    ensures Pow2(16) == W16 && Pow2(24) == 0x100_0000 && Pow2(31) == 0x8000_0000
    ensures Pow2(32) == W32 && Pow2(63) == 0x8000_0000_0000_0000 && Pow2(64) == W64
  {
    assert Pow2(8) == 0x100;
    assert Pow2(16) == W16;
    assert Pow2(24) == 0x100_0000;
    assert Pow2(32) == W32;
    Pow2Sum(32, 31);
    Pow2Sum(32, 32);
  }

  lemma {:induction false} Pow2Sum(a: nat, b: nat)
    ensures Pow2(a + b) == Pow2(a) * Pow2(b)
  {
    if b == 0 {
    } else {
      Pow2Sum(a, b - 1);
      assert Pow2(a + b) == 2 * Pow2(a + (b - 1));
      DoubleProduct(Pow2(a), Pow2(b - 1));
    }
  }

  lemma DoubleProduct(x: nat, y: nat)
    ensures 2 * (x * y) == x * (2 * y)
  {
  }

  lemma {:induction false} Pow2Monotone(a: nat, b: nat)
    requires a <= b
    ensures Pow2(a) <= Pow2(b)
    decreases b
  {
    if a == b {
    } else {
      Pow2Monotone(a, b - 1);
    }
  }

  /** Quotient and remainder are determined by their defining equation. */
  lemma DivModUnique(x: int, d: int, q: int, r: int)
    requires 0 <= r < d && x == q * d + r
    ensures x / d == q && x % d == r
  {
    var q', r' := x / d, x % d;
    assert x == q' * d + r';
    var e := q - q';
    assert e * d == r' - r;
    if e >= 1 {
      MulAtLeast(e, d);
    } else if e <= -1 {
      MulAtLeast(-e, d);
    }
  }

  lemma MulAtLeast(e: int, d: int)
    requires e >= 1 && d >= 1
    ensures e * d >= d
  {
    assert e * d == (e - 1) * d + d;
  }

  /** The low k bits of `x`. */
  function Low(x: nat, k: nat): (r: nat)
    ensures r <= x && r < Pow2(k)
  {
    if k == 0 then 0 else 2 * Low(x / 2, k - 1) + x % 2
  }

  lemma {:induction false} LowIsMod(x: nat, k: nat)
    ensures x % Pow2(k) == Low(x, k) && x / Pow2(k) == Shr(x, k)
    decreases k
  {
    if k == 0 {
    } else {
      LowIsMod(x / 2, k - 1);
      var p := Pow2(k - 1);
      Halves(x, x / 2 / p, p, x / 2 % p);
    }
  }

  lemma Halves(x: nat, q: nat, p: nat, r: nat)
    requires r < p && x / 2 == q * p + r
    ensures x / (2 * p) == q && x % (2 * p) == 2 * r + x % 2
  {
    assert x == q * (2 * p) + (2 * r + x % 2);
    DivModUnique(x, 2 * p, q, 2 * r + x % 2);
  }

  lemma {:induction false} LowOfSmall(x: nat, k: nat)
    requires x < Pow2(k)
    ensures Low(x, k) == x
    decreases k
  {
    if k == 0 {
    } else {
      LowOfSmall(x / 2, k - 1);
    }
  }

  lemma {:induction false} LowOfOnes(w: nat, k: nat)
    requires k <= w
    ensures Pow2(k) <= Pow2(w) && Low(Pow2(w) - 1, k) == Pow2(k) - 1
    decreases k
  {
    if k == 0 {
    } else {
      LowOfOnes(w - 1, k - 1);
      assert (Pow2(w) - 1) / 2 == Pow2(w - 1) - 1;
    }
  }

  lemma {:induction false} LowOfLow(x: nat, l: nat, j: nat, k: nat)
    requires j <= k && l == Low(x, k)
    ensures Low(l, j) == Low(x, j)
    decreases k
  {
    if j == 0 {
    } else {
      LowHalves(l, Low(x / 2, k - 1), x % 2);
      LowOfLow(x / 2, l / 2, j - 1, k - 1);
    }
  }

  lemma LowHalves(l: nat, h: nat, b: nat)
    requires l == 2 * h + b && b < 2
    ensures l / 2 == h && l % 2 == b
  {
  }

  /** Replacing the low n bits: they read back, and the bits above are the same. */
  lemma {:induction false} LowReplaced(x: nat, n: nat, v: nat, y: nat)
    requires v < Pow2(n) && y == x - Low(x, n) + v
    ensures Low(y, n) == v && Shr(y, n) == Shr(x, n)
    decreases n
  {
    if n == 0 {
    } else {
      LowHalves(y, x / 2 - Low(x / 2, n - 1) + v / 2, v % 2);
      LowReplaced(x / 2, n - 1, v / 2, y / 2);
    }
  }

  lemma {:induction false} ReplacedFits(x: nat, w: nat, n: nat, v: nat, y: nat)
    requires x < Pow2(w) && n <= w && v < Pow2(n) && y == x - Low(x, n) + v
    ensures y < Pow2(w)
    decreases n
  {
    if n == 0 {
    } else {
      LowHalves(y, x / 2 - Low(x / 2, n - 1) + v / 2, v % 2);
      ReplacedFits(x / 2, w - 1, n - 1, v / 2, y / 2);
    }
  }

  lemma Pow2Divides(a: nat, j: nat, k: nat)
    requires j <= k && a % Pow2(k) == 0
    ensures a % Pow2(j) == 0
  {
    Pow2Sum(j, k - j);
    MultipleOfMultiple(a, Pow2(j), Pow2(k - j));
  }

  lemma MultipleOfMultiple(a: nat, d: nat, e: nat)
    requires d > 0 && e > 0 && d * e > 0 && a % (d * e) == 0
    ensures a % d == 0
  {
    var c := a / (d * e);
    assert a == c * (d * e) == (c * e) * d;
    DivModUnique(a, d, c * e, 0);
  }

  // The masks `2^k - 1` and `2^w - 2^k`, bit by bit.

  function Ones(k: nat): nat { if k == 0 then 0 else 2 * Ones(k - 1) + 1 }

  function Band(w: nat, k: nat): nat
    requires k <= w
  {
    if k == 0 then Ones(w) else 2 * Band(w - 1, k - 1)
  }

  lemma {:induction false} OnesIsMask(k: nat)
    ensures Ones(k) == Pow2(k) - 1
  {
    if k == 0 {
    } else {
      OnesIsMask(k - 1);
    }
  }

  lemma {:induction false} BandIsMask(w: nat, k: nat)
    requires k <= w
    ensures Pow2(k) <= Pow2(w) && Band(w, k) == Pow2(w) - Pow2(k)
    decreases k
  {
    if k == 0 {
      OnesIsMask(w);
    } else {
      BandIsMask(w - 1, k - 1);
    }
  }

  lemma {:induction false} AndOnes(x: nat, k: nat)
    ensures And(x, Ones(k)) == Low(x, k)
    decreases k
  {
    if k == 0 {
      AndZero(x);
    } else {
      AndOnes(x / 2, k - 1);
      AndOdd(x, Ones(k), Ones(k - 1), Low(x / 2, k - 1));
    }
  }

  lemma {:induction false} AndBits(x: nat, w: nat, k: nat)
    requires k <= w
    ensures And(x, Band(w, k)) == Low(x, w) - Low(x, k)
    decreases w
  {
    if k == 0 {
      AndOnes(x, w);
    } else {
      AndBits(x / 2, w - 1, k - 1);
      AndEven(x, Band(w, k), Band(w - 1, k - 1), Low(x / 2, w - 1) - Low(x / 2, k - 1));
    }
  }

  /** Masking with `2^k - 1` keeps the low k bits. */
  lemma AndKeepsLow(x: nat, k: nat)
    ensures And(x, Pow2(k) - 1) == Low(x, k)
  {
    OnesIsMask(k);
    AndOnes(x, k);
  }

  /** Masking with the band of bits k to w - 1. */
  lemma AndBand(x: nat, m: nat, w: nat, k: nat)
    requires k <= w && m == Pow2(w) - Pow2(k)
    ensures And(x, m) == Low(x, w) - Low(x, k)
  {
    BandIsMask(w, k);
    AndBits(x, w, k);
  }

  /** Masking with `!(2^k - 1)` on a w-bit word clears the low k bits. */
  lemma AndClearsLow(x: nat, m: nat, w: nat, k: nat)
    requires k <= w && x < Pow2(w) && m == Pow2(w) - Pow2(k)
    ensures And(x, m) == x - Low(x, k)
  {
    AndBand(x, m, w, k);
    LowOfSmall(x, w);
  }

  lemma AndEven(x: nat, m: nat, h: nat, r: int)
    requires m == 2 * h && And(x / 2, h) == r
    ensures And(x, m) == 2 * r
  {
    assert m / 2 == h && m % 2 == 0;
  }

  lemma AndOdd(x: nat, m: nat, h: nat, r: int)
    requires m == 2 * h + 1 && And(x / 2, h) == r
    ensures And(x, m) == 2 * r + x % 2
  {
    assert m / 2 == h && m % 2 == 1;
  }

  lemma {:induction false} AndZero(x: nat)
    ensures And(x, 0) == 0
  {
    if x == 0 {
    } else {
      AndZero(x / 2);
    }
  }

  /** Or-ing together fields that do not overlap adds them. */
  lemma {:induction false} OrAddsDisjoint(a: nat, b: nat, k: nat)
    requires Low(a, k) == 0 && b < Pow2(k)
    ensures Or(a, b) == a + b
    decreases k
  {
    if a == 0 {
    } else if k == 0 {
      OrZero(a);
    } else {
      OrAddsDisjoint(a / 2, b / 2, k - 1);
    }
  }

  lemma {:induction false} OrZero(a: nat)
    ensures Or(a, 0) == a
  {
    if a == 0 {
    } else {
      OrZero(a / 2);
    }
  }

  /** `v << k`, without truncation */
  function Shl(v: nat, k: nat): nat { if k == 0 then v else 2 * Shl(v, k - 1) }

  /** `x >> k` */
  function Shr(x: nat, k: nat): nat { if k == 0 then x else Shr(x / 2, k - 1) }

  /** The n-bit field of `x` that starts at bit `lo`. */
  function Field(x: nat, lo: nat, n: nat): nat { Low(Shr(x, lo), n) }

  lemma {:induction false} ShlIsProduct(v: nat, k: nat)
    ensures Shl(v, k) == v * Pow2(k)
  {
    if k == 0 {
    } else {
      ShlIsProduct(v, k - 1);
      DoubleProduct(v, Pow2(k - 1));
    }
  }

  lemma {:induction false} ShlMonotone(a: nat, b: nat, k: nat)
    ensures a <= b ==> Shl(a, k) <= Shl(b, k)
    ensures a < b ==> Shl(a, k) < Shl(b, k)
  {
    if k == 0 {
    } else {
      ShlMonotone(a, b, k - 1);
    }
  }

  lemma {:induction false} ShlPow2(n: nat, k: nat)
    ensures Shl(Pow2(n), k) == Pow2(n + k)
  {
    if k == 0 {
    } else {
      ShlPow2(n, k - 1);
    }
  }

  lemma {:induction false} ShlFits(v: nat, n: nat, lo: nat, w: nat)
    requires v < Pow2(n) && lo + n <= w
    ensures Shl(v, lo) < Pow2(w)
  {
    ShlMonotone(v, Pow2(n), lo);
    ShlPow2(n, lo);
    Pow2Monotone(n + lo, w);
  }

  lemma {:induction false} FieldFits(x: nat, lo: nat, n: nat)
    ensures Field(x, lo, n) < Pow2(n) && Shl(Field(x, lo, n), lo) <= x
    decreases lo
  {
    if lo == 0 {
    } else {
      FieldFits(x / 2, lo - 1, n);
    }
  }

  lemma ModAtMost(q: nat, d: nat)
    requires d > 0
    ensures 0 <= q % d <= q
  {
    var t := q / d;
    assert q == t * d + q % d;
    MulMonotone(0, t, d);
  }

  lemma RoundDown(x: nat, d: nat)
    requires d > 0
    ensures 0 <= x % d < d && x % d <= x && (x - x % d) % d == 0 && (x - x % d) / d == x / d
  {
    ModAtMost(x, d);
    var q := x / d;
    assert x - x % d == q * d + 0;
    DivModUnique(x - x % d, d, q, 0);
  }

  lemma MulMonotone(a: nat, b: nat, c: nat)
    requires a <= b
    ensures a * c <= b * c
  {
    assert b * c == a * c + (b - a) * c;
  }

  /** `x` with the n-bit field at `lo` set to `v`. */
  function WithField(x: nat, lo: nat, n: nat, v: nat): nat {
    FieldFits(x, lo, n);
    x - Shl(Field(x, lo, n), lo) + Shl(v, lo)
  }

  lemma {:induction false} ShlZero(k: nat)
    ensures Shl(0, k) == 0
  {
    if k == 0 {
    } else {
      ShlZero(k - 1);
    }
  }

  // The mask `!(((1 << n) - 1) << lo)` and the masked value, bit by bit.

  function HoleMask(w: nat, lo: nat, n: nat): nat
    requires lo + n <= w
  {
    Pow2Monotone(n, w);
    if lo == 0 then Pow2(w) - Pow2(n) else 2 * HoleMask(w - 1, lo - 1, n) + 1
  }

  function Cleared(x: nat, lo: nat, n: nat): int {
    if lo == 0 then x - Low(x, n) else 2 * Cleared(x / 2, lo - 1, n) + x % 2
  }

  lemma {:induction false} HoleMaskIsMask(w: nat, lo: nat, n: nat)
    requires lo + n <= w
    ensures Shl(Pow2(n) - 1, lo) < Pow2(w)
    ensures HoleMask(w, lo, n) == Not(Shl(Pow2(n) - 1, lo), Pow2(w))
    decreases lo
  {
    ShlFits(Pow2(n) - 1, n, lo, w);
    if lo == 0 {
    } else {
      HoleMaskIsMask(w - 1, lo - 1, n);
    }
  }

  lemma {:induction false} ClearedIsDifference(x: nat, lo: nat, n: nat)
    ensures Cleared(x, lo, n) == x - Shl(Field(x, lo, n), lo)
    decreases lo
  {
    if lo == 0 {
    } else {
      ClearedIsDifference(x / 2, lo - 1, n);
    }
  }

  lemma {:induction false} AndHole(x: nat, w: nat, lo: nat, n: nat)
    requires lo + n <= w && x < Pow2(w)
    ensures And(x, HoleMask(w, lo, n)) == Cleared(x, lo, n)
    decreases lo
  {
    if lo == 0 {
      AndClearsLow(x, HoleMask(w, lo, n), w, n);
    } else {
      AndHole(x / 2, w - 1, lo - 1, n);
      AndOdd(x, HoleMask(w, lo, n), HoleMask(w - 1, lo - 1, n), Cleared(x / 2, lo - 1, n));
    }
  }

  /** `x & !(((1 << n) - 1) << lo)` on a w-bit word clears a field. */
  lemma AndClearsField(x: nat, m: nat, w: nat, lo: nat, n: nat)
    requires lo + n <= w && x < Pow2(w)
    requires Shl(Pow2(n) - 1, lo) < Pow2(w) && m == Not(Shl(Pow2(n) - 1, lo), Pow2(w))
    ensures And(x, m) == x - Shl(Field(x, lo, n), lo)
  {
    HoleMaskIsMask(w, lo, n);
    AndHole(x, w, lo, n);
    ClearedIsDifference(x, lo, n);
  }

  /** Or-ing a value into a cleared field. */
  lemma {:induction false} OrFillsField(x: nat, lo: nat, n: nat, v: nat)
    requires Field(x, lo, n) == 0 && v < Pow2(n)
    ensures Or(x, Shl(v, lo)) == x + Shl(v, lo)
    decreases lo
  {
    if lo == 0 {
      OrAddsDisjoint(x, v, n);
    } else {
      OrFillsField(x / 2, lo - 1, n, v);
      OrEven(x, Shl(v, lo - 1));
    }
  }

  lemma OrEven(x: nat, b: nat)
    ensures Or(x, 2 * b) == 2 * Or(x / 2, b) + x % 2
  {
    assert 2 * b / 2 == b && 2 * b % 2 == 0;
    assert Or(0, b) == b;
  }

  lemma WithFieldStep(x: nat, lo: nat, n: nat, v: nat)
    requires lo > 0
    ensures WithField(x, lo, n, v) == 2 * WithField(x / 2, lo - 1, n, v) + x % 2
  {
    FieldFits(x / 2, lo - 1, n);
  }

  /** Setting a field: it reads back, and every field that does not meet it is unchanged. */
  lemma {:induction false} FieldOfWithField(x: nat, lo: nat, n: nat, v: nat)
    requires v < Pow2(n)
    ensures Field(WithField(x, lo, n, v), lo, n) == v
    decreases lo
  {
    if lo == 0 {
      LowReplaced(x, n, v, WithField(x, lo, n, v));
    } else {
      WithFieldStep(x, lo, n, v);
      FieldOfWithField(x / 2, lo - 1, n, v);
    }
  }

  lemma {:induction false} ShrTwice(x: nat, j: nat, k: nat)
    ensures Shr(Shr(x, j), k) == Shr(x, j + k)
    decreases j
  {
    if j == 0 {
    } else {
      ShrTwice(x / 2, j - 1, k);
    }
  }

  lemma {:induction false} OtherFields(x: nat, lo: nat, n: nat, v: nat, lo': nat, n': nat)
    requires v < Pow2(n) && (lo + n <= lo' || lo' + n' <= lo)
    ensures Field(WithField(x, lo, n, v), lo', n') == Field(x, lo', n')
    decreases lo
  {
    var y := WithField(x, lo, n, v);
    if lo == 0 && n <= lo' {
      LowReplaced(x, n, v, y);
      ShrTwice(x, n, lo' - n);
      ShrTwice(y, n, lo' - n);
    } else if lo == 0 {
      assert n' == 0;
    } else {
      WithFieldStep(x, lo, n, v);
      if lo' > 0 {
        OtherFields(x / 2, lo - 1, n, v, lo' - 1, n');
      } else if n' > 0 {
        OtherFields(x / 2, lo - 1, n, v, 0, n' - 1);
      }
    }
  }

  lemma {:induction false} WithFieldFits(x: nat, w: nat, lo: nat, n: nat, v: nat)
    requires x < Pow2(w) && lo + n <= w && v < Pow2(n)
    ensures WithField(x, lo, n, v) < Pow2(w)
    decreases lo
  {
    if lo == 0 {
      ReplacedFits(x, w, n, v, WithField(x, lo, n, v));
    } else {
      WithFieldStep(x, lo, n, v);
      WithFieldFits(x / 2, w - 1, lo - 1, n, v);
    }
  }
}
