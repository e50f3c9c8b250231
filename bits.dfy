/** Python's operators on non-negative integers, as the word codec uses them:
    `<<`, `>>`, `|`, `&` and a mask `& (2**k - 1)`. Integers are unbounded, as in
    Python. Each operator is defined one binary digit at a time, and a lemma ties
    it to ordinary arithmetic (`x << k == x * 2**k`, `x >> k == x // 2**k`,
    `x & (2**k - 1) == x % 2**k`). */
module Bits {

  /** 2 to the power k. It is unfolded 32 and 8 binary digits at a time, so that the
      widths of a 256-bit word unfold in a few steps; Pow2Double gives the
      one-digit step. */
  function Pow2(k: nat): (r: nat)
    ensures r >= 1
  {
    if k == 0 then 1
    else if k >= 32 then 0x1_0000_0000 * Pow2(k - 32)
    else if k >= 8 then 0x100 * Pow2(k - 8)
    else 2 * Pow2(k - 1)
  }

  /** One more binary digit doubles the power. */
  lemma {:induction false} Pow2Double(k: nat)
    ensures Pow2(k + 1) == 2 * Pow2(k)
  {
    if k == 7 {
      assert Pow2(7) == 0x80;
    } else if k == 31 {
      assert Pow2(7) == 0x80;
      assert Pow2(31) == 0x8000_0000;
    } else if k >= 32 {
      Pow2Double(k - 32);
    } else if k >= 8 {
      Pow2Double(k - 8);
    }
  }

  /** `x << k`: k binary digits 0 appended at the low end. */
  function Shl(x: nat, k: nat): (r: nat)
    ensures x <= r && (r == 0 <==> x == 0)
  {
    if k == 0 then x else 2 * Shl(x, k - 1)
  }

  /** `x >> k`: the k lowest binary digits dropped. */
  function Shr(x: nat, k: nat): (r: nat)
    ensures r <= x
  {
    if k == 0 then x else Shr(x / 2, k - 1)
  }

  /** The k lowest binary digits of x. */
  function Low(x: nat, k: nat): (r: nat)
    ensures r < Pow2(k) && r <= x
  {
    if k == 0 then 0
    else
      Pow2Double(k - 1);
      2 * Low(x / 2, k - 1) + x % 2
  }

  /** Binary digit i of x: the reference that Or and And are checked against. */
  function Bit(x: nat, i: nat): (r: nat)
    ensures r == 0 || r == 1
  {
    if i == 0 then x % 2 else Bit(x / 2, i - 1)
  }

  /** `a | b`, computed one binary digit at a time from the least significant. */
  function Or(a: nat, b: nat): (r: nat)
    ensures a <= r && b <= r && r <= a + b
    decreases a + b
  {
    if a == 0 then b
    else if b == 0 then a
    else 2 * Or(a / 2, b / 2) + (if a % 2 == 1 || b % 2 == 1 then 1 else 0)
  }

  /** `a & b`, computed one binary digit at a time from the least significant. */
  function And(a: nat, b: nat): (r: nat)
    ensures r <= a && r <= b
    decreases a + b
  {
    if a == 0 || b == 0 then 0
    else 2 * And(a / 2, b / 2) + (if a % 2 == 1 && b % 2 == 1 then 1 else 0)
  }

  // ---------------------------------------------------------------------------
  // Or and And are the bitwise operators

  lemma {:induction false} ZeroBit(i: nat)
    ensures Bit(0, i) == 0
  {
    if i > 0 {
      ZeroBit(i - 1);
    }
  }

  /** Every binary digit of `a | b` is the disjunction of the digits of a and b. */
  lemma {:induction false} OrBit(a: nat, b: nat, i: nat)
    ensures Bit(Or(a, b), i) == (if Bit(a, i) == 1 || Bit(b, i) == 1 then 1 else 0)
  {
    if a == 0 || b == 0 {
      ZeroBit(i);
    } else if i > 0 {
      OrBit(a / 2, b / 2, i - 1);
    }
  }

  /** Every binary digit of `a & b` is the conjunction of the digits of a and b. */
  lemma {:induction false} AndBit(a: nat, b: nat, i: nat)
    ensures Bit(And(a, b), i) == (if Bit(a, i) == 1 && Bit(b, i) == 1 then 1 else 0)
  {
    if a == 0 || b == 0 {
      ZeroBit(i);
    } else if i > 0 {
      AndBit(a / 2, b / 2, i - 1);
    }
  }

  // ---------------------------------------------------------------------------
  // The operators in ordinary arithmetic

  /** Multiplying by m preserves the order of the other factor. */
  lemma MulLe(a: nat, b: nat, m: nat)
    requires a <= b
    ensures a * m <= b * m
  {
    var c: nat := b - a;
    assert b * m == a * m + c * m;
  }

  /** Quotient and remainder are determined by any decomposition n == q * m + r with 0 <= r < m. */
  lemma DivModUnique(n: nat, m: nat, q: nat, r: nat)
    requires m > 0 && r < m && n == q * m + r
    ensures n / m == q && n % m == r
  {
    var q', r' := n / m, n % m;
    assert n == q' * m + r';
    if q' < q {
      MulLe(q' + 1, q, m);
    } else if q' > q {
      MulLe(q + 1, q', m);
    }
  }

  /** Doubling one factor doubles the product. */
  lemma MulDouble(p: nat, q: nat, r: nat)
    requires r == 2 * p
    ensures r * q == 2 * (p * q) && q * r == 2 * (q * p)
  {
  }

  /** `x << k` multiplies x by 2**k. */
  lemma {:induction false} ShlMul(x: nat, k: nat)
    ensures Shl(x, k) == x * Pow2(k)
  {
    if k > 0 {
      ShlMul(x, k - 1);
      Pow2Double(k - 1);
      MulDouble(Pow2(k - 1), x, Pow2(k));
    }
  }

  /** `x >> k` divides x by 2**k, rounding down. */
  lemma ShrDiv(x: nat, k: nat)
    ensures Shr(x, k) == x / Pow2(k)
  {
    ShrShlLow(x, k);
    ShlMul(Shr(x, k), k);
    DivModUnique(x, Pow2(k), Shr(x, k), Low(x, k));
  }

  /** The k low digits of x are the remainder of x by 2**k, which is `x & (2**k - 1)`
      by AndLowMask. */
  lemma LowMod(x: nat, k: nat)
    ensures Low(x, k) == x % Pow2(k)
  {
    ShrShlLow(x, k);
    ShlMul(Shr(x, k), k);
    DivModUnique(x, Pow2(k), Shr(x, k), Low(x, k));
  }

  /** `x << k` is a multiple of 2**k. */
  lemma ShlMultiple(x: nat, k: nat)
    ensures Shl(x, k) % Pow2(k) == 0
  {
    var y := Shl(x, k);
    ShlAddSplit(x, 0, k);
    assert y + 0 == y;
    LowMod(y, k);
  }

  // ---------------------------------------------------------------------------
  // Shifts and masks of the fields of a word

  /** `(x >> k) << k` plus the k low digits of x gives x back. */
  lemma {:induction false} ShrShlLow(x: nat, k: nat)
    ensures Shl(Shr(x, k), k) + Low(x, k) == x
  {
    if k > 0 {
      ShrShlLow(x / 2, k - 1);
      assert Shl(Shr(x / 2, k - 1), k) == 2 * Shl(Shr(x / 2, k - 1), k - 1);
    }
  }

  /** `(hi << k) + lo` splits back into hi (by `>> k`) and lo (by its k low digits)
      when lo fits in k digits. */
  lemma {:induction false} ShlAddSplit(hi: nat, lo: nat, k: nat)
    requires lo < Pow2(k)
    ensures Shr(Shl(hi, k) + lo, k) == hi && Low(Shl(hi, k) + lo, k) == lo
  {
    if k > 0 {
      Pow2Double(k - 1);
      ShlAddHalf(hi, lo, k);
      ShlAddSplit(hi, lo / 2, k - 1);
    }
  }

  /** Halving `(hi << k) + lo` halves lo and shortens the shift; its last digit is lo's. */
  lemma ShlAddHalf(hi: nat, lo: nat, k: nat)
    requires k > 0
    ensures (Shl(hi, k) + lo) / 2 == Shl(hi, k - 1) + lo / 2
    ensures (Shl(hi, k) + lo) % 2 == lo % 2
  {
    var s := Shl(hi, k - 1);
    assert Shl(hi, k) == 2 * s;
  }

  /** A value below 2**n shifted left by k, plus a value below 2**k, is below 2**t
      for t = n + k. */
  lemma {:induction false} ShlAddBound(hi: nat, lo: nat, n: nat, k: nat, t: nat)
    requires t == n + k && hi < Pow2(n) && lo < Pow2(k)
    ensures Shl(hi, k) + lo < Pow2(t)
  {
    if k > 0 {
      Pow2Double(k - 1);
      Pow2Double(t - 1);
      ShlAddBound(hi, lo / 2, n, k - 1, t - 1);
    }
  }

  /** A value below 2**t shifted right by k is below 2**n for t = n + k. */
  lemma {:induction false} ShrBound(x: nat, n: nat, k: nat, t: nat)
    requires t == n + k
    ensures x < Pow2(t) ==> Shr(x, k) < Pow2(n)
  {
    if k > 0 {
      Pow2Double(t - 1);
      ShrBound(x / 2, n, k - 1, t - 1);
    }
  }

  /** Shifting right by a and then by b is shifting right by a + b. */
  lemma {:induction false} ShrShr(x: nat, a: nat, b: nat, t: nat)
    requires t == a + b
    ensures Shr(Shr(x, a), b) == Shr(x, t)
  {
    if a > 0 {
      ShrShr(x / 2, a - 1, b, t - 1);
    }
  }

  /** Shifting left by a and then by b is shifting left by a + b. */
  lemma {:induction false} ShlShl(x: nat, a: nat, b: nat, t: nat)
    requires t == a + b
    ensures Shl(Shl(x, a), b) == Shl(x, t)
  {
    if b > 0 {
      ShlShl(x, a, b - 1, t - 1);
    }
  }

  /** The mask of k one digits, `2**k - 1` (MaskPow2). */
  function Mask(k: nat): (r: nat)
  {
    if k == 0 then 0 else 2 * Mask(k - 1) + 1
  }

  /** The mask of k one digits is one below 2**k. */
  lemma {:induction false} MaskPow2(k: nat)
    ensures Mask(k) == Pow2(k) - 1
  {
    if k > 0 {
      MaskPow2(k - 1);
      Pow2Double(k - 1);
    }
  }

  /** `x & mask` keeps the k low digits of x. */
  lemma {:induction false} AndMask(x: nat, k: nat)
    ensures And(x, Mask(k)) == Low(x, k)
  {
    if k > 0 && x != 0 {
      var m := Mask(k);
      assert m / 2 == Mask(k - 1) && m % 2 == 1;
      AndMask(x / 2, k - 1);
    }
  }

  /** `x & (2**k - 1)` keeps the k low digits of x. */
  lemma AndLowMask(x: nat, k: nat)
    ensures And(x, Pow2(k) - 1) == Low(x, k)
  {
    MaskPow2(k);
    AndMask(x, k);
  }

  // ---------------------------------------------------------------------------
  // OR of fields that share no bit

  /** `(x << k) | y` is an addition when y fits below bit k. */
  lemma {:induction false} OrShifted(x: nat, y: nat, k: nat)
    requires y < Pow2(k)
    ensures Or(Shl(x, k), y) == Shl(x, k) + y
  {
    if k > 0 && x != 0 && y != 0 {
      var a := Shl(x, k - 1);
      Pow2Double(k - 1);
      OrShifted(x, y / 2, k - 1);
      assert Or(2 * a, y) == 2 * Or(a, y / 2) + y % 2;
    }
  }

  /** Doubling both operands of `|` doubles the result. */
  lemma OrDouble(a: nat, b: nat)
    ensures Or(2 * a, 2 * b) == 2 * Or(a, b)
  {
  }

  /** Shifting both operands of `|` left by k shifts the result. */
  lemma {:induction false} OrShl(x: nat, y: nat, k: nat)
    ensures Or(Shl(x, k), Shl(y, k)) == Shl(Or(x, y), k)
  {
    if k > 0 {
      OrShl(x, y, k - 1);
      OrDouble(Shl(x, k - 1), Shl(y, k - 1));
    }
  }

  /** Two adjacent fields: `(hi << t) | (lo << s)` is `((hi << w) + lo) << s` when lo
      fits in the w = t - s digits between them. */
  lemma AdjacentFields(hi: nat, lo: nat, w: nat, s: nat, t: nat)
    requires t == w + s && lo < Pow2(w)
    ensures Or(Shl(hi, t), Shl(lo, s)) == Shl(Shl(hi, w) + lo, s)
  {
    ShlShl(hi, w, s, t);
    OrShl(Shl(hi, w), lo, s);
    OrShifted(hi, lo, w);
  }
}
