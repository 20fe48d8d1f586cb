/** Division by 2^shift - 1 with shifts, and the power-of-two test (SkMath.h). */
module FixedPoint {
  import opened Words

  /** The domain the source asserts for `SkMul16ShiftRound`. */
  predicate MulDomain(a: nat, b: nat, shift: nat) {
    a <= 32767 && b <= 32767 && 0 < shift <= 8
  }

  /** `SkMul16ShiftRound`, every intermediate held in a 32-bit register. */
  function Mul16ShiftRound(a: nat, b: nat, shift: nat): nat
    requires MulDomain(a, b, shift)
  {
    ShiftRound32(Wrap32(a * b), shift)
  }

  function ShiftRound32(product: nat, shift: nat): nat
    requires shift > 0
  {
    var prod := Wrap32(product + Shl32(1, shift - 1));
    Shr(Wrap32(prod + Shr(prod, shift)), shift)
  }

  /** `SkMulDiv255Round`. */
  function MulDiv255Round(a: nat, b: nat): nat
    requires a <= 32767 && b <= 32767
  {
    Mul16ShiftRound(a, b, 8)
  }

  /** The same steps on exact integers, for any product n and any shift. */
  function ShiftRound(n: nat, shift: nat): nat
    requires shift > 0
  {
    var prod := n + Pow2(shift - 1);
    Shr(prod + Shr(prod, shift), shift)
  }

  /** The divisor: 2^shift - 1. */
  function Ones(shift: nat): (d: nat)
    requires shift > 0
    ensures d > 0
  {
    2 * Pow2(shift - 1) - 1
  }

  /** q is n / d correctly rounded, strictly closer than half a unit: there is no tie to break. */
  predicate Nearest(q: int, n: int, d: int) {
    -d < 2 * (n - q * d) < d
  }

  /** The sum of quotient and remainder: folds a number on its base-m digits. */
  function Fold(t: nat, m: nat): (f: nat)
    requires m > 0
    ensures t > 0 ==> f > 0
  {
    QuotientShrinks(t, m);
    t / m + t % m
  }

  /** Folding the biased product twice leaves a single base-2^shift digit. */
  predicate FoldsToDigit(n: nat, shift: nat)
    requires shift > 0
  {
    Fold(Fold(n + Pow2(shift - 1), Pow2(shift)), Pow2(shift)) < Pow2(shift)
  }

  lemma NearestUnique(p: int, q: int, n: int, d: int)
    requires d > 0 && Nearest(p, n, d) && Nearest(q, n, d)
    ensures p == q
  {
    MultipleBeyond(p - q, d);
    assert (p - q) * d == p * d - q * d;
  }

  /** Adding the quotient before dividing is dividing the digit sum. */
  lemma QuotientOfSum(p: nat, q: nat, r: nat, m: nat)
    requires m > 0 && p == q * m + r
    ensures (p + q) / m == q + (q + r) / m && (p + q) % m == (q + r) % m
  {
    var t := q + r;
    var a, v := t / m, t % m;
    assert t == a * m + v;
    assert (q + a) * m == q * m + a * m;
    DivModUnique(p + q, m, q + a, v);
  }

  /** How far the shifts land from n: the doubly folded biased product, less the bias. */
  lemma ShiftRoundResidue(n: nat, shift: nat)
    requires shift > 0
    ensures n - ShiftRound(n, shift) * Ones(shift)
         == Fold(Fold(n + Pow2(shift - 1), Pow2(shift)), Pow2(shift)) - Pow2(shift - 1)
  {
    assert Pow2(shift) == Ones(shift) + 1;
    hide Pow2, Ones;
    var m, p := Pow2(shift), n + Pow2(shift - 1);
    QuotientOfSum(p, p / m, p % m, m);
    var t := Fold(p, m);
    ResidueArithmetic(p, p / m, t / m, t % m, m);
  }

  lemma ResidueArithmetic(p: int, q: int, a: int, v: int, m: int)
    requires p + q == (q + a) * m + v
    ensures p - (q + a) * (m - 1) == a + v
  {
  }

  /** For every product and every shift, the shifts round n / (2^shift - 1) to nearest exactly when
      the folded product is a single digit. */
  lemma ShiftRoundExactIff(n: nat, shift: nat)
    requires shift > 0
    ensures Nearest(ShiftRound(n, shift), n, Ones(shift)) <==> FoldsToDigit(n, shift)
  {
    ShiftRoundResidue(n, shift);
    assert Pow2(shift) == 2 * Pow2(shift - 1) == Ones(shift) + 1;
    hide Pow2, ShiftRound, Fold, Ones;
    assert n + Pow2(shift - 1) > 0;
  }

  /** A wrong result is always too small: no rounding of n / (2^shift - 1) lies below it. */
  lemma ShiftRoundNeverAbove(n: nat, shift: nat, q: int)
    requires shift > 0 && Nearest(q, n, Ones(shift))
    ensures ShiftRound(n, shift) <= q
  {
    ShiftRoundResidue(n, shift);
    NotAboveNearest(ShiftRound(n, shift), q, n, Pow2(shift - 1),
                    Fold(Fold(n + Pow2(shift - 1), Pow2(shift)), Pow2(shift)));
  }

  lemma NotAboveNearest(r: int, q: int, n: int, h: nat, f: nat)
    requires h > 0 && f > 0 && n - r * (2 * h - 1) == f - h && Nearest(q, n, 2 * h - 1)
    ensures r <= q
  {
    var d := 2 * h - 1;
    var rd, qd := r * d, q * d;
    assert 2 * (n - rd) > -d && 2 * (n - qd) < d;
    MultipleOrder(r, q, d);
  }

  /** The first product that is rounded wrongly is m^2 + m/2 - 1, for m = 2^shift. */
  lemma ShiftRoundFirstWrong(n: nat, shift: nat)
    requires shift > 0
    ensures var first := Pow2(shift) * Pow2(shift) + Pow2(shift - 1) - 1;
            && (n < first ==> Nearest(ShiftRound(n, shift), n, Ones(shift)))
            && (n == first ==> !Nearest(ShiftRound(n, shift), n, Ones(shift)))
  {
    ShiftRoundExactIff(n, shift);
    assert Pow2(shift) == 2 * Pow2(shift - 1);
    hide Pow2, ShiftRound, Fold, Ones;
    FoldBelow(n + Pow2(shift - 1), Pow2(shift));
  }

  lemma FoldBelow(p: nat, m: nat)
    requires m >= 2
    ensures p < m * m + m - 1 ==> Fold(Fold(p, m), m) < m
    ensures p == m * m + m - 1 ==> Fold(Fold(p, m), m) >= m
  {
    var q, r := p / m, p % m;
    var t := q + r;
    QuotientShrinks(p, m);
    assert p == q * m + r;
    if p == m * m + m - 1 {
      DivModUnique(p, m, m, m - 1);
      DivModUnique(t, m, 1, m - 1);
    } else if p < m * m + m - 1 {
      MultipleBeyond(q - m, m);
      assert (q - m) * m == q * m - m * m;
      MultipleBeyond(q - m - 1, m);
      assert (q - m - 1) * m == q * m - m * m - m;
      assert q <= m && t < 2 * m - 1;
      if t < m {
        DivModUnique(t, m, 0, t);
      } else {
        DivModUnique(t, m, 1, t - m);
      }
    }
  }

  /** On its asserted domain no register of `SkMul16ShiftRound` wraps. */
  lemma Mul16NoWrap(a: nat, b: nat, shift: nat)
    requires MulDomain(a, b, shift)
    ensures Mul16ShiftRound(a, b, shift) == ShiftRound(a * b, shift)
  {
    ProductBound(a, b, 32767);
    ShiftRoundNoWrap(a * b, shift);
  }

  lemma ShiftRoundNoWrap(n: nat, shift: nat)
    requires 0 < shift <= 8 && n <= 32767 * 32767
    ensures Wrap32(n) == n && ShiftRound32(n, shift) == ShiftRound(n, shift)
  {
    hide *;
    BiasValue(shift);
    Wrap32Small(n);
    var bias := Pow2(shift - 1);
    var quotient := Shr(n + bias, shift);
    NoWrapSteps(n, bias, quotient);
    ShiftRoundSteps(n, shift, bias, quotient);
  }

  lemma ShiftRoundSteps(n: nat, shift: nat, bias: nat, quotient: nat)
    requires shift > 0 && bias == Pow2(shift - 1) == Shl32(1, shift - 1)
    requires Wrap32(n + bias) == n + bias && quotient == Shr(n + bias, shift)
    requires Wrap32(n + bias + quotient) == n + bias + quotient
    ensures ShiftRound32(n, shift) == ShiftRound(n, shift) == Shr(n + bias + quotient, shift)
  {
    hide Pow2, Shr, Shl32, Wrap32;
  }

  /** The two additions, whatever the quotient in between, as long as it is no larger than the product. */
  lemma NoWrapSteps(n: nat, bias: nat, quotient: nat)
    requires n <= 32767 * 32767 && bias <= 128 && quotient <= n + bias
    ensures Wrap32(n + bias) == n + bias
    ensures Wrap32(n + bias + quotient) == n + bias + quotient
  {
    Wrap32Small(n + bias);
    Wrap32Small(n + bias + quotient);
  }

  lemma BiasValue(shift: nat)
    requires 0 < shift <= 8
    ensures Shl32(1, shift - 1) == Pow2(shift - 1) <= 128
  {
    SmallPow2(shift);
    hide Pow2;
    Wrap32Small(1 * Pow2(shift - 1));
  }

  lemma ProductBound(a: nat, b: nat, m: nat)
    requires a <= m && b <= m
    ensures 0 <= a * b <= m * m
  {
    assert a * b <= a * m;
    assert a * m <= m * m;
  }

  lemma SmallPow2(shift: nat)
    requires 0 < shift <= 8
    ensures Pow2(shift) >= 2 && Pow2(shift - 1) <= 128
  {
    PowMonotone(shift - 1, 7);
    Pow2Values();
  }

  lemma {:induction false} PowMonotone(i: nat, j: nat)
    requires i <= j
    ensures Pow2(i) <= Pow2(j)
  {
    if i < j {
      PowMonotone(i, j - 1);
    }
  }

  /** `SkMul16ShiftRound` meets its documentation exactly when the folded product is one digit, and
      always does for operands below 2^shift. */
  lemma Mul16Exact(a: nat, b: nat, shift: nat)
    requires MulDomain(a, b, shift)
    ensures 0 <= a * b
    ensures Nearest(Mul16ShiftRound(a, b, shift), a * b, Ones(shift)) <==> FoldsToDigit(a * b, shift)
    ensures a <= Ones(shift) && b <= Ones(shift) ==> FoldsToDigit(a * b, shift)
  {
    hide Mul16ShiftRound, ShiftRound, FoldsToDigit, Ones, Pow2, Nearest;
    Product(a, b);
    Mul16NoWrap(a, b, shift);
    ShiftRoundExactIff(a * b, shift);
    if a <= Ones(shift) && b <= Ones(shift) {
      DigitProductFolds(a, b, shift);
    }
  }

  /** A product of two base-2^shift digits folds to a digit. */
  lemma DigitProductFolds(a: nat, b: nat, shift: nat)
    requires shift > 0 && a <= Ones(shift) && b <= Ones(shift)
    ensures FoldsToDigit(a * b, shift)
  {
    var m := Pow2(shift);
    assert Ones(shift) == m - 1;
    hide Ones, Pow2, Fold, Nearest;
    DigitProduct(a, b, m);
    ShiftRoundFirstWrong(a * b, shift);
    ShiftRoundExactIff(a * b, shift);
  }

  lemma DigitProduct(a: nat, b: nat, m: nat)
    requires m > 0 && a < m && b < m
    ensures 0 <= a * b < m * m
  {
    ProductBound(a, b, m - 1);
    assert (m - 1) * (m - 1) == m * m - 2 * m + 1;
  }

  /** Inside the documented domain the documented rounding can fail by 64. */
  lemma MulDiv255CounterExample()
    ensures MulDiv255Round(32767, 32767) == 4210431
    ensures Nearest(4210495, 32767 * 32767, Ones(8))
  {
    Pow2Values();
  }

  /** For bytes, `SkMulDiv255Round` is c * a / 255 to the nearest integer, and at most either factor. */
  lemma MulDiv255OfBytes(c: nat, a: nat)
    requires c <= 255 && a <= 255
    ensures Nearest(MulDiv255Round(c, a), c * a, 255)
    ensures MulDiv255Round(c, a) <= a && MulDiv255Round(c, a) <= c
    ensures a == 255 ==> MulDiv255Round(c, a) == c
  {
    Pow2Values();
    assert Ones(8) == 255;
    Mul16Exact(c, a, 8);
    NearestByte(MulDiv255Round(c, a), c, a);
  }

  lemma NearestByte(r: int, c: nat, a: nat)
    requires c <= 255 && a <= 255 && Nearest(r, c * a, 255)
    ensures r <= a && r <= c && (a == 255 ==> r == c)
  {
    ProductBound(255 - c, a, 255);
    ProductBound(c, 255 - a, 255);
    assert c * a == 255 * a - (255 - c) * a == 255 * c - c * (255 - a);
  }

  /** `SkIsPow2` on an unsigned type of the given width: v - 1 wraps at zero. */
  predicate IsPow2(v: nat, width: nat)
    requires v < Pow2(width)
  {
    And(v, (v - 1) % Pow2(width)) == 0
  }

  ghost predicate IsPower(v: nat) {
    exists k: nat :: v == Pow2(k)
  }

  lemma PowerHalf(a: nat)
    ensures IsPower(2 * a) <==> IsPower(a)
    ensures IsPower(2 * a + 1) <==> a == 0
  {
    if k: nat :| 2 * a == Pow2(k) {
      assert a == Pow2(k - 1);
    }
    if k: nat :| a == Pow2(k) {
      assert 2 * a == Pow2(k + 1);
    }
    if k: nat :| 2 * a + 1 == Pow2(k) {
      assert k == 0;
    }
    assert Pow2(0) == 1;
  }

  /** At every width the test accepts the powers of two and, as its comment warns, also zero. */
  lemma IsPow2Iff(v: nat, width: nat)
    requires v < Pow2(width)
    ensures IsPow2(v, width) <==> v == 0 || IsPower(v)
  {
    if v > 0 {
      DivModUnique(v - 1, Pow2(width), 0, v - 1);
      BelowBitIff(v);
    } else {
      assert And(0, (v - 1) % Pow2(width)) == 0;
    }
  }

  lemma {:induction false} AndSelf(x: nat)
    ensures And(x, x) == x
  {
    if x > 0 {
      AndSelf(x / 2);
    }
  }

  lemma {:induction false} BelowBitIff(v: nat)
    requires v > 0
    ensures And(v, v - 1) == 0 <==> IsPower(v)
  {
    hide And;
    var a := v / 2;
    PowerHalf(a);
    if v % 2 == 0 {
      AndDouble(a, 0, a - 1, 1);
      BelowBitIff(a);
    } else {
      AndDouble(a, 1, a, 0);
      AndSelf(a);
    }
  }
}
