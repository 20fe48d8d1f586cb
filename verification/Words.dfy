/** Machine words as natural numbers.  Bitwise operators are defined bit by bit, so they have
    no built-in width; a fixed-width operation wraps its result explicitly. */
module Words {

  /** 2^32, the number of values of a `uint32_t`. */
  const W32: nat := 0x1_0000_0000
  /** 2^64, the number of values of a `uint64_t`. */
  const W64: nat := 0x1_0000_0000_0000_0000

  function Pow2(n: nat): (p: nat)
    ensures p > 0
  {
    if n == 0 then 1 else 2 * Pow2(n - 1)
  }

  function And(x: nat, y: nat): (r: nat)
    ensures r <= x && r <= y
  {
    if x == 0 || y == 0 then 0
    else 2 * And(x / 2, y / 2) + if x % 2 == 1 && y % 2 == 1 then 1 else 0
  }

  function Or(x: nat, y: nat): (r: nat)
    ensures x <= r && y <= r && r <= x + y
  {
    if x == 0 then y else if y == 0 then x
    else 2 * Or(x / 2, y / 2) + if x % 2 == 1 || y % 2 == 1 then 1 else 0
  }

  /** x * 2^k by repeated doubling. */
  function Scale2(x: nat, k: nat): nat {
    if k == 0 then x else 2 * Scale2(x, k - 1)
  }

  /** Reduction of an exact result to an unsigned 32-bit register. */
  function Wrap32(x: int): nat { x % 0x1_0000_0000 }

  /** Reduction of an exact result to an unsigned 64-bit register. */
  function Wrap64(x: int): nat { x % 0x1_0000_0000_0000_0000 }

  /** A carry out of the register is dropped. */
  lemma Wrap32Carry(k: int, r: nat)
    requires r < 0x1_0000_0000
    ensures Wrap32(0x1_0000_0000 * k + r) == r
  {
  }

  lemma Wrap32Small(x: int)
    requires 0 <= x < 0x1_0000_0000
    ensures Wrap32(x) == x
  {
  }

  lemma Wrap64Small(x: int)
    requires 0 <= x < 0x1_0000_0000_0000_0000
    ensures Wrap64(x) == x
  {
  }

  function Shl32(x: nat, n: nat): nat { Wrap32(x * Pow2(n)) }

  function Shr(x: nat, n: nat): (r: nat)
    ensures r <= x
  {
    QuotientShrinks(x, Pow2(n));
    x / Pow2(n)
  }

  /** Shifts by a whole number of bytes. */
  lemma ByteShifts(x: nat)
    ensures Shr(x, 8) == x / 0x100 && Shr(x, 24) == x / 0x100_0000
    ensures Shl32(x, 0) == Wrap32(x) && Shl32(x, 8) == Wrap32(0x100 * x)
    ensures Shl32(x, 16) == Wrap32(0x1_0000 * x) && Shl32(x, 24) == Wrap32(0x100_0000 * x)
  {
    Pow2Values();
  }

  lemma QuotientShrinks(x: nat, d: nat)
    requires d > 0
    ensures 0 <= x / d <= x
  {
    var q := x / d;
    MultipleBeyond(q, d);
    assert x == q * d + x % d;
    assert q * d - q == q * (d - 1);
    if d > 1 {
      MultipleBeyond(q, d - 1);
    }
  }

  lemma MultipleBeyond(e: int, d: int)
    requires d > 0
    ensures e >= 1 ==> e * d >= d
    ensures e <= -1 ==> e * d <= -d
  {
  }

  lemma Product(a: nat, b: nat)
    ensures a * b >= 0
    ensures a >= 1 ==> a * b >= b
  {
  }

  lemma MulOrder(a: nat, b: nat, k: nat)
    requires a <= b
    ensures a * k <= b * k
  {
  }

  lemma MultipleOrder(r: int, q: int, d: int)
    requires d > 0 && r * d - q * d < d
    ensures r <= q
  {
    MultipleBeyond(r - q, d);
    assert (r - q) * d == r * d - q * d;
  }

  /** Quotient and remainder are unique. */
  lemma DivModUnique(x: int, d: int, q: int, r: int)
    requires d > 0 && 0 <= r < d && x == q * d + r
    ensures x / d == q && x % d == r
  {
    var e := x / d - q;
    assert e * d == (x / d) * d - q * d;
    MultipleBeyond(e, d);
  }

  /** Bitwise complement of a 32-bit word. */
  function Not32(x: nat): nat
    requires x < W32
  {
    W32 - 1 - x
  }

  lemma Pow2Values()
    ensures Pow2(0) == 1 && Pow2(7) == 0x80 && Pow2(8) == 0x100 && Pow2(16) == 0x1_0000
    ensures Pow2(24) == 0x100_0000 && Pow2(32) == W32
  {
    assert Pow2(8) == 0x100;
    assert Pow2(16) == 0x1_0000;
    assert Pow2(24) == 0x100_0000;
  }

  lemma AndZero()
    ensures And(0, 0) == 0
  {
  }

  lemma OrZero()
    ensures Or(0, 0) == 0
  {
  }

  lemma AndDouble(x: nat, b: nat, y: nat, c: nat)
    requires b < 2 && c < 2
    ensures And(2 * x + b, 2 * y + c) == 2 * And(x, y) + And(b, c)
  {
    assert (2 * x + b) / 2 == x && (2 * y + c) / 2 == y;
    assert And(0, 0) == 0;
  }

  lemma OrDouble(x: nat, b: nat, y: nat, c: nat)
    requires b < 2 && c < 2
    ensures Or(2 * x + b, 2 * y + c) == 2 * Or(x, y) + Or(b, c)
  {
    assert (2 * x + b) / 2 == x && (2 * y + c) / 2 == y;
    assert Or(0, 0) == 0;
  }

  /** And works digit by digit in base 2^k. */
  lemma {:induction false} AndSplit(k: nat, xh: nat, xl: nat, yh: nat, yl: nat)
    requires xl < Pow2(k) && yl < Pow2(k)
    ensures And(Scale2(xh, k) + xl, Scale2(yh, k) + yl) == Scale2(And(xh, yh), k) + And(xl, yl)
  {
    AndZero();
    hide And;
    if k > 0 {
      var x, b, y, c := xl / 2, xl % 2, yl / 2, yl % 2;
      AndSplit(k - 1, xh, x, yh, y);
      AndDouble(Scale2(xh, k - 1) + x, b, Scale2(yh, k - 1) + y, c);
      AndDouble(x, b, y, c);
    }
  }

  /** Or works digit by digit in base 2^k. */
  lemma {:induction false} OrSplit(k: nat, xh: nat, xl: nat, yh: nat, yl: nat)
    requires xl < Pow2(k) && yl < Pow2(k)
    ensures Or(Scale2(xh, k) + xl, Scale2(yh, k) + yl) == Scale2(Or(xh, yh), k) + Or(xl, yl)
  {
    OrZero();
    hide Or;
    if k > 0 {
      var x, b, y, c := xl / 2, xl % 2, yl / 2, yl % 2;
      OrSplit(k - 1, xh, x, yh, y);
      OrDouble(Scale2(xh, k - 1) + x, b, Scale2(yh, k - 1) + y, c);
      OrDouble(x, b, y, c);
    }
  }

  /** A mask of k ones keeps every word below 2^k. */
  lemma {:induction false} AndOnes(x: nat, k: nat)
    requires x < Pow2(k)
    ensures And(x, Pow2(k) - 1) == x
  {
    if k > 0 {
      AndOnes(x / 2, k - 1);
      AndDouble(x / 2, x % 2, Pow2(k - 1) - 1, 1);
    }
  }

  lemma ScaleValues(x: nat)
    ensures Scale2(x, 8) == 0x100 * x && Scale2(x, 16) == 0x1_0000 * x
    ensures Scale2(x, 32) == 0x1_0000_0000 * x
  {
    ScaleByEight(x, 0);
    ScaleByEight(x, 8);
    ScaleByEight(x, 16);
    ScaleByEight(x, 24);
  }

  lemma ScaleByEight(x: nat, k: nat)
    ensures Scale2(x, k + 8) == 0x100 * Scale2(x, k)
  {
    assert Scale2(x, k + 2) == 4 * Scale2(x, k);
    assert Scale2(x, k + 4) == 4 * Scale2(x, k + 2);
    assert Scale2(x, k + 6) == 4 * Scale2(x, k + 4);
    assert Scale2(x, k + 8) == 4 * Scale2(x, k + 6);
  }

  lemma AndHalves(xh: nat, xl: nat, yh: nat, yl: nat)
    requires xl < 0x1_0000 && yl < 0x1_0000
    ensures And(0x1_0000 * xh + xl, 0x1_0000 * yh + yl) == 0x1_0000 * And(xh, yh) + And(xl, yl)
  {
    hide And;
    Pow2Values();
    ScaleValues(xh);
    ScaleValues(yh);
    ScaleValues(And(xh, yh));
    AndSplit(16, xh, xl, yh, yl);
  }

  lemma AndBytes(xh: nat, xl: nat, yh: nat, yl: nat)
    requires xl < 0x100 && yl < 0x100
    ensures And(0x100 * xh + xl, 0x100 * yh + yl) == 0x100 * And(xh, yh) + And(xl, yl)
  {
    hide And;
    Pow2Values();
    ScaleValues(xh);
    ScaleValues(yh);
    ScaleValues(And(xh, yh));
    AndSplit(8, xh, xl, yh, yl);
  }

  /** The mask 0x00FF00FF keeps bytes 0 and 2. */
  lemma AndEvenBytes(b0: nat, b1: nat, b2: nat, b3: nat)
    requires b0 < 0x100 && b1 < 0x100 && b2 < 0x100 && b3 < 0x100
    ensures And(b0 + 0x100 * b1 + 0x1_0000 * b2 + 0x100_0000 * b3, 0x00FF_00FF) == b0 + 0x1_0000 * b2
  {
    Pow2Values();
    hide And;
    AndHalves(b2 + 0x100 * b3, b0 + 0x100 * b1, 0xFF, 0xFF);
    AndBytes(b1, b0, 0, 0xFF);
    AndBytes(b3, b2, 0, 0xFF);
    AndOnes(b0, 8);
    AndOnes(b2, 8);
  }

  /** The mask 0xFF00FF00 keeps bytes 1 and 3. */
  lemma AndOddBytes(b0: nat, b1: nat, b2: nat, b3: nat)
    requires b0 < 0x100 && b1 < 0x100 && b2 < 0x100 && b3 < 0x100
    ensures And(b0 + 0x100 * b1 + 0x1_0000 * b2 + 0x100_0000 * b3, 0xFF00_FF00)
         == 0x100 * b1 + 0x100_0000 * b3
  {
    hide And;
    AndBytes(b1 + 0x100 * b2 + 0x1_0000 * b3, b0, 0x00FF_00FF, 0);
    AndEvenBytes(b1, b2, b3, 0);
  }

  lemma OrBytes(xh: nat, xl: nat, yh: nat, yl: nat)
    requires xl < 0x100 && yl < 0x100
    ensures Or(0x100 * xh + xl, 0x100 * yh + yl) == 0x100 * Or(xh, yh) + Or(xl, yl)
  {
    hide Or;
    Pow2Values();
    ScaleValues(xh);
    ScaleValues(yh);
    ScaleValues(Or(xh, yh));
    OrSplit(8, xh, xl, yh, yl);
  }

  /** Or acts on each byte separately; a byte joined with zero is unchanged. */
  lemma OrFourBytes(b0: nat, b1: nat, b2: nat, b3: nat, c0: nat, c1: nat, c2: nat, c3: nat)
    requires b0 < 0x100 && b1 < 0x100 && b2 < 0x100 && b3 < 0x100
    requires c0 < 0x100 && c1 < 0x100 && c2 < 0x100 && c3 < 0x100
    ensures Or(b0 + 0x100 * b1 + 0x1_0000 * b2 + 0x100_0000 * b3, c0 + 0x100 * c1 + 0x1_0000 * c2 + 0x100_0000 * c3)
         == Or(b0, c0) + 0x100 * Or(b1, c1) + 0x1_0000 * Or(b2, c2) + 0x100_0000 * Or(b3, c3)
  {
    hide Or;
    OrBytes(b1 + 0x100 * b2 + 0x1_0000 * b3, b0, c1 + 0x100 * c2 + 0x1_0000 * c3, c0);
    OrBytes(b2 + 0x100 * b3, b1, c2 + 0x100 * c3, c1);
    OrBytes(b3, b2, c3, c2);
  }

  /** The upper and lower 32 bits of a 64-bit word do not interact. */
  lemma WordHalves(h: nat, l: nat, mask: nat)
    requires l < 0x1_0000_0000 && mask < 0x1_0000_0000
    ensures Or(0x1_0000_0000 * h, l) == 0x1_0000_0000 * h + l
    ensures And(0x1_0000_0000 * h + l, mask) == And(l, mask)
  {
    hide Or, And;
    Pow2Values();
    ScaleValues(h);
    ScaleValues(0);
    OrSplit(32, h, 0, 0, l);
    AndSplit(32, h, l, 0, mask);
  }
}
