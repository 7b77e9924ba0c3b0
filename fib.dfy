/** The four Fibonacci routines of fibdrv.c: fast doubling and the linear recurrence, each on
    the 256-bit bignum and on `long long`. The loops reassign their locals exactly as the C
    does; the bignum operations are the methods of module BigNum, and the 64-bit operations
    wrap (signed overflow, undefined in C, is modelled as two's-complement wrap-around). */
module Fibonacci {
  import opened Arith
  import opened Machine
  import opened Limbs
  import opened BigNumSpec
  import opened Ops = BigNum
  import opened FibSpec

  /** The largest offset the device serves (fibdrv.c:24). */
  const MAX_LENGTH: nat := 368

  /** 2^64, the modulus of `long long` arithmetic. */
  const W64: nat := 0x1_0000_0000_0000_0000

  /** The index of the highest set bit of `k`, `sizeof(long long) * 8 - 1 - clz(k)`. */
  function HighestBit(k: int): (r: nat)
    requires k > 0
    ensures Pow2(r) <= k < Pow2(r + 1)
  {
    if k == 1 then 0 else 1 + HighestBit(k / 2)
  }

  /** The bits of `k` above bit `e`, that is `k / 2^(e + 1)`. */
  function Above(k: nat, e: int): (r: nat)
    decreases e + 1
  {
    if e < 0 then k else Above(k, e - 1) / 2
  }

  lemma {:induction false} AboveIs(k: nat, e: int)
    requires -1 <= e
    ensures Above(k, e) == k / Pow2(e + 1)
  {
    if e >= 0 {
      AboveIs(k, e - 1);
      DivDiv(k, Pow2(e), 2);
    }
  }

  /** The state of the mask loops: the mask is at bit `e` of `k` (0 once past bit 0), and `n`
      is the number formed by the bits of `k` above it, the bits scanned so far. */
  ghost predicate Scanned(k: int, e: int, mask: int, n: int)
    requires k > 0
  {
    -1 <= e <= HighestBit(k) && mask == (if e >= 0 then Pow2(e) else 0) && n == Above(k, e)
  }

  /** At the highest set bit nothing has been scanned yet. */
  lemma MaskStart(k: int)
    requires k > 0
    ensures Scanned(k, HighestBit(k), Pow2(HighestBit(k)), 0)
  {
    AboveIs(k, HighestBit(k));
    ModOfSmall(k, Pow2(HighestBit(k) + 1));
  }

  /** Testing `k & mask` appends bit `e` of `k` to the bits scanned, and `mask >>= 1` moves
      the mask to bit `e - 1`. */
  lemma MaskNext(k: int, e: int, mask: int, n: int)
    requires k > 0 && Scanned(k, e, mask, n) && mask > 0
    ensures k / mask > 0 && (k / mask) / 2 == n && Scanned(k, e - 1, mask / 2, k / mask)
  {
    Pow2Monotone(e, HighestBit(k));
    MaskStep(k, e, mask);
    AboveIs(k, e - 1);
  }

  lemma MaskStep(k: int, e: int, mask: int)
    requires 0 <= e && mask == Pow2(e) && mask <= k
    ensures k / mask >= 1
    ensures mask / 2 == if e >= 1 then Pow2(e - 1) else 0
  {
    assert k == (k / mask) * mask + k % mask;
  }

  /** Once the mask reaches zero every bit of `k` has been scanned. */
  lemma MaskDone(k: int, e: int, mask: int, n: int)
    requires k > 0 && Scanned(k, e, mask, n) && mask <= 0
    ensures n == k
  {
  }

  // ---------------------------------------------------------------------------------------
  // Fast doubling on the bignum (fibdrv.c:64-94)

  /** One pass of the loop body of `fib_bignum_fast` (fibdrv.c:77-91) on the pair (a, b):
      t = (2b - a) a, b = a^2 + b^2, a = t, then one step forward when the bit is set. */
  ghost function DoublingStep(a: BigNum, b: BigNum, bit: bool): (BigNum, BigNum)
  {
    var t := Product(Difference(ShiftedLeft(b, 0), a), a);
    var b2 := Sum(Product(a, a), Product(b, b));
    if bit then (b2, Sum(t, b2)) else (t, b2)
  }

  /** The bignum of value 1. */
  const One: BigNum := BigNum([1, 0, 0, 0, 0, 0, 0], 0)

  /** The loop starts from (F(0), F(1)) = (0, 1). */
  lemma StartIs()
    ensures OfVal(0) == Zero && OfVal(1) == One
    ensures Uns(Zero) == 0 && Uns(One) == 1
  {
    ZeroUnique(OfVal(0));
    assert Uns(One) == 1 by {
      LimbsValCons(1, Zero.num[1..]);
      assert One.num == [1] + Zero.num[1..];
      assert LimbsVal(Zero.num) == 0 by {
        ZeroUnique(Zero);
      }
      assert LimbsVal(Zero.num[1..]) == 0;
    }
    UnsInjective(OfVal(1), One);
  }

  /** The pair the fast loop holds once it has scanned the bits of `n`, starting from
      (0, 1) at the highest set bit. */
  ghost function Doubling(n: nat): (BigNum, BigNum)
    decreases n, 1
  {
    if n == 0 then (Zero, One) else Pass(n)
  }

  /** The pass for the last bit of `n > 0`, over the pair of the bits above it. */
  ghost function Pass(n: nat): (BigNum, BigNum)
    requires n > 0
    decreases n, 0
  {
    var p := Doubling(n / 2);
    DoublingStep(p.0, p.1, n % 2 == 1)
  }

  /** A bignum with unsigned reading `v` is the bignum of `v`. */
  lemma UnsIs(c: BigNum, v: int)
    requires 0 <= v < MODULUS && Uns(c) == v
    ensures c == OfVal(v)
  {
    ModOfSmall(v, MODULUS);
    UnsInjective(c, OfVal(v));
  }

  /** 2b - a, exact when it fits. */
  lemma TwiceMinus(a: BigNum, b: BigNum)
    requires 0 <= Val(a) <= Val(b) && 2 * Val(b) < HALF
    ensures Val(Difference(ShiftedLeft(b, 0), a)) == 2 * Val(b) - Val(a)
  {
    ShiftLeftDoubles(b, 0);
    DifferenceValue(ShiftedLeft(b, 0), a);
  }

  /** The product of two non-negative bignums, exact when it fits. */
  lemma ProductIs(a: BigNum, b: BigNum, f: int)
    requires 0 <= Val(a) && 0 <= Val(b) && f == Val(a) * Val(b) && 0 <= f < HALF
    ensures Product(a, b) == OfVal(f)
  {
    var p := Product(a, b);
    ProductValue(a, b);
    assert Val(p) == f;
    UnsIs(p, f);
  }

  /** The sum of two non-negative bignums modulo 2^256, exact in the unsigned reading. */
  lemma SumIs(a: BigNum, b: BigNum, f: int)
    requires 0 <= Val(a) && 0 <= Val(b) && f == Val(a) + Val(b) && f < MODULUS
    ensures Sum(a, b) == OfVal(f)
  {
    SumValue(a, b);
    ModOfSmall(f, MODULUS);
    UnsIs(Sum(a, b), f);
  }

  /** (2y - x) x, which `bignum_mul(&t, &a, &t)` computes, is x (2y - x). */
  lemma Commute(z: int, x: int, y: int, f: int)
    requires z == 2 * y - x && f == x * (2 * y - x)
    ensures f == z * x
  {
  }

  /** The even half of a doubling step on values: (2b - a) a, exact when it fits. */
  lemma EvenHalfValue(a: BigNum, b: BigNum, x: int, y: int, f: int, g: int)
    requires Val(a) == x && Val(b) == y && 0 <= x <= y && 2 * y < HALF
    requires DoublingRule(x, y, f, g) && 0 <= f < HALF
    ensures Product(Difference(ShiftedLeft(b, 0), a), a) == OfVal(f)
  {
    var df := Difference(ShiftedLeft(b, 0), a);
    TwiceMinus(a, b);
    Commute(Val(df), x, y, f);
    ProductIs(df, a, f);
  }

  /** The odd half of a doubling step on values: a^2 + b^2 modulo 2^256. */
  lemma OddHalfValue(a: BigNum, b: BigNum, x: int, y: int, f: int, g: int)
    requires Val(a) == x && Val(b) == y && 0 <= x && 0 <= y && x * x < HALF && y * y < HALF
    requires DoublingRule(x, y, f, g) && g < MODULUS
    ensures Sum(Product(a, a), Product(b, b)) == OfVal(g)
  {
    var fa, fb := x * x, y * y;
    MulLe(x, 0, x);
    MulLe(y, 0, y);
    ProductIs(a, a, fa);
    ProductIs(b, b, fb);
    SumIs(Product(a, a), Product(b, b), g);
  }

  /** Adding two consecutive Fibonacci bignums gives the next one, modulo 2^256. */
  lemma SumIsNext(i: int, j: int, k: int)
    requires 0 <= i && j == i + 1 && k == j + 1
    ensures Sum(OfVal(Fib(i)), OfVal(Fib(j))) == OfVal(Fib(k))
  {
    FibNext(i, j, k);
    SumOfResidues(OfVal(Fib(i)), OfVal(Fib(j)), Fib(i), Fib(j), Fib(k));
  }

  /** Adding the bignums of x and y gives the bignum of x + y, modulo 2^256. */
  lemma SumOfResidues(a: BigNum, b: BigNum, x: int, y: int, z: int)
    requires a == OfVal(x) && b == OfVal(y) && z == x + y
    ensures Sum(a, b) == OfVal(z)
  {
    ResidueSum(x, y, z, Uns(a), Uns(b), MODULUS);
    SumOfUns(a, b, OfVal(z));
  }

  lemma ResidueSum(x: int, y: int, z: int, rx: int, ry: int, m: int)
    requires 0 < m && rx == x % m && ry == y % m && z == x + y
    ensures z % m == (rx + ry) % m
  {
    ModOfReduced(x, y, rx, ry, m);
  }

  /** The pair holds F(n) and F(n + 1) as 256-bit patterns. */
  ghost predicate HoldsFib(p: (BigNum, BigNum), n: nat)
  {
    Uns(p.0) == Fib(n) && Uns(p.1) == Fib(n + 1)
  }

  /** The invariant of the fast loop: for every prefix n of the bits of k with n <= 368 the
      pair is (F(n), F(n+1)); F(369) does not fit a signed bignum but its pattern is exact. */
  lemma {:induction false} DoublingIsFib(n: nat)
    requires n <= MAX_LENGTH
    ensures HoldsFib(Doubling(n), n)
  {
    if n == 0 {
      StartIs();
    } else {
      DoublingIsFib(n / 2);
      if n % 2 == 0 {
        EvenNext(n, n / 2);
      } else {
        OddNext(n, n / 2);
      }
    }
  }

  /** The inductive step of DoublingIsFib for an even n. */
  lemma EvenNext(n: nat, m: nat)
    requires 0 < n <= MAX_LENGTH && n % 2 == 0 && m == n / 2 && HoldsFib(Doubling(m), m)
    ensures HoldsFib(Doubling(n), n)
  {
    DoublingNext(n, m, false);
    EvenPass(Doubling(m).0, Doubling(m).1, m, m + 1, n, n + 1);
  }

  /** The inductive step of DoublingIsFib for an odd n. */
  lemma OddNext(n: nat, m: nat)
    requires 0 < n <= MAX_LENGTH && n % 2 == 1 && m == n / 2 && HoldsFib(Doubling(m), m)
    ensures HoldsFib(Doubling(n), n)
  {
    DoublingNext(n, m, true);
    OddPass(Doubling(m).0, Doubling(m).1, m, m + 1, 2 * m, n, n + 1);
  }

  /** Doubling unfolded once: the pair of n is the pass over the pair of n / 2. */
  lemma DoublingNext(n: nat, m: nat, bit: bool)
    requires n > 0 && m == n / 2 && bit == (n % 2 == 1)
    ensures Doubling(n) == DoublingStep(Doubling(m).0, Doubling(m).1, bit)
  {
    assert Doubling(n) == Pass(n);
  }

  /** A pass for a clear bit takes (F(m), F(m+1)) to (F(2m), F(2m+1)). */
  lemma EvenPass(a: BigNum, b: BigNum, m: int, m1: int, d: int, d1: int)
    requires 0 <= m && m1 == m + 1 && d == 2 * m && d1 == d + 1 && d <= MAX_LENGTH
    requires Uns(a) == Fib(m) && Uns(b) == Fib(m1)
    ensures HoldsFib(DoublingStep(a, b, false), d)
  {
    FibFitsPattern(m1);
    FibFitsPattern(d1);
    UnsIs(a, Fib(m));
    UnsIs(b, Fib(m1));
    EvenValues(m, m1, d, d1);
    PatternOf(Fib(d));
    PatternOf(Fib(d1));
  }

  /** A pass for a set bit takes (F(m), F(m+1)) to (F(2m+1), F(2m+2)). */
  lemma OddPass(a: BigNum, b: BigNum, m: int, m1: int, d: int, d1: int, d2: int)
    requires 0 <= m && m1 == m + 1 && d == 2 * m && d1 == d + 1 && d2 == d1 + 1
    requires d1 <= MAX_LENGTH
    requires Uns(a) == Fib(m) && Uns(b) == Fib(m1)
    ensures HoldsFib(DoublingStep(a, b, true), d1)
  {
    FibFitsPattern(m1);
    FibFitsPattern(d2);
    FibMonotone(d1, d2);
    UnsIs(a, Fib(m));
    UnsIs(b, Fib(m1));
    OddValues(m, m1, d, d1, d2);
    PatternOf(Fib(d1));
    PatternOf(Fib(d2));
  }

  /** The bignum of a value below 2^256 reads back as that value. */
  lemma PatternOf(v: int)
    requires 0 <= v < MODULUS
    ensures Uns(OfVal(v)) == v
  {
    ModOfSmall(v, MODULUS);
  }

  /** The even pass on the bignums of F(m) and F(m+1). */
  lemma EvenValues(m: int, m1: int, d: int, d1: int)
    requires 0 <= m && m1 == m + 1 && d == 2 * m && d1 == d + 1 && d <= MAX_LENGTH
    ensures DoublingStep(OfVal(Fib(m)), OfVal(Fib(m1)), false) == (OfVal(Fib(d)), OfVal(Fib(d1)))
  {
    EvenHalf(m, m1, d, d1);
    OddHalf(m, m1, d, d1);
  }

  /** The odd pass on the bignums of F(m) and F(m+1). */
  lemma OddValues(m: int, m1: int, d: int, d1: int, d2: int)
    requires 0 <= m && m1 == m + 1 && d == 2 * m && d1 == d + 1 && d2 == d1 + 1
    requires d1 <= MAX_LENGTH
    ensures DoublingStep(OfVal(Fib(m)), OfVal(Fib(m1)), true) == (OfVal(Fib(d1)), OfVal(Fib(d2)))
  {
    EvenHalf(m, m1, d, d1);
    OddHalf(m, m1, d, d1);
    SumIsNext(d, d1, d2);
  }

  /** F(2m) = (2 F(m+1) - F(m)) F(m), exactly, for 2m <= 368. */
  lemma EvenHalf(m: int, m1: int, d: int, d1: int)
    requires 0 <= m && m1 == m + 1 && d == 2 * m && d1 == d + 1 && d <= MAX_LENGTH
    ensures Product(Difference(ShiftedLeft(OfVal(Fib(m1)), 0), OfVal(Fib(m))), OfVal(Fib(m)))
            == OfVal(Fib(d))
  {
    var x: int, y: int, f: int, g: int := Fib(m), Fib(m1), Fib(d), Fib(d1);
    FibSquareFits(m1);
    FibMonotone(m, m1);
    FibDoubleValues(m, m1, d, d1, x, y, f, g);
    FibFitsBigNum(d);
    EvenHalfValue(OfVal(x), OfVal(y), x, y, f, g);
  }

  /** F(2m+1) = F(m)^2 + F(m+1)^2, exactly in the pattern, for 2m + 1 <= 369. */
  lemma OddHalf(m: int, m1: int, d: int, d1: int)
    requires 0 <= m && m1 == m + 1 && d == 2 * m && d1 == d + 1 && d1 <= MAX_LENGTH + 1
    ensures Sum(Product(OfVal(Fib(m)), OfVal(Fib(m))), Product(OfVal(Fib(m1)), OfVal(Fib(m1))))
            == OfVal(Fib(d1))
  {
    var x: int, y: int, f: int, g: int := Fib(m), Fib(m1), Fib(d), Fib(d1);
    FibSquareFits(m);
    FibSquareFits(m1);
    FibDoubleValues(m, m1, d, d1, x, y, f, g);
    FibFitsPattern(d1);
    OddHalfValue(OfVal(x), OfVal(y), x, y, f, g);
  }

  // ---------------------------------------------------------------------------------------
  // Fast doubling beyond MAX_LENGTH, modulo 2^256

  /** The three signed bignums a pass hands to `bignum_mul` (fibdrv.c:80-83): a, b and
      2b - a. Each product is the signed product modulo 2^256 when `bignum_abs` is exact on
      its operands, that is unless one of them is negative with a zero low limb. */
  ghost predicate PassExact(a: BigNum, b: BigNum)
  {
    AbsIsExact(a) && AbsIsExact(b) && AbsIsExact(Difference(ShiftedLeft(b, 0), a))
  }

  /** Every pass the fast loop runs on its way to the prefix n multiplies exactly. */
  ghost predicate ExactAlong(n: nat)
    decreases n
  {
    n == 0 || (ExactAlong(n / 2) && PassExact(Doubling(n / 2).0, Doubling(n / 2).1))
  }

  /** The pair holds F(n) and F(n + 1) modulo 2^256. */
  ghost predicate HoldsFibMod(p: (BigNum, BigNum), n: nat)
  {
    Uns(p.0) == Fib(n) % MODULUS && Uns(p.1) == Fib(n + 1) % MODULUS
  }

  /** The invariant of the fast loop for every prefix n: while every pass multiplies exactly,
      the pair is (F(n), F(n+1)) modulo 2^256. */
  lemma {:induction false} DoublingIsFibMod(n: nat)
    requires ExactAlong(n)
    ensures HoldsFibMod(Doubling(n), n)
  {
    if n == 0 {
      StartIs();
      ModOfSmall(Fib(0), MODULUS);
      ModOfSmall(Fib(1), MODULUS);
    } else {
      DoublingIsFibMod(n / 2);
      NextMod(n, n / 2);
    }
  }

  /** The inductive step of DoublingIsFibMod. */
  lemma NextMod(n: nat, m: nat)
    requires n > 0 && m == n / 2 && HoldsFibMod(Doubling(m), m)
    requires PassExact(Doubling(m).0, Doubling(m).1)
    ensures HoldsFibMod(Doubling(n), n)
  {
    var bit := n % 2 == 1;
    DoublingNext(n, m, bit);
    PassMod(Doubling(m).0, Doubling(m).1, m, bit, if bit then n else n + 1);
  }

  /** Up to MAX_LENGTH every operand of every pass is non-negative, so the hypothesis of
      DoublingIsFibMod holds there. */
  lemma {:induction false} ExactUpTo(n: nat)
    requires n <= MAX_LENGTH
    ensures ExactAlong(n)
  {
    if n > 0 {
      var m := n / 2;
      ExactUpTo(m);
      DoublingIsFib(m);
      FibSquareFits(m + 1);
      FibMonotone(m, m + 1);
      ExactPass(Doubling(m).0, Doubling(m).1, Fib(m), Fib(m + 1));
    }
  }

  /** A pass over 0 <= a <= b with 2b below 2^255 multiplies only non-negative operands. */
  lemma ExactPass(a: BigNum, b: BigNum, x: int, y: int)
    requires Uns(a) == x && Uns(b) == y && 0 <= x <= y && 2 * y < HALF
    ensures PassExact(a, b)
  {
    ModOfSmall(2 * y, MODULUS);
    ModOfSmall(2 * y - x, MODULUS);
  }

  /** A pass whose products are exact takes (F(m), F(m+1)) modulo 2^256 to (F(2m), F(2m+1))
      for a clear bit and to (F(2m+1), F(2m+2)) for a set one, modulo 2^256. */
  lemma PassMod(a: BigNum, b: BigNum, m: nat, bit: bool, d1: nat)
    requires HoldsFibMod((a, b), m) && PassExact(a, b) && d1 == 2 * m + 1
    ensures bit ==> HoldsFibMod(DoublingStep(a, b, true), d1)
    ensures !bit ==> HoldsFibMod(DoublingStep(a, b, false), d1 - 1)
  {
    var t := Product(Difference(ShiftedLeft(b, 0), a), a);
    var b2 := Sum(Product(a, a), Product(b, b));
    var u := 2 * Fib(m + 1) - Fib(m);
    EvenFactors(m, d1 - 1, u);
    EvenHalfMod(a, b, Fib(m), Fib(m + 1), u, Fib(d1 - 1));
    OddHalfMod(a, b, m, d1);
    if bit {
      SumNextMod(t, b2, d1);
    }
  }

  /** The set-bit pass adds the two halves: F(2m) + F(2m+1) = F(2m+2), modulo 2^256. */
  lemma SumNextMod(t: BigNum, b2: BigNum, d1: nat)
    requires d1 >= 1 && Uns(t) == Fib(d1 - 1) % MODULUS && Uns(b2) == Fib(d1) % MODULUS
    ensures Uns(Sum(t, b2)) == Fib(d1 + 1) % MODULUS
  {
    FibNext(d1 - 1, d1, d1 + 1);
    ResidueSum(Fib(d1 - 1), Fib(d1), Fib(d1 + 1), Uns(t), Uns(b2), MODULUS);
  }

  /** (2b - a) a is u x = (2y - x) x modulo 2^256 when a and b are x and y modulo 2^256 and
      abs is exact on both factors. */
  lemma EvenHalfMod(a: BigNum, b: BigNum, x: int, y: int, u: int, f: int)
    requires Uns(a) == x % MODULUS && Uns(b) == y % MODULUS && u == 2 * y - x && f == u * x
    requires AbsIsExact(a) && AbsIsExact(Difference(ShiftedLeft(b, 0), a))
    ensures Uns(Product(Difference(ShiftedLeft(b, 0), a), a)) == f % MODULUS
  {
    TwiceMinusMod(a, b, x, y);
    ProductMod(Difference(ShiftedLeft(b, 0), a), a, u, x, f);
  }

  /** a^2 + b^2 is F(2m + 1) modulo 2^256 when a and b are F(m) and F(m + 1) modulo 2^256 and
      abs is exact on both. */
  lemma OddHalfMod(a: BigNum, b: BigNum, m: nat, d1: nat)
    requires HoldsFibMod((a, b), m) && d1 == 2 * m + 1
    requires AbsIsExact(a) && AbsIsExact(b)
    ensures Uns(Sum(Product(a, a), Product(b, b))) == Fib(d1) % MODULUS
  {
    ProductMod(a, a, Fib(m), Fib(m), Fib(m) * Fib(m));
    ProductMod(b, b, Fib(m + 1), Fib(m + 1), Fib(m + 1) * Fib(m + 1));
    SquaresMod(Product(a, a), Product(b, b), m, d1);
  }

  /** The sum of F(m)^2 and F(m + 1)^2 modulo 2^256 is F(2m + 1) modulo 2^256. */
  lemma SquaresMod(p: BigNum, q: BigNum, m: nat, d1: nat)
    requires d1 == 2 * m + 1
    requires Uns(p) == (Fib(m) * Fib(m)) % MODULUS && Uns(q) == (Fib(m + 1) * Fib(m + 1)) % MODULUS
    ensures Uns(Sum(p, q)) == Fib(d1) % MODULUS
  {
    OddResidue(m, d1, Uns(p), Uns(q), MODULUS);
  }

  /** Shifting b left and subtracting a gives 2y - x modulo 2^256, from residues of x and y. */
  lemma TwiceMinusMod(a: BigNum, b: BigNum, x: int, y: int)
    requires Uns(a) == x % MODULUS && Uns(b) == y % MODULUS
    ensures Uns(Difference(ShiftedLeft(b, 0), a)) == (2 * y - x) % MODULUS
  {
    TwiceMinusResidue(Uns(b), Uns(a), Uns(ShiftedLeft(b, 0)), y, x, MODULUS);
  }

  /** Multiplying bignums whose abs is exact multiplies their residues: c a is u x = f modulo
      2^256. */
  lemma ProductMod(c: BigNum, a: BigNum, u: int, x: int, f: int)
    requires Uns(c) == u % MODULUS && Uns(a) == x % MODULUS && AbsIsExact(c) && AbsIsExact(a)
    requires f == u * x
    ensures Uns(Product(c, a)) == f % MODULUS
  {
    UnsIsValMod(c);
    UnsIsValMod(a);
    ProductValue(c, a);
    MulResidue(Val(c), Val(a), u, x, MODULUS);
  }

  /** F(2m) = u F(m) with u = 2 F(m+1) - F(m). */
  lemma EvenFactors(m: nat, d: nat, u: int)
    requires d == 2 * m && u == 2 * Fib(m + 1) - Fib(m)
    ensures u * Fib(m) == Fib(d)
  {
    var x: int, y: int, f: int := Fib(m), Fib(m + 1), Fib(d);
    FibDouble(m, m + 1, d, d + 1);
    Commute(u, x, y, f);
  }

  /** F(2m + 1) = F(m)^2 + F(m+1)^2 modulo any w, from the residues of the two squares. */
  lemma OddResidue(m: nat, d1: nat, p: int, q: int, w: int)
    requires 0 < w && d1 == 2 * m + 1
    requires p == (Fib(m) * Fib(m)) % w && q == (Fib(m + 1) * Fib(m + 1)) % w
    ensures (p + q) % w == Fib(d1) % w
  {
    var x: int, y: int, g: int := Fib(m), Fib(m + 1), Fib(d1);
    FibDouble(m, m + 1, d1 - 1, d1);
    ResidueSum(x * x, y * y, g, p, q, w);
  }

  /** The residue of a product is the product of residues. */
  lemma MulResidue(u: int, v: int, x: int, y: int, m: int)
    requires 0 < m && u % m == x % m && v % m == y % m
    ensures (u * v) % m == (x * y) % m
  {
    ModMul(u, v, m);
    ModMul(x, y, m);
  }

  /** The residue of 2y - x from the residues of y and x, with 2y reduced first. */
  lemma TwiceMinusResidue(ub: int, ua: int, s: int, y: int, x: int, m: int)
    requires 0 < m && ub == y % m && ua == x % m && s == (2 * ub) % m
    ensures (s - ua) % m == (2 * y - x) % m
  {
    ModOfReducedScaled(y, ub, 2, 0, m);
    ModOfReduced(2 * y, x, s, ua, m);
  }

  /** The loop body of `fib_bignum_fast` (fibdrv.c:77-91). */
  method DoublingRound(a0: BigNum, b0: BigNum, bit: bool, ghost n: nat)
    returns (a: BigNum, b: BigNum)
    requires n > 0 && bit == (n % 2 == 1) && (a0, b0) == Doubling(n / 2)
    ensures (a, b) == Doubling(n)
  {
    a, b := a0, b0;
    var t := Shl1(b, 0);
    t := Sub(t, a);
    t := Mul(t, a);
    b := Mul(b, b);
    a := Mul(a, a);
    b := Add(a, b);
    a := t;
    if bit {
      t := Add(a, b);
      a := b;
      b := t;
    }
    DoublingNext(n, n / 2, bit);
  }

  /** `fib_bignum_fast` (fibdrv.c:64-94). The in-place calls `bignum_sub(&t, &a, &t)`,
      `bignum_mul(&b, &b, &b)` and `bignum_add(&a, &b, &b)` become reassignments. The mask is
      an `int` set to `1 << (63 - clz(k))`, which overflows for k >= 2^31; hence the
      precondition. */
  method FibBignumFast(k: int64) returns (r: BigNum)
    requires k < 0x8000_0000
    ensures k <= 1 ==> r == OfVal(k)
    ensures k >= 2 ==> r == Doubling(k).0
    ensures 0 <= k <= MAX_LENGTH ==> r == OfVal(Fib(k)) && Val(r) == Fib(k)
    ensures k >= 0 && ExactAlong(k) ==> Uns(r) == Fib(k) % MODULUS
  {
    if k <= 1 {
      r := FromInt(k);
      if k >= 0 {
        ModOfSmall(Fib(k), MODULUS);
      }
      return;
    }
    var a := FromInt(0);
    var b := FromInt(1);
    StartIs();
    r := DoublingLoop(k, a, b);
    if ExactAlong(k) {
      DoublingIsFibMod(k);
    }
    if k <= MAX_LENGTH {
      DoublingIsFib(k);
      FibFitsBigNum(k);
      UnsIs(r, Fib(k));
    }
  }

  /** The loop of `fib_bignum_fast` (fibdrv.c:75-93), from (a, b) = (0, 1) with the mask at
      the highest set bit of `k` down to bit 0. `k & mask` with `mask == 2^e` is bit `e` of
      `k`, `(k / mask) % 2`; `mask >>= 1` on a positive `int` is `mask / 2`. */
  method DoublingLoop(k: int64, a0: BigNum, b0: BigNum) returns (r: BigNum)
    requires 2 <= k < 0x8000_0000 && (a0, b0) == Doubling(0)
    ensures r == Doubling(k).0
  {
    var a, b := a0, b0;
    var mask: int32 := Pow2(HighestBit(k));
    ghost var e: int := HighestBit(k);
    ghost var n: int := 0;
    MaskStart(k);
    while mask > 0
      invariant Scanned(k, e, mask, n) && 0 <= n
      invariant (a, b) == Doubling(n)
      decreases mask
    {
      MaskNext(k, e, mask, n);
      a, b := DoublingRound(a, b, (k / mask) % 2 == 1, k / mask);
      n := k / mask;
      mask := mask / 2;
      e := e - 1;
    }
    MaskDone(k, e, mask, n);
    r := a;
  }

  // ---------------------------------------------------------------------------------------
  // The linear recurrence on the bignum (fibdrv.c:113-130)

  /** `fib_bignum_orig` (fibdrv.c:113-130): k - 1 additions, F(k) modulo 2^256 for every k.
      `result` is the caller's uninitialised struct until the first pass assigns it. */
  method FibBignumOrig(k: int64) returns (r: BigNum)
    ensures k <= 1 ==> r == OfVal(k)
    ensures k >= 0 ==> r == OfVal(Fib(k)) && Uns(r) == Fib(k) % MODULUS
    ensures 0 <= k <= MAX_LENGTH ==> Val(r) == Fib(k)
  {
    if k <= 1 {
      r := FromInt(k);
      return;
    }
    var a := FromInt(0);
    var b := FromInt(1);
    var i := k;
    r := b;
    while i > 1
      invariant 1 <= i <= k
      invariant a == OfVal(Fib(k - i)) && b == OfVal(Fib(k - i + 1))
      invariant i < k ==> r == b
    {
      r := Add(a, b);
      SumIsNext(k - i, k - i + 1, k - i + 2);
      a := b;
      b := r;
      i := i - 1;
    }
    if k <= MAX_LENGTH {
      FibFitsBigNum(k);
    }
  }

  // ---------------------------------------------------------------------------------------
  // The 64-bit versions (fibdrv.c:149-196)

  /** The int64 congruent to `x` modulo 2^64 is `Wrap64(x)`. */
  lemma WrapUnique(r: int64, x: int)
    requires r % W64 == x % W64
    ensures r == Wrap64(x)
  {
    var s := Wrap64(x);
    var h: int := 0x8000_0000_0000_0000;
    ModAdd(r, h, W64);
    ModAdd(s, h, W64);
    ModOfSmall(r + h, W64);
    ModOfSmall(s + h, W64);
  }

  lemma CongAdd(x: int, x2: int, y: int, y2: int)
    requires x % W64 == x2 % W64 && y % W64 == y2 % W64
    ensures (x + y) % W64 == (x2 + y2) % W64
  {
    ModAdd(x, y, W64);
    ModAdd(x2, y2, W64);
  }

  lemma CongSub(x: int, x2: int, y: int, y2: int)
    requires x % W64 == x2 % W64 && y % W64 == y2 % W64
    ensures (x - y) % W64 == (x2 - y2) % W64
  {
    ModSub(x, y, W64);
    ModSub(x2, y2, W64);
  }

  lemma CongMul(x: int, x2: int, y: int, y2: int)
    requires x % W64 == x2 % W64 && y % W64 == y2 % W64
    ensures (x * y) % W64 == (x2 * y2) % W64
  {
    ModMul(x, y, W64);
    ModMul(x2, y2, W64);
  }

  /** The wrapping doubling step of `fib_ll_fast` (fibdrv.c:156-158) on values congruent to
      F(m) and F(m+1) yields values congruent to F(2m) and F(2m+1). */
  lemma WrappedDoubling(a: int, b: int, m: int, m1: int, d: int, d1: int)
    requires 0 <= m && m1 == m + 1 && d == 2 * m && d1 == d + 1
    requires a % W64 == Fib(m) % W64 && b % W64 == Fib(m1) % W64
    ensures Wrap64(a * Wrap64(Wrap64(2 * b) - a)) % W64 == Fib(d) % W64
    ensures Wrap64(Wrap64(b * b) + Wrap64(a * a)) % W64 == Fib(d1) % W64
  {
    var x: int, y: int, f: int, g: int := Fib(m), Fib(m1), Fib(d), Fib(d1);
    FibDoubleValues(m, m1, d, d1, x, y, f, g);
    WrappedTwiceMinus(a, b, x, y, f, g);
    WrappedSquares(a, b, x, y, f, g);
  }

  /** a (2b - a) in wrapping arithmetic, on residues of x and y. */
  lemma WrappedTwiceMinus(a: int, b: int, x: int, y: int, f: int, g: int)
    requires a % W64 == x % W64 && b % W64 == y % W64 && DoublingRule(x, y, f, g)
    ensures Wrap64(a * Wrap64(Wrap64(2 * b) - a)) % W64 == f % W64
  {
    var u := Wrap64(2 * b);
    CongMul(2, 2, b, y);
    var v := Wrap64(u - a);
    CongSub(u, 2 * y, a, x);
    var w := a * v;
    CongMul(a, x, v, 2 * y - x);
    assert Wrap64(w) % W64 == w % W64;
  }

  /** b^2 + a^2 in wrapping arithmetic, on residues of x and y. */
  lemma WrappedSquares(a: int, b: int, x: int, y: int, f: int, g: int)
    requires a % W64 == x % W64 && b % W64 == y % W64 && DoublingRule(x, y, f, g)
    ensures Wrap64(Wrap64(b * b) + Wrap64(a * a)) % W64 == g % W64
  {
    var p, q := Wrap64(b * b), Wrap64(a * a);
    CongMul(b, y, b, y);
    CongMul(a, x, a, x);
    CongAdd(p, y * y, q, x * x);
  }

  /** A wrapping addition of values congruent to F(i) and F(i+1) is congruent to F(i+2). */
  lemma WrappedNext(a: int, b: int, i: int, j: int, k: int)
    requires 0 <= i && j == i + 1 && k == j + 1
    requires a % W64 == Fib(i) % W64 && b % W64 == Fib(j) % W64
    ensures Wrap64(a + b) % W64 == Fib(k) % W64
  {
    FibNext(i, j, k);
    CongAdd(a, Fib(i), b, Fib(j));
  }

  /** The loop body of `fib_ll_fast` (fibdrv.c:155-164): the wrapping pass over bit
      `n % 2` takes residues of F(n / 2) and F(n / 2 + 1) to residues of F(n) and F(n + 1). */
  method WrappingRound(a0: int64, b0: int64, bit: bool, ghost n: int) returns (a: int64, b: int64)
    requires n > 0 && bit == (n % 2 == 1)
    requires a0 % W64 == Fib(n / 2) % W64 && b0 % W64 == Fib(n / 2 + 1) % W64
    ensures a % W64 == Fib(n) % W64 && b % W64 == Fib(n + 1) % W64
  {
    ghost var d := n - n % 2;
    WrappedDoubling(a0, b0, n / 2, n / 2 + 1, d, d + 1);
    var t1 := Wrap64(a0 * Wrap64(Wrap64(2 * b0) - a0));
    b := Wrap64(Wrap64(b0 * b0) + Wrap64(a0 * a0));
    a := t1;
    if bit {
      WrappedNext(a, b, d, n, n + 1);
      t1 := Wrap64(a + b);
      a := b;
      b := t1;
    }
  }

  /** `fib_ll_fast` (fibdrv.c:149-166): fast doubling in wrapping 64-bit arithmetic. Every
      operation is a ring operation modulo 2^64, so the result is F(k) modulo 2^64 for every
      k, and F(k) itself up to F(92). The mask has the same `int` overflow as the bignum
      version. */
  method FibLlFast(k: int64) returns (r: int64)
    requires k < 0x8000_0000
    ensures k < 0 ==> r == k
    ensures k >= 0 ==> r == Wrap64(Fib(k))
    ensures 0 <= k <= 92 ==> r == Fib(k)
  {
    if k <= 1 {
      return k;
    }
    var a: int64, b: int64 := 0, 1;
    var mask: int32 := Pow2(HighestBit(k));
    ghost var e: int := HighestBit(k);
    ghost var n: int := 0;
    MaskStart(k);
    while mask > 0
      invariant Scanned(k, e, mask, n) && 0 <= n
      invariant a % W64 == Fib(n) % W64 && b % W64 == Fib(n + 1) % W64
      decreases mask
    {
      MaskNext(k, e, mask, n);
      a, b := WrappingRound(a, b, (k / mask) % 2 == 1, k / mask);
      n := k / mask;
      mask := mask / 2;
      e := e - 1;
    }
    MaskDone(k, e, mask, n);
    r := a;
    WrapUnique(r, Fib(k));
    if 0 <= k <= 92 {
      FibFitsInt64(k);
    }
  }

  /** `fib_ll_orig` (fibdrv.c:185-196): the linear recurrence in wrapping 64-bit arithmetic.
      The C reuses the parameter `k` for the running sum; here that variable is `r`. */
  method FibLlOrig(k: int64) returns (r: int64)
    ensures k < 0 ==> r == k
    ensures k >= 0 ==> r == Wrap64(Fib(k))
    ensures 0 <= k <= 92 ==> r == Fib(k)
  {
    var a: int64, b: int64 := 0, 1;
    if k <= 1 {
      return k;
    }
    r := k;
    var i := k;
    while i > 1
      invariant 1 <= i <= k
      invariant a % W64 == Fib(k - i) % W64 && b % W64 == Fib(k - i + 1) % W64
      invariant i < k ==> r == b
    {
      WrappedNext(a, b, k - i, k - i + 1, k - i + 2);
      r := Wrap64(a + b);
      a := b;
      b := r;
      i := i - 1;
    }
    WrapUnique(r, Fib(k));
    if 0 <= k <= 92 {
      FibFitsInt64(k);
    }
  }
}
