/** What each bignum operation computes, stated on the value of the 256-bit pattern rather
    than limb by limb, and the algebraic facts that hold of those meanings. The methods in
    module BigNum are proved to return exactly these bignums. */
module BigNumSpec {
  import opened Arith
  import opened Machine
  import opened Limbs
  import opened DecimalSpec

  /** The most negative bignum, -2^255. */
  ghost const MinValue: BigNum := OfUns(HALF)

  /** (a + b) mod 2^256. */
  ghost function Sum(a: BigNum, b: BigNum): BigNum
  {
    OfUns((Uns(a) + Uns(b)) % MODULUS)
  }

  /** (a - b) mod 2^256. */
  ghost function Difference(a: BigNum, b: BigNum): BigNum
  {
    OfUns((Uns(a) - Uns(b)) % MODULUS)
  }

  /** (-a) mod 2^256. */
  ghost function Negation(a: BigNum): BigNum
  {
    OfUns((MODULUS - Uns(a)) % MODULUS)
  }

  /** Sum, Difference and Negation are determined by the unsigned reading of their result. */
  lemma SumOfUns(a: BigNum, b: BigNum, c: BigNum)
    requires Uns(c) == (Uns(a) + Uns(b)) % MODULUS
    ensures c == Sum(a, b)
  {
    UnsInjective(c, Sum(a, b));
  }

  lemma DifferenceOfUns(a: BigNum, b: BigNum, c: BigNum)
    requires Uns(c) == (Uns(a) - Uns(b)) % MODULUS
    ensures c == Difference(a, b)
  {
    UnsInjective(c, Difference(a, b));
  }

  lemma NegationOfUns(a: BigNum, c: BigNum)
    requires Uns(c) == (MODULUS - Uns(a)) % MODULUS
    ensures c == Negation(a)
  {
    UnsInjective(c, Negation(a));
  }

  /** Reducing an exact signed result gives the same pattern as the unsigned operation. */
  lemma SumMod(a: BigNum, b: BigNum, v: int)
    requires v == Val(a) + Val(b)
    ensures v % MODULUS == (Uns(a) + Uns(b)) % MODULUS
  {
    UnsIsValMod(a);
    UnsIsValMod(b);
    ModOfReduced(Val(a), Val(b), Uns(a), Uns(b), MODULUS);
  }

  lemma DifferenceMod(a: BigNum, b: BigNum, v: int)
    requires v == Val(a) - Val(b)
    ensures v % MODULUS == (Uns(a) - Uns(b)) % MODULUS
  {
    UnsIsValMod(a);
    UnsIsValMod(b);
    ModOfReduced(Val(a), Val(b), Uns(a), Uns(b), MODULUS);
  }

  lemma NegationMod(a: BigNum, v: int)
    requires v == -Val(a)
    ensures v % MODULUS == (MODULUS - Uns(a)) % MODULUS
  {
    UnsIsValMod(a);
    NegateMod(Val(a), Uns(a));
  }

  lemma DoubleMod(a: BigNum, lsb: nat, v: int)
    requires v == 2 * Val(a) + lsb
    ensures v % MODULUS == (2 * Uns(a) + lsb) % MODULUS
  {
    UnsIsValMod(a);
    ModOfReducedScaled(Val(a), Uns(a), 2, lsb, MODULUS);
  }

  /** The signed value of the result of a wrapping operation whose exact result is `v`. */
  lemma ValOfWrapped(x: BigNum, v: int)
    requires Uns(x) == v % MODULUS && -(HALF as int) <= v < HALF
    ensures Val(x) == v
  {
    if v < 0 {
      ModAddMultiple(v, 1, MODULUS);
      ModOfSmall(v + MODULUS, MODULUS);
    } else {
      ModOfSmall(v, MODULUS);
    }
  }

  lemma UnsIsValMod(x: BigNum)
    ensures Uns(x) == Val(x) % MODULUS
  {
    if x.numAndSign < 0 {
      ModAddMultiple(Val(x), 1, MODULUS);
    }
    ModOfSmall(Uns(x), MODULUS);
  }

  /** Addition wraps modulo 2^256 and is exact when the true sum is representable. */
  lemma SumValue(a: BigNum, b: BigNum)
    ensures Uns(Sum(a, b)) == (Val(a) + Val(b)) % MODULUS
    ensures -(HALF as int) <= Val(a) + Val(b) < HALF ==> Val(Sum(a, b)) == Val(a) + Val(b)
  {
    UnsIsValMod(a);
    UnsIsValMod(b);
    ModAdd(Val(a), Val(b), MODULUS);
    if -(HALF as int) <= Val(a) + Val(b) < HALF {
      ValOfWrapped(Sum(a, b), Val(a) + Val(b));
    }
  }

  lemma DifferenceValue(a: BigNum, b: BigNum)
    ensures Uns(Difference(a, b)) == (Val(a) - Val(b)) % MODULUS
    ensures -(HALF as int) <= Val(a) - Val(b) < HALF ==> Val(Difference(a, b)) == Val(a) - Val(b)
  {
    UnsIsValMod(a);
    UnsIsValMod(b);
    ModSub(Val(a), Val(b), MODULUS);
    if -(HALF as int) <= Val(a) - Val(b) < HALF {
      ValOfWrapped(Difference(a, b), Val(a) - Val(b));
    }
  }

  /** Negation is exact except at the minimum, where -MIN wraps to MIN. */
  lemma NegationValue(a: BigNum)
    ensures a != MinValue ==> Val(Negation(a)) == -Val(a)
    ensures Negation(MinValue) == MinValue
  {
    assert Uns(MinValue) == HALF;
    assert Negation(MinValue) == OfUns(HALF);
    if a != MinValue {
      var u := Uns(a);
      assert u != HALF by {
        if u == HALF {
          OfUnsUns(a);
        }
      }
      var v := Val(a);
      UnsIsValMod(a);
      NegateMod(v, u);
      ValOfWrapped(Negation(a), -v);
    }
  }

  lemma AddZero(a: BigNum)
    ensures Sum(a, Zero) == a
  {
    ZeroUnique(Zero);
    ModOfSmall(Uns(a), MODULUS);
    UnsInjective(Sum(a, Zero), a);
  }

  /** a + (-a) wraps to zero for every a, the minimum included. */
  lemma AddNegation(a: BigNum)
    ensures Sum(a, Negation(a)) == Zero
  {
    var u := Uns(a);
    var v := (MODULUS - u) % MODULUS;
    assert (u + v) % MODULUS == 0 by {
      if u != 0 {
        ModOfSmall(MODULUS - u, MODULUS);
      }
    }
    assert Uns(Negation(a)) == v;
    assert Sum(a, Negation(a)) == OfUns(0);
    ZeroUnique(Zero);
    assert Zero == OfUns(0) by {
      OfUnsUns(Zero);
    }
  }

  /** Subtraction is addition of the negation. */
  lemma DifferenceIsSumOfNegation(a: BigNum, b: BigNum)
    ensures Difference(a, b) == Sum(a, Negation(b))
  {
    ModAdd(Uns(a), MODULUS - Uns(b), MODULUS);
    ModAddMultiple(Uns(a) - Uns(b), 1, MODULUS);
  }

  lemma NegationInvolutive(a: BigNum)
    ensures Negation(Negation(a)) == a
  {
    var u := Uns(a);
    var v := (MODULUS - u) % MODULUS;
    assert (MODULUS - v) % MODULUS == u by {
      if u != 0 {
        ModOfSmall(MODULUS - u, MODULUS);
        ModOfSmall(u, MODULUS);
      }
    }
    OfUnsUns(a);
  }

  /** Zero and the minimum are the only bignums equal to their own negation. */
  lemma NegationFixedPoints(a: BigNum)
    ensures Negation(a) == a <==> a == Zero || a == MinValue
  {
    ZeroUnique(a);
    var u := Uns(a);
    if u != 0 {
      ModOfSmall(MODULUS - u, MODULUS);
    }
    if Negation(a) == a {
      assert u == 0 || u == HALF;
      if u == HALF {
        UnsInjective(a, MinValue);
      }
    }
    if a == Zero {
      assert Uns(Negation(a)) == 0;
      ZeroUnique(Negation(a));
    }
    if a == MinValue {
      NegationValue(a);
    }
  }

  /** The minimum's low limb is zero. */
  lemma MinValueLowLimb()
    ensures MinValue.num[0] == 0
  {
    LowLimb(MinValue);
  }

  /** The low limb is the value modulo 2^32. */
  lemma LowLimb(x: BigNum)
    ensures Uns(x) % BASE == x.num[0]
    ensures Val(x) % BASE == x.num[0]
  {
    WeightValues();
    var rest := LimbsVal(x.num[1..]) + (TOP / BASE) * Bits32(x.numAndSign);
    assert Uns(x) == x.num[0] + rest * BASE;
    DivModUnique(Uns(x), BASE, rest, x.num[0]);
    UnsIsValMod(x);
    DivDiv(Val(x) % MODULUS, 1, 1);
    assert MODULUS == BASE * TOP;
    ModAddMultiple(Val(x), 1, MODULUS);
    assert Val(x) % BASE == Uns(x) % BASE by {
      if x.numAndSign < 0 {
        assert Uns(x) == Val(x) + TOP * BASE;
        ModAddMultiple(Val(x), TOP, BASE);
      }
    }
  }

  /** `bignum_abs` is exact when the operand is non-negative or its low limb is non-zero;
      otherwise the borrow out of limb 0 is lost. */
  predicate AbsIsExact(a: BigNum)
  {
    a.numAndSign >= 0 || a.num[0] != 0
  }

  /** What `bignum_abs` computes: `a` when non-negative, -a when the low limb is non-zero,
      and -a - 2^32 when it is zero. */
  ghost function AbsOf(a: BigNum): BigNum
  {
    if a.numAndSign >= 0 then a
    else if a.num[0] != 0 then Negation(a)
    else OfVal(-Val(a) - BASE)
  }

  /** The result of abs is never negative. */
  lemma AbsNonNegative(a: BigNum)
    ensures AbsOf(a).numAndSign >= 0
    ensures Val(AbsOf(a)) == Uns(AbsOf(a))
  {
    if a.numAndSign < 0 {
      LowLimb(a);
      if a.num[0] != 0 {
        MinValueLowLimb();
        NegationValue(a);
      } else {
        DivModUnique(Val(a), BASE, Val(a) / BASE, 0);
        assert Val(a) <= -(BASE as int);
        ValOfWrapped(AbsOf(a), -Val(a) - BASE);
      }
    }
  }

  lemma AbsIdempotent(a: BigNum)
    ensures AbsOf(AbsOf(a)) == AbsOf(a)
  {
    AbsNonNegative(a);
  }

  /** When abs is exact its value is the magnitude of the operand. */
  lemma AbsValue(a: BigNum)
    requires AbsIsExact(a)
    ensures Val(AbsOf(a)) == if Val(a) < 0 then -Val(a) else Val(a)
    ensures Uns(AbsOf(a)) == if Val(a) < 0 then -Val(a) else Val(a)
  {
    AbsNonNegative(a);
    if a.numAndSign < 0 {
      MinValueLowLimb();
      NegationValue(a);
    }
  }

  /** For a negative operand whose low limb is zero, abs is not the negation: it is 2^32 short. */
  lemma AbsLosesBorrow(a: BigNum)
    requires a.numAndSign < 0 && a.num[0] == 0
    ensures AbsOf(a) != Negation(a)
    ensures Val(AbsOf(a)) == -Val(a) - BASE
  {
    AbsNonNegative(a);
    LowLimb(a);
    DivModUnique(Val(a), BASE, Val(a) / BASE, 0);
    ValOfWrapped(AbsOf(a), -Val(a) - BASE);
    if a != MinValue {
      NegationValue(a);
    } else {
      assert Negation(a).numAndSign < 0;
    }
  }

  /** abs(-4294967296) is zero. */
  lemma AbsOfMinus2To32()
    ensures AbsOf(OfVal(-0x1_0000_0000)) == Zero
  {
    var a := OfVal(-0x1_0000_0000);
    LowLimb(a);
    AbsLosesBorrow(a);
    ZeroUnique(AbsOf(a));
  }

  /** (2a + lsb) mod 2^256: the pattern shifted left one bit, `lsb` entering at bit 0. */
  ghost function ShiftedLeft(a: BigNum, lsb: nat): BigNum
    requires lsb <= 1
  {
    OfUns((2 * Uns(a) + lsb) % MODULUS)
  }

  /** The pattern shifted right one bit as an unsigned number, bit 0 of `msb` entering at bit 255. */
  ghost function ShiftedRight(a: BigNum, msb: nat): BigNum
  {
    OfUns(Uns(a) / 2 + (msb % 2) * HALF)
  }

  /** Both shifts are determined by the unsigned reading of their result. */
  lemma ShiftedLeftOfUns(a: BigNum, lsb: nat, c: BigNum)
    requires lsb <= 1 && Uns(c) == (2 * Uns(a) + lsb) % MODULUS
    ensures c == ShiftedLeft(a, lsb)
  {
    UnsInjective(c, ShiftedLeft(a, lsb));
  }

  lemma ShiftedRightOfUns(a: BigNum, msb: nat, c: BigNum)
    requires Uns(c) == Uns(a) / 2 + (msb % 2) * HALF
    ensures c == ShiftedRight(a, msb)
  {
    UnsInjective(c, ShiftedRight(a, msb));
  }

  /** Shifting left and then right, feeding back the bit shifted out, restores the operand. */
  lemma ShiftLeftThenRight(a: BigNum, lsb: nat)
    requires lsb <= 1
    ensures ShiftedRight(ShiftedLeft(a, lsb), Uns(a) / HALF) == a
  {
    var u := Uns(a);
    var t := u / HALF;
    var low := 2 * (u % HALF) + lsb;
    assert (2 * u + lsb) % MODULUS == low by {
      assert 2 * u + lsb == low + t * MODULUS;
      ModAddMultiple(low, t, MODULUS);
      ModOfSmall(low, MODULUS);
    }
    assert t <= 1;
    assert low / 2 + (t % 2) * HALF == u by {
      DivModUnique(low, 2, u % HALF, lsb);
    }
    var l := ShiftedLeft(a, lsb);
    assert Uns(l) == low;
    assert ShiftedRight(l, t) == OfUns(u);
    OfUnsUns(a);
  }

  /** Shifting right and then left, feeding back the bit shifted out, restores the operand. */
  lemma ShiftRightThenLeft(a: BigNum, msb: nat)
    ensures ShiftedLeft(ShiftedRight(a, msb), Uns(a) % 2) == a
  {
    var u := Uns(a);
    var r := ShiftedRight(a, msb);
    var v := u / 2 + (msb % 2) * HALF;
    assert Uns(r) == v;
    ModAddMultiple(2 * (u / 2) + u % 2, msb % 2, MODULUS);
    ModOfSmall(u, MODULUS);
    var l := ShiftedLeft(r, u % 2);
    assert Uns(l) == u;
    UnsInjective(l, a);
  }

  /** Shifting left doubles the signed value when the result is representable. */
  lemma ShiftLeftDoubles(a: BigNum, lsb: nat)
    requires lsb <= 1 && -(HALF as int) <= 2 * Val(a) + lsb < HALF
    ensures Val(ShiftedLeft(a, lsb)) == 2 * Val(a) + lsb
  {
    var v := 2 * Val(a) + lsb;
    assert (2 * Uns(a) + lsb) % MODULUS == v % MODULUS by {
      if a.numAndSign < 0 {
        assert 2 * Uns(a) + lsb == v + 2 * MODULUS;
        ModAddMultiple(v, 2, MODULUS);
      }
    }
    ValOfWrapped(ShiftedLeft(a, lsb), v);
  }

  /** The right shift is logical: it halves non-negative values, and turns a negative value
      into a non-negative one when 0 is shifted in. */
  lemma ShiftRightHalves(a: BigNum)
    ensures a.numAndSign >= 0 ==> Val(ShiftedRight(a, 0)) == Val(a) / 2
    ensures ShiftedRight(a, 0).numAndSign >= 0
  {
  }

  /** What `bignum_mul` computes: the product of the two abs results modulo 2^256, negated
      when exactly one operand is negative. */
  ghost function Product(a: BigNum, b: BigNum): BigNum
  {
    var m := OfUns((Uns(AbsOf(a)) * Uns(AbsOf(b))) % MODULUS);
    if (a.numAndSign < 0) != (b.numAndSign < 0) then Negation(m) else m
  }

  lemma NegateMod(x: int, m: nat)
    requires 0 <= m < MODULUS && m == x % MODULUS
    ensures (MODULUS - m) % MODULUS == (-x) % MODULUS
  {
    ModSub(0, x, MODULUS);
    ModAddMultiple(-(m as int), 1, MODULUS);
  }

  /** When both abs calls are exact, multiplication is the signed product modulo 2^256, and
      exact when that product is representable. */
  lemma ProductValue(a: BigNum, b: BigNum)
    requires AbsIsExact(a) && AbsIsExact(b)
    ensures Uns(Product(a, b)) == (Val(a) * Val(b)) % MODULUS
    ensures -(HALF as int) <= Val(a) * Val(b) < HALF ==> Val(Product(a, b)) == Val(a) * Val(b)
  {
    AbsValue(a);
    AbsValue(b);
    var x, y := Uns(AbsOf(a)), Uns(AbsOf(b));
    var m := (x * y) % MODULUS;
    var va, vb := Val(a), Val(b);
    SignedProduct(va, vb, x, y);
    var p := va * vb;
    assert Uns(Product(a, b)) == p % MODULUS by {
      if (va < 0) != (vb < 0) {
        NegateMod(x * y, m);
        assert Product(a, b) == Negation(OfUns(m));
      }
    }
    if -(HALF as int) <= p < HALF {
      ValOfWrapped(Product(a, b), p);
    }
  }

  /** A low limb of zero is the only way abs loses the borrow; small negative values keep it. */
  lemma SmallNegativeIsExact(v: int)
    requires -(BASE as int) < v < 0
    ensures AbsIsExact(OfVal(v))
  {
    var x := OfVal(v);
    LowLimb(x);
    DivModUnique(v, BASE, -1, v + BASE);
  }

  lemma NonNegativeIsExact(v: int)
    requires 0 <= v < HALF
    ensures AbsIsExact(OfVal(v))
  {
  }

  /** mul(-5, 7) == -35. */
  lemma ProductExample()
    ensures Product(OfVal(-5), OfVal(7)) == OfVal(-35)
  {
    SmallNegativeIsExact(-5);
    NonNegativeIsExact(7);
    ProductValue(OfVal(-5), OfVal(7));
    UnsInjective(Product(OfVal(-5), OfVal(7)), OfVal(-35));
  }

  /** mul(-4294967296, 1) is zero, not -4294967296: the lost borrow of abs carries into the
      product. */
  lemma ProductLosesBorrow()
    ensures Product(OfVal(-0x1_0000_0000), OfVal(1)) == Zero
  {
    AbsOfMinus2To32();
    ZeroUnique(Zero);
    var m := OfUns((Uns(AbsOf(OfVal(-0x1_0000_0000))) * Uns(AbsOf(OfVal(1)))) % MODULUS);
    assert Uns(m) == 0;
    ZeroUnique(m);
    NegationFixedPoints(m);
  }

  /** The quotient of truncating (C) division: it rounds toward zero. */
  predicate IsTruncatedQuotient(x: int, y: int, q: int)
  {
    var r := x - q * y;
    (if r < 0 then -r else r) < (if y < 0 then -y else y) && (r == 0 || (r < 0) == (x < 0))
  }

  /** What `bignum_div` computes: the quotient of the two abs results, negated when exactly
      one operand is negative. Dividing by zero yields the all-ones pattern before the sign
      is applied. */
  ghost function Quotient(a: BigNum, b: BigNum): BigNum
  {
    var d := Uns(AbsOf(b));
    var x := Uns(AbsOf(a));
    var q: nat := if d == 0 then MODULUS - 1 else (DivAtMost(x, d); x / d);
    if (a.numAndSign < 0) != (b.numAndSign < 0) then Negation(OfUns(q)) else OfUns(q)
  }

  /** When both abs calls are exact and the divisor is non-zero, division is truncating
      signed division; it never overflows. */
  lemma QuotientValue(a: BigNum, b: BigNum)
    requires AbsIsExact(a) && AbsIsExact(b) && Val(b) != 0
    ensures IsTruncatedQuotient(Val(a), Val(b), Val(Quotient(a, b)))
  {
    var va, vb := Val(a), Val(b);
    AbsValue(a);
    AbsValue(b);
    AbsNonNegative(a);
    var x: nat, y: nat := Uns(AbsOf(a)), Uns(AbsOf(b));
    assert y == (if vb < 0 then -vb else vb) && y > 0;
    DivAtMost(x, y);
    var qm: nat := x / y;
    var q := Quotient(a, b);
    var vq: int := if (va < 0) != (vb < 0) then -(qm as int) else qm;
    assert Val(q) == vq by {
      if (va < 0) != (vb < 0) {
        MinValueLowLimb();
        assert OfUns(qm) != MinValue;
        NegationValue(OfUns(qm));
      }
    }
    TruncatedFromMagnitudes(va, vb, x, y, vq);
  }

  /** Dividing the magnitudes and giving the quotient the sign of the product rounds toward zero. */
  lemma TruncatedFromMagnitudes(va: int, vb: int, x: nat, y: nat, vq: int)
    requires x == (if va < 0 then -va else va) && y == (if vb < 0 then -vb else vb) && y > 0
    requires vq == if (va < 0) != (vb < 0) then -(x / y) else x / y
    ensures IsTruncatedQuotient(va, vb, vq)
  {
    var qm: int, rm: int := x / y, x % y;
    var p := qm * y;
    assert x == p + rm && 0 <= rm < y;
    assert vq * vb == if va < 0 then -p else p by {
      if vb < 0 {
        if va < 0 {
          assert vq * vb == qm * -(y as int);
        } else {
          assert vq * vb == (-qm) * -(y as int);
        }
      } else {
        if va < 0 {
          assert vq * vb == (-qm) * y;
        } else {
          assert vq * vb == qm * y;
        }
      }
    }
    assert va - vq * vb == if va < 0 then -rm else rm;
  }

  /** Dividing by zero gives -1 for a non-negative dividend and 1 for a negative one. */
  lemma QuotientByZero(a: BigNum)
    ensures Val(Quotient(a, Zero)) == if a.numAndSign < 0 then 1 else -1
  {
    ZeroUnique(Zero);
    var ones := OfUns(MODULUS - 1);
    if a.numAndSign < 0 {
      NegationValue(ones);
    }
  }

  /** div(-35, 7) == -5. */
  lemma QuotientExample()
    ensures Quotient(OfVal(-35), OfVal(7)) == OfVal(-5)
  {
    SmallNegativeIsExact(-35);
    NonNegativeIsExact(7);
    AbsValue(OfVal(-35));
    AbsValue(OfVal(7));
    DivModUnique(35, 7, 5, 0);
    var q := OfUns(5);
    NegationValue(q);
    UnsInjective(Quotient(OfVal(-35), OfVal(7)), OfVal(-5));
  }

  /** The text `bignum_to_dec` renders for `x`: the numeral of the magnitude `abs` computes,
      after a '-' when the sign limb is negative. */
  ghost function Rendered(x: BigNum): seq<char>
  {
    (if x.numAndSign < 0 then "-" else "") + Decimal(Uns(AbsOf(x)))
  }

  /** Where `abs` is exact, the rendered text is the signed numeral of the value, and reading
      its digits back gives the magnitude. */
  lemma RenderedValue(x: BigNum)
    requires AbsIsExact(x)
    ensures Rendered(x) == (if Val(x) < 0 then "-" else "") + Decimal(if Val(x) < 0 then -Val(x) else Val(x))
    ensures var digits := Rendered(x)[if Val(x) < 0 then 1 else 0..];
            AllDigits(digits) && DigitsValue(digits) == if Val(x) < 0 then -Val(x) else Val(x)
  {
    AbsValue(x);
    var m := Uns(AbsOf(x));
    DecimalRoundTrip(m);
    assert Rendered(x)[if Val(x) < 0 then 1 else 0..] == Decimal(m);
  }

  /** The digit positions a buffer of `size` bytes offers: whole groups of nine before the NUL. */
  function Slots(size: nat): (r: nat)
    requires size >= 1
    ensures r <= size - 1 < r + 9
  {
    9 * ((size - 1) / 9)
  }

  /** How many bytes `bignum_to_dec` overwrites with '.' when the digits do not fit: those
      before the first group, or the first nine when the groups start at byte 0. */
  function DotCount(size: nat): (r: nat)
    requires size >= 10
    ensures 0 < r <= 9
  {
    if size - 1 - Slots(size) > 0 then size - 1 - Slots(size) else 9
  }

  /** The buffer after the groups ran out before the magnitude `n` did: the last `size - 1`
      digits of `n` and the NUL, with the first `DotCount(size)` bytes turned into '.'. */
  ghost function Overflowed(n: nat, size: nat): (r: seq<char>)
    requires size >= 10
    ensures |r| == size
  {
    Repeat('.', DotCount(size)) + Pad(n, size - 1)[DotCount(size)..] + ['\0']
  }

  /** `to_dec` of 0 is "0" and of -123 is "-123". */
  lemma RenderedExample()
    ensures Rendered(OfVal(0)) == "0" && Rendered(OfVal(-123)) == "-123"
  {
    NonNegativeIsExact(0);
    SmallNegativeIsExact(-123);
    RenderedValue(OfVal(0));
    RenderedValue(OfVal(-123));
    DecimalExample();
  }
}
