/** The operations of bignum.c. Each C function writes its result through a pointer; here
    it returns the new bignum, so the in-place calls of the source (`bignum_add(c, t, c)`)
    become `c := Add(c, t)`. Every method is proved to return the bignum its counterpart in
    module BigNumSpec describes. */
module BigNum {
  import opened Arith
  import opened Machine
  import opened Limbs
  import opened BigNumSpec
  import opened DecimalSpec

  /** One step of a ripple-carry loop: the low word of `tmp` is stored and its high bit carried. */
  lemma CarryStep(num: seq<uint32>, tmp: nat)
    requires tmp < 2 * BASE
    ensures tmp % BASE < BASE
    ensures LimbsVal(num + [tmp % BASE]) + Weight(|num| + 1) * (tmp / BASE)
         == LimbsVal(num) + Weight(|num|) * tmp
  {
    var r, q := tmp % BASE, tmp / BASE;
    LimbsValAppend(num, [r]);
    LimbsValSingle(r);
    var w := Weight(|num|);
    assert Weight(|num| + 1) == BASE * w;
    WeightedSplit(w, tmp);
  }

  lemma Distribute(w: int, x: int, y: int, z: int, t: int)
    requires t == x + y + z
    ensures w * t == w * x + w * y + w * z
  {
  }

  /** The weighted digit of a subtraction step: x + ~y + carry at weight w. */
  lemma SubStep(w: int, x: int, y: int, carry: int, tmp: int)
    requires tmp == x + (BASE - 1 - y) + carry
    ensures w * tmp == w * x + BASE * w - w - w * y + w * carry
  {
    assert w * tmp == w * x + w * (BASE - 1 - y) + w * carry;
  }

  lemma WeightedSplit(w: nat, tmp: nat)
    ensures w * tmp == w * (tmp % BASE) + (BASE * w) * (tmp / BASE)
  {
    var r, q := tmp % BASE, tmp / BASE;
    assert tmp == r + BASE * q;
    assert w * tmp == w * r + w * (BASE * q);
  }

  /** The bookkeeping of a ripple-carry step, with every product named: `l` and `l2` are
      the stored limbs' values before and after, `w` and `w2` the weights of the carry,
      `wt` the weighted digit sum, `e` the value accounted for so far and `d` the new digits. */
  lemma Ripple(l: int, w: int, c: int, l2: int, w2: int, c2: int, wt: int, e: int, d: int)
    requires l + w * c == e
    requires l2 + w2 * c2 == l + wt
    requires wt == d + w * c
    ensures l2 + w2 * c2 == e + d
  {
  }

  lemma AddLoopStep(num: seq<uint32>, a: LimbSeq, b: LimbSeq, carry: nat, tmp: nat)
    requires |num| < LIMBS && carry <= 1
    requires LimbsVal(num) + Weight(|num|) * carry == LimbsVal(a[..|num|]) + LimbsVal(b[..|num|])
    requires tmp == a[|num|] + b[|num|] + carry
    ensures tmp % BASE < BASE && tmp / BASE == if tmp > UINT32_MAX then 1 else 0
    ensures LimbsVal(num + [tmp % BASE]) + Weight(|num| + 1) * (tmp / BASE)
         == LimbsVal(a[..|num| + 1]) + LimbsVal(b[..|num| + 1])
  {
    var i := |num|;
    var w := Weight(i);
    var l, l2 := LimbsVal(num), LimbsVal(num + [tmp % BASE]);
    assert l2 + Weight(i + 1) * (tmp / BASE) == l + w * tmp by { CarryStep(num, tmp); }
    assert LimbsVal(a[..i + 1]) == LimbsVal(a[..i]) + w * a[i] by { LimbsValPrefix(a, i); }
    assert LimbsVal(b[..i + 1]) == LimbsVal(b[..i]) + w * b[i] by { LimbsValPrefix(b, i); }
    assert w * tmp == w * a[i] + w * b[i] + w * carry by { Distribute(w, a[i], b[i], carry, tmp); }
    Ripple(l, w, carry, l2, Weight(i + 1), tmp / BASE,
           w * tmp, LimbsVal(a[..i]) + LimbsVal(b[..i]), w * a[i] + w * b[i]);
  }

  lemma SubLoopStep(num: seq<uint32>, a: LimbSeq, b: LimbSeq, carry: nat, tmp: nat)
    requires |num| < LIMBS && carry <= 1
    requires LimbsVal(num) + Weight(|num|) * carry
          == LimbsVal(a[..|num|]) + Weight(|num|) - LimbsVal(b[..|num|])
    requires tmp == a[|num|] + Not32(b[|num|]) + carry
    ensures tmp % BASE < BASE && tmp / BASE == if tmp > UINT32_MAX then 1 else 0
    ensures LimbsVal(num + [tmp % BASE]) + Weight(|num| + 1) * (tmp / BASE)
         == LimbsVal(a[..|num| + 1]) + Weight(|num| + 1) - LimbsVal(b[..|num| + 1])
  {
    var i := |num|;
    var w := Weight(i);
    var l, l2 := LimbsVal(num), LimbsVal(num + [tmp % BASE]);
    assert l2 + Weight(i + 1) * (tmp / BASE) == l + w * tmp by { CarryStep(num, tmp); }
    assert LimbsVal(a[..i + 1]) == LimbsVal(a[..i]) + w * a[i] by { LimbsValPrefix(a, i); }
    assert LimbsVal(b[..i + 1]) == LimbsVal(b[..i]) + w * b[i] by { LimbsValPrefix(b, i); }
    assert Weight(i + 1) == BASE * w;
    assert w * tmp == w * a[i] + BASE * w - w - w * b[i] + w * carry by {
      SubStep(w, a[i], b[i], carry, tmp);
    }
    Ripple(l, w, carry, l2, Weight(i + 1), tmp / BASE,
           w * tmp, LimbsVal(a[..i]) + w - LimbsVal(b[..i]), w * a[i] + BASE * w - w - w * b[i]);
  }

  lemma NegLoopStep(num: seq<uint32>, a: LimbSeq, carry: nat, tmp: nat)
    requires |num| < LIMBS && carry <= 1
    requires LimbsVal(num) + Weight(|num|) * carry == Weight(|num|) - LimbsVal(a[..|num|])
    requires tmp == Not32(a[|num|]) + carry
    ensures tmp % BASE < BASE && tmp / BASE == if tmp > UINT32_MAX then 1 else 0
    ensures LimbsVal(num + [tmp % BASE]) + Weight(|num| + 1) * (tmp / BASE)
         == Weight(|num| + 1) - LimbsVal(a[..|num| + 1])
  {
    var i := |num|;
    var w := Weight(i);
    var l, l2 := LimbsVal(num), LimbsVal(num + [tmp % BASE]);
    assert l2 + Weight(i + 1) * (tmp / BASE) == l + w * tmp by { CarryStep(num, tmp); }
    assert LimbsVal(a[..i + 1]) == LimbsVal(a[..i]) + w * a[i] by { LimbsValPrefix(a, i); }
    assert Weight(i + 1) == BASE * w;
    assert w * tmp == BASE * w - w - w * a[i] + w * carry by {
      SubStep(w, 0, a[i], carry, tmp);
    }
    Ripple(l, w, carry, l2, Weight(i + 1), tmp / BASE,
           w * tmp, w - LimbsVal(a[..i]), BASE * w - w - w * a[i]);
  }

  /** A bignum whose top limb is the wrapped `top`, where its limbs and `top` together have
      the value `v`. */
  lemma Assemble(c: BigNum, top: int, v: int)
    requires c.numAndSign == Wrap32(top) && LimbsVal(c.num) + TOP * top == v
    ensures Uns(c) == v % MODULUS
  {
    WeightValues();
    LimbsValBound(c.num);
    var l := LimbsVal(c.num);
    var t := top % BASE;
    assert TOP * top == TOP * t + MODULUS * (top / BASE) by {
      assert top == t + BASE * (top / BASE);
    }
    MulLe(TOP, t, BASE - 1);
    ModAddMultiple(l + TOP * t, top / BASE, MODULUS);
    ModOfSmall(l + TOP * t, MODULUS);
  }

  /** The carry out of the seven limbs, moved into the top limb. */
  lemma TopCarry(l: int, t: int, carry: int, e: int, k: int)
    requires l + t * carry == e
    ensures l + t * (k + carry) == e + t * k
  {
  }

  /** The seven limbs of a bignum and its signed top limb give its signed value. */
  lemma ValSplit(x: BigNum)
    ensures Val(x) == LimbsVal(x.num) + TOP * x.numAndSign
    ensures x.num[..LIMBS] == x.num
  {
  }

  /** `bignum_init`: the zero bignum. */
  method Init() returns (r: BigNum)
    ensures r == Zero && Val(r) == 0
  {
    r := BigNum([0, 0, 0, 0, 0, 0, 0], 0);
    ZeroUnique(r);
  }

  /** `bignum_from_int`: the 64-bit value sign-extended to 256 bits. */
  method FromInt(i: int64) returns (r: BigNum)
    ensures r == OfVal(i) && Val(r) == i
    ensures r.num[0] == i % BASE && r.num[1] == (i / BASE) % BASE
    ensures forall j :: 2 <= j < LIMBS ==> r.num[j] == if i < 0 then UINT32_MAX else 0
    ensures r.numAndSign == if i < 0 then -1 else 0
  {
    var fill: uint32 := if i < 0 then UINT32_MAX else 0;   // -(i < 0)
    var num: seq<uint32> := [i % BASE, (i / BASE) % BASE];
    ghost var low := i % BASE + BASE * ((i / BASE) % BASE);
    assert LimbsVal(num) == low by {
      assert num == [num[0]] + [num[1]];
      LimbsValAppend([num[0]], [num[1]]);
      LimbsValSingle(num[0]);
      LimbsValSingle(num[1]);
    }
    for j := 2 to LIMBS
      invariant |num| == j
      invariant forall k :: 2 <= k < j ==> num[k] == fill
      invariant num[0] == i % BASE && num[1] == (i / BASE) % BASE
      invariant LimbsVal(num) == low + if i < 0 then Weight(j) - Weight(2) else 0
    {
      LimbsValAppend(num, [fill]);
      LimbsValSingle(fill);
      assert Weight(j + 1) == BASE * Weight(j);
      num := num + [fill];
    }
    var sign: int32 := if i < 0 then -1 else 0;
    r := BigNum(num, sign);
    WeightValues();
    assert Weight(2) == BASE * BASE;
    assert Val(r) == i by {
      assert i == i % BASE + BASE * (i / BASE);
      if i < 0 {
        assert i / BASE < 0 && i / BASE >= -0x8000_0000;
        assert (i / BASE) % BASE == i / BASE + BASE;
      } else {
        assert (i / BASE) % BASE == i / BASE;
      }
    }
    UnsIsValMod(r);
    UnsInjective(r, OfVal(i));
  }

  /** `bignum_is_zero`: whether every limb is zero. */
  method IsZero(x: BigNum) returns (z: bool)
    ensures z <==> x == Zero
    ensures z <==> Val(x) == 0
  {
    ZeroUnique(x);
    if x.numAndSign != 0 {
      return false;
    }
    for i := 0 to LIMBS
      invariant forall j :: 0 <= j < i ==> x.num[j] == 0
    {
      if x.num[i] != 0 {
        return false;
      }
    }
    assert x.num == Zero.num;
    return true;
  }

  /** `bignum_add`: ripple-carry addition of the seven limbs, then the top limbs and the
      final carry added as signed words. */
  method Add(a: BigNum, b: BigNum) returns (c: BigNum)
    ensures c == Sum(a, b)
    ensures Uns(c) == (Uns(a) + Uns(b)) % MODULUS
  {
    var carry: uint32 := 0;
    var num: seq<uint32> := [];
    for i := 0 to LIMBS
      invariant |num| == i && carry <= 1
      invariant LimbsVal(num) + Weight(i) * carry == LimbsVal(a.num[..i]) + LimbsVal(b.num[..i])
    {
      var tmp: uint64 := a.num[i] + b.num[i] + carry;
      AddLoopStep(num, a.num, b.num, carry, tmp);
      carry := if tmp > UINT32_MAX then 1 else 0;
      var limb: uint32 := tmp % BASE;
      num := num + [limb];
    }
    var top := a.numAndSign + b.numAndSign + carry;
    c := BigNum(num, Wrap32(top));
    AddFinish(a, b, c, carry, top);
    SumOfUns(a, b, c);
  }

  /** The limb sums and the final carry, with the top limbs added, give the wrapped sum. */
  lemma AddFinish(a: BigNum, b: BigNum, c: BigNum, carry: nat, top: int)
    requires carry <= 1 && top == a.numAndSign + b.numAndSign + carry
    requires c.numAndSign == Wrap32(top)
    requires LimbsVal(c.num) + Weight(LIMBS) * carry
          == LimbsVal(a.num[..LIMBS]) + LimbsVal(b.num[..LIMBS])
    ensures Uns(c) == (Uns(a) + Uns(b)) % MODULUS
  {
    var v := Val(a) + Val(b);
    AddTop(a, b, c.num, carry, top);
    Assemble(c, top, v);
    SumMod(a, b, v);
  }

  lemma AddTop(a: BigNum, b: BigNum, num: seq<uint32>, carry: nat, top: int)
    requires |num| == LIMBS && top == a.numAndSign + b.numAndSign + carry
    requires LimbsVal(num) + Weight(LIMBS) * carry
          == LimbsVal(a.num[..LIMBS]) + LimbsVal(b.num[..LIMBS])
    ensures LimbsVal(num) + TOP * top == Val(a) + Val(b)
  {
    WeightValues();
    ValSplit(a);
    ValSplit(b);
    TopCarry(LimbsVal(num), TOP, carry, LimbsVal(a.num) + LimbsVal(b.num),
             a.numAndSign + b.numAndSign);
  }

  /** `bignum_sub`: a + ~b + 1, limb by limb with the carry starting at 1. */
  method Sub(a: BigNum, b: BigNum) returns (c: BigNum)
    ensures c == Difference(a, b)
    ensures Uns(c) == (Uns(a) - Uns(b)) % MODULUS
  {
    var carry: uint32 := 1;
    var num: seq<uint32> := [];
    for i := 0 to LIMBS
      invariant |num| == i && carry <= 1
      invariant LimbsVal(num) + Weight(i) * carry
             == LimbsVal(a.num[..i]) + Weight(i) - LimbsVal(b.num[..i])
    {
      var tmp: uint64 := a.num[i] + Not32(b.num[i]) + carry;
      SubLoopStep(num, a.num, b.num, carry, tmp);
      carry := if tmp > UINT32_MAX then 1 else 0;
      var limb: uint32 := tmp % BASE;
      num := num + [limb];
    }
    var top := a.numAndSign + (-1 - b.numAndSign) + carry;   // ~b->num_and_sign
    c := BigNum(num, Wrap32(top));
    SubFinish(a, b, c, carry, top);
    DifferenceOfUns(a, b, c);
  }

  /** The limb sums of a + ~b + 1 and the final carry, with the top limbs, give the wrapped
      difference. */
  lemma SubFinish(a: BigNum, b: BigNum, c: BigNum, carry: nat, top: int)
    requires carry <= 1 && top == a.numAndSign + (-1 - b.numAndSign) + carry
    requires c.numAndSign == Wrap32(top)
    requires LimbsVal(c.num) + Weight(LIMBS) * carry
          == LimbsVal(a.num[..LIMBS]) + Weight(LIMBS) - LimbsVal(b.num[..LIMBS])
    ensures Uns(c) == (Uns(a) - Uns(b)) % MODULUS
  {
    var v := Val(a) - Val(b);
    SubTop(a, b, c.num, carry, top);
    Assemble(c, top, v);
    DifferenceMod(a, b, v);
  }

  lemma SubTop(a: BigNum, b: BigNum, num: seq<uint32>, carry: nat, top: int)
    requires |num| == LIMBS && top == a.numAndSign + (-1 - b.numAndSign) + carry
    requires LimbsVal(num) + Weight(LIMBS) * carry
          == LimbsVal(a.num[..LIMBS]) + Weight(LIMBS) - LimbsVal(b.num[..LIMBS])
    ensures LimbsVal(num) + TOP * top == Val(a) - Val(b)
  {
    WeightValues();
    ValSplit(a);
    ValSplit(b);
    TopCarry(LimbsVal(num), TOP, carry, LimbsVal(a.num) + TOP - LimbsVal(b.num),
             a.numAndSign + (-1 - b.numAndSign));
  }

  /** `bignum_neg`: ~a + 1. */
  method Neg(a: BigNum) returns (b: BigNum)
    ensures b == Negation(a)
    ensures Uns(b) == (MODULUS - Uns(a)) % MODULUS
  {
    var carry: uint32 := 1;
    var num: seq<uint32> := [];
    for i := 0 to LIMBS
      invariant |num| == i && carry <= 1
      invariant LimbsVal(num) + Weight(i) * carry == Weight(i) - LimbsVal(a.num[..i])
    {
      var tmp: uint64 := Not32(a.num[i]) + carry;
      NegLoopStep(num, a.num, carry, tmp);
      carry := if tmp > UINT32_MAX then 1 else 0;
      var limb: uint32 := tmp % BASE;
      num := num + [limb];
    }
    var top := (-1 - a.numAndSign) + carry;   // ~a->num_and_sign
    b := BigNum(num, Wrap32(top));
    NegFinish(a, b, carry, top);
    NegationOfUns(a, b);
  }

  /** The limbs of ~a + 1 and the final carry, with the complemented top limb, give the
      wrapped negation. */
  lemma NegFinish(a: BigNum, c: BigNum, carry: nat, top: int)
    requires carry <= 1 && top == (-1 - a.numAndSign) + carry
    requires c.numAndSign == Wrap32(top)
    requires LimbsVal(c.num) + Weight(LIMBS) * carry == Weight(LIMBS) - LimbsVal(a.num[..LIMBS])
    ensures Uns(c) == (MODULUS - Uns(a)) % MODULUS
  {
    var v := -Val(a);
    NegTop(a, c.num, carry, top);
    Assemble(c, top, v);
    NegationMod(a, v);
  }

  lemma NegTop(a: BigNum, num: seq<uint32>, carry: nat, top: int)
    requires |num| == LIMBS && top == (-1 - a.numAndSign) + carry
    requires LimbsVal(num) + Weight(LIMBS) * carry == Weight(LIMBS) - LimbsVal(a.num[..LIMBS])
    ensures LimbsVal(num) + TOP * top == -Val(a)
  {
    WeightValues();
    ValSplit(a);
    TopCarry(LimbsVal(num), TOP, carry, TOP - LimbsVal(a.num), -1 - a.numAndSign);
  }

  /** The limbs `bignum_abs` writes are those of AbsOf: for a negative operand, limb 0 is
      decremented without a borrow and then every limb is complemented. */
  lemma AbsLimbs(a: BigNum, b: BigNum)
    requires a.numAndSign < 0
    requires b.num[0] == Not32((a.num[0] + UINT32_MAX) % BASE)
    requires forall j :: 1 <= j < LIMBS ==> b.num[j] == Not32(a.num[j])
    requires Bits32(b.numAndSign) == Not32(Bits32(a.numAndSign))
    ensures b == AbsOf(a)
  {
    AbsPattern(a, b);
    if a.num[0] != 0 {
      AbsBorrowFree(a, b);
    } else {
      AbsBorrowLost(a, b);
    }
  }

  /** Decrementing limb 0 without a borrow and complementing all eight limbs. */
  lemma AbsPattern(a: BigNum, b: BigNum)
    requires b.num[0] == Not32((a.num[0] + UINT32_MAX) % BASE)
    requires forall j :: 1 <= j < LIMBS ==> b.num[j] == Not32(a.num[j])
    requires Bits32(b.numAndSign) == Not32(Bits32(a.numAndSign))
    ensures Uns(b) == MODULUS - 1 - (Uns(a) - a.num[0] + (a.num[0] + UINT32_MAX) % BASE)
  {
    var p := Pattern(a);
    var d := (a.num[0] + UINT32_MAX) % BASE;
    UnsSplit(a);
    UnsSplit(b);
    var p2 := p[0 := d];
    assert Pattern(b) == Complement(p2);
    LimbsValComplement(p2);
    LimbsValUpdateLow(p, d);
    WeightValues();
  }

  /** With a non-zero low limb the decrement needs no borrow and abs is the negation. */
  lemma AbsBorrowFree(a: BigNum, b: BigNum)
    requires a.numAndSign < 0 && a.num[0] != 0
    requires Uns(b) == MODULUS - 1 - (Uns(a) - a.num[0] + (a.num[0] + UINT32_MAX) % BASE)
    ensures b == AbsOf(a)
  {
    var u := Uns(a);
    ModAddMultiple(a.num[0] - 1, 1, BASE);
    ModOfSmall(a.num[0] - 1, BASE);
    assert Uns(b) == MODULUS - u;
    ModOfSmall(MODULUS - u, MODULUS);
    NegationOfUns(a, b);
  }

  /** With a zero low limb the lost borrow leaves -a - 2^32. */
  lemma AbsBorrowLost(a: BigNum, b: BigNum)
    requires a.numAndSign < 0 && a.num[0] == 0
    requires Uns(b) == MODULUS - 1 - (Uns(a) - a.num[0] + (a.num[0] + UINT32_MAX) % BASE)
    ensures b == AbsOf(a)
  {
    var u := Uns(a);
    var v := -Val(a) - BASE;
    assert Uns(b) == MODULUS - BASE - u;
    assert u <= MODULUS - BASE by {
      LowLimb(a);
      DivModUnique(u, BASE, u / BASE, 0);
      WeightValues();
    }
    assert v == MODULUS - BASE - u;
    ModOfSmall(v, MODULUS);
    UnsInjective(b, OfVal(v));
  }

  /** `bignum_abs`: with mask = -(a < 0), limb 0 becomes (a0 + mask) ^ mask and every other
      limb l ^ mask, which is two's-complement negation except that the decrement of limb 0
      never borrows. */
  method Abs(a: BigNum) returns (b: BigNum)
    ensures b == AbsOf(a)
    ensures b.numAndSign >= 0
    ensures AbsIsExact(a) ==> Val(b) == if Val(a) < 0 then -Val(a) else Val(a)
  {
    var mask: int32 := if a.numAndSign < 0 then -1 else 0;
    var umask := Bits32(mask);
    var num: seq<uint32> := [XorMask((a.num[0] + umask) % BASE, umask)];
    for i := 1 to LIMBS
      invariant |num| == i && num[0] == XorMask((a.num[0] + umask) % BASE, umask)
      invariant forall j :: 1 <= j < i ==> num[j] == XorMask(a.num[j], umask)
    {
      num := num + [XorMask(a.num[i], umask)];
    }
    b := BigNum(num, XorMask32(a.numAndSign, mask));
    if mask == 0 {
      assert b.num == a.num;
    } else {
      AbsLimbs(a, b);
    }
    AbsNonNegative(a);
    if AbsIsExact(a) {
      AbsValue(a);
    }
  }

  /** `(x << 1) | cin` and `(x >> 31) & 1` are the low word and the carry of 2x + cin. */
  lemma ShlDigit(x: uint32, cin: nat)
    requires cin <= 1
    ensures (2 * x + cin) % BASE == (x * 2) % BASE + cin < BASE
    ensures (2 * x + cin) / BASE == (x / 0x8000_0000) % 2
  {
    if x < 0x8000_0000 {
      ModOfSmall(x * 2, BASE);
      ModOfSmall(2 * x + cin, BASE);
      ModOfSmall(x, 0x8000_0000);
    } else {
      DivModUnique(x * 2, BASE, 1, x * 2 - BASE);
      DivModUnique(2 * x + cin, BASE, 1, x * 2 - BASE + cin);
      DivModUnique(x, 0x8000_0000, 1, x - 0x8000_0000);
    }
  }

  lemma ShlLoopStep(num: seq<uint32>, a: LimbSeq, cin: nat, lsb: nat)
    requires |num| < LIMBS && cin <= 1
    requires LimbsVal(num) + Weight(|num|) * cin == 2 * LimbsVal(a[..|num|]) + lsb
    ensures (a[|num|] * 2) % BASE + cin < BASE
    ensures LimbsVal(num + [(a[|num|] * 2) % BASE + cin]) + Weight(|num| + 1) * ((a[|num|] / 0x8000_0000) % 2)
         == 2 * LimbsVal(a[..|num| + 1]) + lsb
  {
    var i := |num|;
    var w := Weight(i);
    var x := a[i];
    var tmp := 2 * x + cin;
    ShlDigit(x, cin);
    var d: uint32 := tmp % BASE;
    var c2 := tmp / BASE;
    assert d == (a[i] * 2) % BASE + cin && c2 == (a[i] / 0x8000_0000) % 2;
    var l, l2 := LimbsVal(num), LimbsVal(num + [d]);
    assert l2 + Weight(i + 1) * c2 == l + w * tmp by { CarryStep(num, tmp); }
    assert LimbsVal(a[..i + 1]) == LimbsVal(a[..i]) + w * x by { LimbsValPrefix(a, i); }
    assert w * tmp == w * x + w * x + w * cin by { Distribute(w, x, x, cin, tmp); }
    Ripple(l, w, cin, l2, Weight(i + 1), c2,
           w * tmp, 2 * LimbsVal(a[..i]) + lsb, w * x + w * x);
  }

  /** `bignum_shl1`: every bit moves up one place, `lsb` enters at bit 0 and bit 255 is lost.
      The shift of the signed top limb wraps. */
  method Shl1(a: BigNum, lsb: uint32) returns (b: BigNum)
    requires lsb <= 1
    ensures b == ShiftedLeft(a, lsb)
    ensures Uns(b) == (2 * Uns(a) + lsb) % MODULUS
  {
    var cin := lsb;
    var num: seq<uint32> := [];
    for i := 0 to LIMBS
      invariant |num| == i && cin <= 1
      invariant LimbsVal(num) + Weight(i) * cin == 2 * LimbsVal(a.num[..i]) + lsb
    {
      var carry := (a.num[i] / 0x8000_0000) % 2;   // (a->num[i] >> 31) & 1
      ShlLoopStep(num, a.num, cin, lsb);
      num := num + [(a.num[i] * 2) % BASE + cin];  // (a->num[i] << 1) | lsb
      cin := carry;
    }
    var top := 2 * a.numAndSign + cin;   // (a->num_and_sign << 1) | lsb
    b := BigNum(num, Wrap32(top));
    ShlFinish(a, lsb, b, cin, top);
    ShiftedLeftOfUns(a, lsb, b);
  }

  /** The shifted limbs and the bit carried out of them, with the shifted top limb, give the
      wrapped double. */
  lemma ShlFinish(a: BigNum, lsb: nat, c: BigNum, cin: nat, top: int)
    requires cin <= 1 && top == 2 * a.numAndSign + cin && c.numAndSign == Wrap32(top)
    requires LimbsVal(c.num) + Weight(LIMBS) * cin == 2 * LimbsVal(a.num[..LIMBS]) + lsb
    ensures Uns(c) == (2 * Uns(a) + lsb) % MODULUS
  {
    var v := 2 * Val(a) + lsb;
    ShlTop(a, lsb, c.num, cin, top);
    Assemble(c, top, v);
    DoubleMod(a, lsb, v);
  }

  lemma ShlTop(a: BigNum, lsb: nat, num: seq<uint32>, cin: nat, top: int)
    requires |num| == LIMBS && top == 2 * a.numAndSign + cin
    requires LimbsVal(num) + Weight(LIMBS) * cin == 2 * LimbsVal(a.num[..LIMBS]) + lsb
    ensures LimbsVal(num) + TOP * top == 2 * Val(a) + lsb
  {
    WeightValues();
    ValSplit(a);
    TopCarry(LimbsVal(num), TOP, cin, 2 * LimbsVal(a.num) + lsb, 2 * a.numAndSign);
  }

  lemma ShrArith(x: nat, y: int, m: nat, u: int, t: int, w: int, w2: int, msb: nat)
    requires y == x / 2 + m * 0x8000_0000 && msb <= 1 && w2 == BASE * w
    requires 2 * u + m == t + msb * w
    ensures 2 * (y + BASE * u) + x % 2 == x + BASE * t + msb * w2
  {
    if msb == 0 {
      assert 2 * u + m == t;
    } else {
      assert 2 * u + m == t + w;
    }
  }

  lemma ShrLoopStep(num: seq<uint32>, p: seq<uint32>, topBits: uint32, m: nat, msb: nat,
                    i: nat, y: uint32)
    requires |p| == LIMBS + 1 && i < LIMBS && |num| == LIMBS - 1 - i && m <= 1 && msb <= 1
    requires y == p[i] / 2 + m * 0x8000_0000
    requires 2 * LimbsVal(num + [topBits]) + m == LimbsVal(p[i + 1..]) + msb * Weight(|num| + 1)
    ensures 2 * LimbsVal([y] + num + [topBits]) + p[i] % 2
         == LimbsVal(p[i..]) + msb * Weight(|num| + 2)
  {
    var u := LimbsVal(num + [topBits]);
    ShrCons(y, num, topBits);
    LimbsValDrop(p, i);
    ShrArith(p[i], y, m, u, LimbsVal(p[i + 1..]), Weight(|num| + 1), Weight(|num| + 2), msb);
  }

  lemma ShrCons(y: uint32, num: seq<uint32>, topBits: uint32)
    ensures LimbsVal([y] + num + [topBits]) == y + BASE * LimbsVal(num + [topBits])
  {
    assert [y] + num + [topBits] == [y] + (num + [topBits]);
    LimbsValCons(y, num + [topBits]);
  }

  /** `bignum_shr1`: every bit moves down one place and bit 0 of `msb` enters at bit 255.
      The top limb is shifted as unsigned, so the shift is logical. */
  method Shr1(a: BigNum, msb: uint32) returns (b: BigNum)
    ensures b == ShiftedRight(a, msb)
    ensures Uns(b) == Uns(a) / 2 + (msb % 2) * HALF
  {
    ghost var p := Pattern(a);
    var carry: uint32 := Bits32(a.numAndSign) % 2;                      // a->num_and_sign & 1
    var sign := Wrap32(Bits32(a.numAndSign) / 2 + (msb % 2) * 0x8000_0000);
    var m := carry;
    var num: seq<uint32> := [];
    var i: int := LIMBS - 1;
    ShrStart(a, msb % 2, sign);
    while i >= 0
      invariant -1 <= i < LIMBS && |num| == LIMBS - 1 - i && m <= 1
      invariant 2 * LimbsVal(num + [Bits32(sign)]) + m
             == LimbsVal(p[i + 1..]) + (msb % 2) * Weight(|num| + 1)
    {
      carry := a.num[i] % 2;                                           // a->num[i] & 1
      var y: uint32 := a.num[i] / 2 + m * 0x8000_0000;                 // (a->num[i] >> 1) | (msb << 31)
      ShrLoopStep(num, p, Bits32(sign), m, msb % 2, i, y);
      num := [y] + num;
      m := carry;
      i := i - 1;
    }
    b := BigNum(num, sign);
    ShrFinish(a, b, msb % 2, m);
    ShiftedRightOfUns(a, msb, b);
  }

  /** The top limb shifted as unsigned, with the incoming bit at bit 31. */
  lemma ShrStart(a: BigNum, k: nat, sign: int32)
    requires k <= 1 && sign == Wrap32(Bits32(a.numAndSign) / 2 + k * 0x8000_0000)
    ensures 2 * LimbsVal([] + [Bits32(sign)]) + Bits32(a.numAndSign) % 2
         == LimbsVal(Pattern(a)[LIMBS..]) + k * Weight(1)
  {
    var t := Bits32(a.numAndSign);
    assert Pattern(a)[LIMBS..] == [t];
    assert [] + [Bits32(sign)] == [Bits32(sign)];
    LimbsValSingle(t);
    LimbsValSingle(Bits32(sign));
    ModOfSmall(t / 2 + k * 0x8000_0000, BASE);
  }

  /** After all eight limbs, twice the result plus the bit shifted out is the operand plus
      the incoming bit at bit 256. */
  lemma ShrFinish(a: BigNum, b: BigNum, k: nat, m: nat)
    requires k <= 1 && m <= 1
    requires 2 * LimbsVal(b.num + [Bits32(b.numAndSign)]) + m
          == LimbsVal(Pattern(a)[0..]) + k * Weight(LIMBS + 1)
    ensures Uns(b) == Uns(a) / 2 + k * HALF
  {
    assert Pattern(b) == b.num + [Bits32(b.numAndSign)];
    assert Pattern(a)[0..] == Pattern(a);
    UnsSplit(a);
    UnsSplit(b);
    WeightValues();
    DivModUnique(Uns(a), 2, Uns(b) - k * HALF, m);
  }


  /** The bignum with `lo` at limb `unit` and `hi` at limb `unit + 1`, all else zero. */
  lemma TwoLimbs(unit: nat, lo: uint32, hi: uint32)
    requires unit + 1 < LIMBS
    ensures LimbsVal(Zeros(LIMBS)[unit := lo][unit + 1 := hi]) == Weight(unit) * (lo + BASE * hi)
  {
    var s := Zeros(LIMBS)[unit := lo][unit + 1 := hi];
    var z := Zeros(unit);
    var pair: seq<uint32> := [lo, hi];
    var rest := Zeros(LIMBS - 2 - unit);
    assert s == z + (pair + rest);
    LimbsValAppend(z, pair + rest);
    LimbsValAppend(pair, rest);
    assert pair == [lo] + [hi];
    LimbsValAppend([lo], [hi]);
    LimbsValSingle(lo);
    LimbsValSingle(hi);
  }

  lemma HighLimb(lo: uint32)
    ensures LimbsVal(Zeros(LIMBS)[LIMBS - 1 := lo]) == Weight(LIMBS - 1) * lo
  {
    var s := Zeros(LIMBS)[LIMBS - 1 := lo];
    assert s == Zeros(LIMBS - 1) + [lo];
    LimbsValAppend(Zeros(LIMBS - 1), [lo]);
    LimbsValSingle(lo);
  }

  /** `bignum_from_uint_shift_unit`: `u` placed at limb `unit`; the words that fall past the
      top limb are dropped. */
  method FromUintShiftUnit(u: uint64, unit: int) returns (r: BigNum)
    requires unit >= 0
    ensures Uns(r) == (u * Weight(unit)) % MODULUS
  {
    r := Zero;
    var lo: uint32, hi: uint32 := u % BASE, u / BASE;   // u & UINT32_MAX, u >> 32
    assert u == lo + BASE * hi;
    if unit + 1 < LIMBS {
      r := r.(num := r.num[unit := lo][unit + 1 := hi]);
      assert r.num == Zeros(LIMBS)[unit := lo][unit + 1 := hi];
      ShiftUnitLow(u, unit, lo, hi, r);
    } else if unit == LIMBS - 1 {
      r := r.(num := r.num[LIMBS - 1 := lo], numAndSign := Wrap32(hi));
      assert r.num == Zeros(LIMBS)[LIMBS - 1 := lo];
      ShiftUnitSix(u, lo, hi, r);
    } else if unit == LIMBS {
      r := r.(numAndSign := Wrap32(lo));
      assert r.num == Zeros(LIMBS);
      ShiftUnitSeven(u, lo, hi, r);
    } else {
      assert r.num == Zeros(LIMBS);
      ShiftUnitBeyond(u, unit, r);
    }
  }

  lemma ShiftUnitLow(u: nat, unit: nat, lo: uint32, hi: uint32, r: BigNum)
    requires unit + 1 < LIMBS && u == lo + BASE * hi
    requires r.num == Zeros(LIMBS)[unit := lo][unit + 1 := hi] && r.numAndSign == 0
    ensures Uns(r) == (u * Weight(unit)) % MODULUS
  {
    TwoLimbs(unit, lo, hi);
    WeightAdd(unit, 2);
    assert Weight(2) == BASE * BASE;
    assert u < Weight(2);
    MulLe(Weight(unit), u, Weight(2));
    Weight7Bound(unit + 2);
    ModOfSmall(u * Weight(unit), MODULUS);
  }

  lemma Weight7Bound(i: nat)
    requires i <= LIMBS
    ensures Weight(i) <= TOP
  {
    WeightAdd(i, LIMBS - i);
    WeightValues();
    MulLe(Weight(i), 1, Weight(LIMBS - i));
  }

  lemma ShiftUnitSix(u: nat, lo: uint32, hi: uint32, r: BigNum)
    requires u == lo + BASE * hi && hi < BASE
    requires r.num == Zeros(LIMBS)[LIMBS - 1 := lo] && r.numAndSign == Wrap32(hi)
    ensures Uns(r) == (u * Weight(LIMBS - 1)) % MODULUS
  {
    HighLimb(lo);
    ModOfSmall(hi, BASE);
    WeightValues();
    var w := Weight(LIMBS - 1);
    assert TOP == BASE * w;
    assert u * w == w * lo + TOP * hi;
    ModOfSmall(u * w, MODULUS);
  }

  lemma ShiftUnitSeven(u: nat, lo: uint32, hi: uint32, r: BigNum)
    requires u == lo + BASE * hi
    requires r.num == Zeros(LIMBS) && r.numAndSign == Wrap32(lo)
    ensures Uns(r) == (u * Weight(LIMBS)) % MODULUS
  {
    ModOfSmall(lo, BASE);
    WeightValues();
    assert u * TOP == TOP * lo + MODULUS * hi;
    MulLe(TOP, lo, BASE - 1);
    ModAddMultiple(TOP * lo, hi, MODULUS);
    ModOfSmall(TOP * lo, MODULUS);
  }

  lemma ShiftUnitBeyond(u: nat, unit: nat, r: BigNum)
    requires unit > LIMBS && r.num == Zeros(LIMBS) && r.numAndSign == 0
    ensures Uns(r) == (u * Weight(unit)) % MODULUS
  {
    WeightBeyond(u, unit);
  }

  /** Past the top limb every weight is a multiple of 2^256. */
  lemma WeightBeyond(u: nat, unit: nat)
    requires unit > LIMBS
    ensures (u * Weight(unit)) % MODULUS == 0
  {
    var k := Weight(unit - LIMBS - 1);
    WeightAdd(LIMBS + 1, unit - LIMBS - 1);
    assert Weight(LIMBS + 1) == MODULUS by { WeightValues(); }
    ScaledMultiple(u, Weight(unit), k, MODULUS);
  }

  lemma ScaledMultiple(u: int, w: int, k: int, m: int)
    requires w == m * k && m > 0
    ensures (u * w) % m == 0
  {
    assert u * w == (u * k) * m;
    MulDivCancel(u * k, m);
  }


  /** How many columns of row i `bignum_mul`'s double loop visits (`i + j <= 7 && j < 7`);
      row 7 is the separate product of the top limb with limb 0. */
  function Span(i: nat): (r: nat)
    requires i <= LIMBS
    ensures i == 0 ==> r == LIMBS
    ensures i > 0 ==> r == LIMBS + 1 - i
  {
    if i == 0 then LIMBS else LIMBS + 1 - i
  }

  /** Limb i of x times the low j limbs of y, at its weight. */
  ghost function RowPart(px: seq<uint32>, py: seq<uint32>, i: nat, j: nat): int
    requires i < |px| && j <= |py|
  {
    px[i] * Weight(i) * LimbsVal(py[..j])
  }

  /** The partial products of rows 0 .. i-1 that the double loop adds up. */
  ghost function MulRows(px: seq<uint32>, py: seq<uint32>, i: nat): int
    requires |px| == |py| == LIMBS + 1 && i <= LIMBS + 1
  {
    if i == 0 then 0 else MulRows(px, py, i - 1) + RowPart(px, py, i - 1, Span(i - 1))
  }

  /** What the rows leave out beyond 2^256, by which the product exceeds them. */
  ghost function Excess(px: seq<uint32>, py: seq<uint32>, i: nat): int
    requires |px| == |py| == LIMBS + 1 && i <= LIMBS + 1
  {
    if i <= 1 then 0 else Excess(px, py, i - 1) + px[i - 1] * LimbsVal(py[LIMBS + 2 - i..])
  }

  /** `(uint64_t) x * y` for two 32-bit words, which cannot overflow. */
  function Mul32(x: uint32, y: uint32): (r: uint64)
    ensures r == x * y
  {
    ProductFits(x, y);
    x * y
  }

  lemma ProductFits(x: uint32, y: uint32)
    ensures x * y <= UINT32_MAX * UINT32_MAX
  {
    MulLe(x, y, UINT32_MAX);
    MulLe(UINT32_MAX, x, UINT32_MAX);
    assert x * UINT32_MAX == UINT32_MAX * x;
  }

  /** One more column of row i. */
  lemma RowStep(px: seq<uint32>, py: seq<uint32>, i: nat, j: nat)
    requires i < |px| && j < |py|
    ensures RowPart(px, py, i, j + 1) == RowPart(px, py, i, j) + (px[i] * py[j]) * Weight(i + j)
  {
    LimbsValPrefix(py, j);
    WeightAdd(i, j);
    RowArith(px[i], Weight(i), LimbsVal(py[..j]), Weight(j), py[j], Weight(i + j));
  }

  lemma RowArith(x: int, w: int, l: int, v: int, y: int, wv: int)
    requires wv == w * v
    ensures x * w * (l + v * y) == x * w * l + (x * y) * wv
  {
    assert x * w * (l + v * y) == x * w * l + x * w * (v * y);
    assert x * w * (v * y) == (x * y) * (w * v);
  }

  /** Adding `d` to a bignum that holds `acc` modulo 2^256. */
  lemma AddStep(c: BigNum, t: BigNum, c2: BigNum, acc: int, d: int)
    requires Uns(c) == acc % MODULUS && Uns(t) == d % MODULUS
    requires Uns(c2) == (Uns(c) + Uns(t)) % MODULUS
    ensures Uns(c2) == (acc + d) % MODULUS
  {
    ModOfReduced(acc, d, Uns(c), Uns(t), MODULUS);
  }

  /** A row added to a bignum that holds `acc` modulo 2^256. */
  lemma AccStep(c: BigNum, c2: BigNum, acc: int, d: int)
    requires Uns(c) == acc % MODULUS
    requires Uns(c2) == (Uns(c) + d) % MODULUS
    ensures Uns(c2) == (acc + d) % MODULUS
  {
    ModAddLeft(acc, d, MODULUS);
  }

  /** The product of the low i limbs of x with y is the first i rows, the column left out of
      row 0, and a multiple of 2^256. */
  lemma {:induction false} MulRowsExact(px: seq<uint32>, py: seq<uint32>, i: nat)
    requires |px| == |py| == LIMBS + 1 && 1 <= i <= LIMBS + 1
    ensures LimbsVal(px[..i]) * LimbsVal(py)
         == MulRows(px, py, i) + px[0] * py[LIMBS] * Weight(LIMBS) + MODULUS * Excess(px, py, i)
  {
    if i == 1 {
      MulRowsFirst(px, py);
    } else {
      MulRowsExact(px, py, i - 1);
      MulRowsNext(px, py, i - 1);
    }
  }

  lemma MulRowsFirst(px: seq<uint32>, py: seq<uint32>)
    requires |px| == |py| == LIMBS + 1
    ensures LimbsVal(px[..1]) * LimbsVal(py)
         == MulRows(px, py, 1) + px[0] * py[LIMBS] * Weight(LIMBS) + MODULUS * Excess(px, py, 1)
  {
    var y := LimbsVal(py);
    assert px[..1] == [px[0]];
    LimbsValSingle(px[0]);
    assert py == py[..LIMBS] + [py[LIMBS]];
    LimbsValAppend(py[..LIMBS], [py[LIMBS]]);
    LimbsValSingle(py[LIMBS]);
    var l := LimbsVal(py[..LIMBS]);
    var w, h := Weight(LIMBS), py[LIMBS];
    assert MulRows(px, py, 1) == px[0] * Weight(0) * l;
    assert y == l + w * h;
    FirstRowArith(px[0], y, l, w, h, Weight(0), MulRows(px, py, 1), LimbsVal(px[..1]));
  }

  lemma FirstRowArith(x: int, y: int, l: int, w: int, h: int, one: int, rows: int, lx: int)
    requires y == l + w * h && one == 1 && rows == x * one * l && lx == x
    ensures lx * y == rows + x * h * w + MODULUS * 0
  {
  }

  lemma MulRowsNext(px: seq<uint32>, py: seq<uint32>, k: nat)
    requires |px| == |py| == LIMBS + 1 && 1 <= k <= LIMBS
    requires LimbsVal(px[..k]) * LimbsVal(py)
          == MulRows(px, py, k) + px[0] * py[LIMBS] * Weight(LIMBS) + MODULUS * Excess(px, py, k)
    ensures LimbsVal(px[..k + 1]) * LimbsVal(py)
         == MulRows(px, py, k + 1) + px[0] * py[LIMBS] * Weight(LIMBS) + MODULUS * Excess(px, py, k + 1)
  {
    var n := LIMBS + 1 - k;
    LimbsValPrefix(px, k);
    assert py == py[..n] + py[n..];
    LimbsValAppend(py[..n], py[n..]);
    WeightAdd(k, n);
    assert Weight(LIMBS + 1) == MODULUS by { WeightValues(); }
    assert MulRows(px, py, k + 1) == MulRows(px, py, k) + px[k] * Weight(k) * LimbsVal(py[..n]);
    assert Excess(px, py, k + 1) == Excess(px, py, k) + px[k] * LimbsVal(py[n..]);
    RowCongruence(LimbsVal(px[..k]), Weight(k), px[k], LimbsVal(py), LimbsVal(py[..n]),
                  Weight(n), LimbsVal(py[n..]),
                  MulRows(px, py, k), px[0] * py[LIMBS] * Weight(LIMBS), Excess(px, py, k));
  }

  lemma RowCongruence(l: int, w: int, x: int, y: int, p: int, v: int, q: int,
                      rows: int, e: int, ex: int)
    requires y == p + v * q && w * v == MODULUS
    requires l * y == rows + e + MODULUS * ex
    ensures (l + w * x) * y == (rows + x * w * p) + e + MODULUS * (ex + x * q)
  {
    assert w * x * y == x * w * p + x * (w * v) * q by {
      assert w * x * y == x * w * p + x * w * (v * q);
    }
  }

  /** The rows with the two top-limb products give the product of the patterns modulo 2^256. */
  lemma MulRowsMod(px: seq<uint32>, py: seq<uint32>, acc: int)
    requires |px| == |py| == LIMBS + 1
    requires acc == MulRows(px, py, LIMBS + 1) + px[0] * py[LIMBS] * Weight(LIMBS)
    ensures acc % MODULUS == (LimbsVal(px) * LimbsVal(py)) % MODULUS
  {
    MulRowsExact(px, py, LIMBS + 1);
    assert px[..LIMBS + 1] == px;
    ModAddMultiple(acc, Excess(px, py, LIMBS + 1), MODULUS);
  }

  /** `bignum_mul`: the product of the two abs results, negated when exactly one operand
      is negative. */
  method Mul(a: BigNum, b: BigNum) returns (c: BigNum)
    ensures c == Product(a, b)
  {
    var sign := (a.numAndSign < 0) != (b.numAndSign < 0);
    var absA := Abs(a);
    var absB := Abs(b);
    c := MulMagnitudes(absA, absB);
    if sign {
      c := Neg(c);
    }
  }

  /** Lines 118-131 of `bignum_mul`: schoolbook multiplication of two non-negative bignums,
      each partial product placed by `bignum_from_uint_shift_unit` and added into `c`. */
  method MulMagnitudes(absA: BigNum, absB: BigNum) returns (c: BigNum)
    requires absA.numAndSign >= 0 && absB.numAndSign >= 0
    ensures c == OfUns((Uns(absA) * Uns(absB)) % MODULUS)
  {
    ghost var px, py := Pattern(absA), Pattern(absB);
    c := MulRowsLoop(absA, absB);
    ghost var acc := MulRows(px, py, LIMBS);
    var tmp := Mul32(absA.num[0], absB.numAndSign);
    ghost var d := tmp * Weight(LIMBS);
    c := AddShifted(c, tmp, LIMBS, acc, d);
    acc := acc + d;
    tmp := Mul32(absA.numAndSign, absB.num[0]);
    d := tmp * Weight(LIMBS);
    c := AddShifted(c, tmp, LIMBS, acc, d);
    acc := acc + d;
    MulFinish(absA, absB, c, acc, px, py);
  }

  /** The outer loop of `bignum_mul` (lines 119-125), from `bignum_init(c)`: the rows of the
      partial products of the limbs, added into `c` modulo 2^256. */
  method MulRowsLoop(absA: BigNum, absB: BigNum) returns (c: BigNum)
    ensures Uns(c) == MulRows(Pattern(absA), Pattern(absB), LIMBS) % MODULUS
  {
    ghost var px, py := Pattern(absA), Pattern(absB);
    c := Init();
    var i := 0;
    while i < LIMBS
      invariant 0 <= i <= LIMBS
      invariant Uns(c) == MulRows(px, py, i) % MODULUS
    {
      var c2 := MulRow(absA, absB, c, i);
      AccStep(c, c2, MulRows(px, py, i), RowPart(px, py, i, Span(i)));
      c := c2;
      i := i + 1;
    }
  }

  /** `bignum_from_uint_shift_unit(&big_tmp, tmp, unit)` then `bignum_add(c, &big_tmp, c)`:
      adds `tmp` placed at limb `unit` to a bignum that holds `acc` modulo 2^256. */
  method AddShifted(c0: BigNum, tmp: uint64, unit: nat, ghost acc: int, ghost d: int)
    returns (c: BigNum)
    requires Uns(c0) == acc % MODULUS && d == tmp * Weight(unit)
    ensures Uns(c) == (acc + d) % MODULUS
  {
    var bigTmp := FromUintShiftUnit(tmp, unit);
    c := Add(c0, bigTmp);
    AddStep(c0, bigTmp, c, acc, d);
  }

  /** The inner loop of `bignum_mul` (lines 120-124): row i of the partial products,
      `abs_a.num[i] * abs_b.num[j]` placed at limb i + j, added into `c`. */
  method MulRow(absA: BigNum, absB: BigNum, c0: BigNum, i: nat) returns (c: BigNum)
    requires i < LIMBS
    ensures Uns(c) == (Uns(c0) + RowPart(Pattern(absA), Pattern(absB), i, Span(i))) % MODULUS
  {
    ghost var px, py := Pattern(absA), Pattern(absB);
    c := c0;
    ghost var acc: int := Uns(c0);
    ModOfSmall(acc, MODULUS);
    var j := 0;
    while i + j <= LIMBS && j < LIMBS
      invariant 0 <= j <= Span(i)
      invariant Uns(c) == acc % MODULUS
      invariant acc == Uns(c0) + RowPart(px, py, i, j)
    {
      var tmp := Mul32(absA.num[i], absB.num[j]);
      ghost var d := tmp * Weight(i + j);
      c := AddShifted(c, tmp, i + j, acc, d);
      RowStep(px, py, i, j);
      acc := acc + d;
      j := j + 1;
    }
    assert j == Span(i);
  }

  /** After the two top-limb products the accumulated value is the product of the abs
      results modulo 2^256. */
  lemma MulFinish(absA: BigNum, absB: BigNum, c: BigNum, acc: int, px: seq<uint32>, py: seq<uint32>)
    requires px == Pattern(absA) && py == Pattern(absB)
    requires absA.numAndSign >= 0 && absB.numAndSign >= 0
    requires acc == MulRows(px, py, LIMBS) + (absA.num[0] * absB.numAndSign) * Weight(LIMBS)
                  + (absA.numAndSign * absB.num[0]) * Weight(LIMBS)
    requires Uns(c) == acc % MODULUS
    ensures c == OfUns((Uns(absA) * Uns(absB)) % MODULUS)
  {
    assert py[..1] == [py[0]];
    LimbsValSingle(py[0]);
    assert RowPart(px, py, LIMBS, 1) == (absA.numAndSign * absB.num[0]) * Weight(LIMBS);
    MulRowsMod(px, py, acc);
    UnsSplit(absA);
    UnsSplit(absB);
    UnsInjective(c, OfUns((Uns(absA) * Uns(absB)) % MODULUS));
  }


  lemma Pow2Base()
    ensures Pow2(32) == BASE
  {
    assert Pow2(2) == 4;
    Pow2Add(2, 2);
    Pow2Add(4, 4);
    Pow2Add(8, 8);
    Pow2Add(16, 16);
  }

  lemma {:induction false} Pow2Weight(k: nat)
    ensures Pow2(32 * k) == Weight(k)
  {
    if k > 0 {
      Pow2Weight(k - 1);
      Pow2Add(32 * (k - 1), 32);
      Pow2Base();
    }
  }

  /** 2^255, 2^256 and 2^257 as powers of two. */
  lemma Pow2Top()
    ensures Pow2(255) == HALF && Pow2(256) == MODULUS && Pow2(257) == 2 * MODULUS
  {
    Pow2Weight(8);
    WeightValues();
    assert Pow2(256) == 2 * Pow2(255);
  }

  /** The state of the restoring division after i of its 256 steps, read as the 512-bit
      number rem:quo. Each step shifts rem:quo left by one, shifting in the next quotient
      bit, and subtracts b from rem when that bit is 1; `q` holds the quotient bits so far. */
  ghost predicate DivState(x: nat, y: nat, i: nat, q: nat, r: nat, s: nat)
  {
    q < Pow2(i) && r < MODULUS && s < MODULUS
    && r * MODULUS + s == Pow2(i + 1) * x + q - 2 * MODULUS * (y * q)
    && (y > 0 ==> r < 2 * y)
    && (y == 0 ==> q == Pow2(i) - 1)
  }

  /** One shift of rem:quo, `bit` entering quo and quo's top bit entering rem. */
  lemma ShiftPair(r: int, q0: int, bit: nat, cy: nat, rem2: int, quo2: int)
    requires 0 <= q0 < MODULUS && bit <= 1 && 0 <= 2 * r + cy < MODULUS
    requires cy == if q0 >= HALF then 1 else 0
    requires quo2 == (2 * q0 + bit) % MODULUS && rem2 == (2 * r + cy) % MODULUS
    ensures rem2 * MODULUS + quo2 == 2 * (r * MODULUS + q0) + bit
  {
    ModOfSmall(2 * r + cy, MODULUS);
    DivModUnique(2 * q0 + bit, MODULUS, cy, 2 * q0 + bit - cy * MODULUS);
  }

  /** The subtraction of step 2 leaves a non-negative sign exactly when rem >= b. */
  lemma SubSign(x: nat, y: nat, i: nat, q: nat, r: nat, s: nat, d: BigNum)
    requires DivState(x, y, i, q, r, s) && x < HALF && y < HALF && i < 256
    requires Uns(d) == (r - y) % MODULUS
    ensures d.numAndSign >= 0 <==> r >= y
  {
    if y == 0 {
      ZeroDivisorBound(x, i, q, r, s);
    }
    if r >= y {
      ModOfSmall(r - y, MODULUS);
    } else {
      ModAddMultiple(r - y, 1, MODULUS);
      ModOfSmall(r - y + MODULUS, MODULUS);
    }
  }

  /** Step 3a: rem >= b, so b stays subtracted and the quotient bit is 1. */
  lemma KeepStep(x: nat, y: nat, i: nat, q: nat, r: nat, s: nat, r1: nat, cy: nat, r2: nat, s2: nat)
    requires DivState(x, y, i, q, r, s) && x < HALF && y < HALF && i < 256
    requires r >= y && r1 == (r - y) % MODULUS
    requires cy == if s >= HALF then 1 else 0
    requires s2 == (2 * s + 1) % MODULUS && r2 == (2 * r1 + cy) % MODULUS
    ensures DivState(x, y, i + 1, 2 * q + 1, r2, s2)
  {
    ModOfSmall(r - y, MODULUS);
    StepBound(x, y, i, q, r, s, r1);
    ShiftPair(r1, s, 1, cy, r2, s2);
    StepArith(x, y, q, r, s, r1, 1, r2, s2, Pow2(i + 1), Pow2(i + 2));
  }

  /** Adding b back to rem - b gives rem again. */
  lemma AddBack(r: nat, y: nat, d: nat, e: nat)
    requires r < MODULUS && d == (r - y) % MODULUS && e == (d + y) % MODULUS
    ensures e == r
  {
    ModAddLeft(r - y, y, MODULUS);
    ModOfSmall(r, MODULUS);
  }

  /** Step 3b: rem < b, so b is added back and the quotient bit is 0. */
  lemma RestoreStep(x: nat, y: nat, i: nat, q: nat, r: nat, s: nat, cy: nat, r2: nat, s2: nat)
    requires DivState(x, y, i, q, r, s) && x < HALF && y < HALF && i < 256
    requires r < y
    requires cy == if s >= HALF then 1 else 0
    requires s2 == (2 * s) % MODULUS && r2 == (2 * r + cy) % MODULUS
    ensures DivState(x, y, i + 1, 2 * q, r2, s2)
  {
    ShiftPair(r, s, 0, cy, r2, s2);
    StepArith(x, y, q, r, s, r, 0, r2, s2, Pow2(i + 1), Pow2(i + 2));
  }

  /** After a step the remainder part is below 2b, or below 2^255 when b is zero. */
  lemma StepBound(x: nat, y: nat, i: nat, q: nat, r: nat, s: nat, r1: nat)
    requires DivState(x, y, i, q, r, s) && x < HALF && i < 256
    requires r >= y && r1 == r - y
    ensures 2 * r1 + 1 < MODULUS
    ensures y > 0 ==> 2 * r1 + 1 < 2 * y
  {
    if y == 0 {
      ZeroDivisorBound(x, i, q, r, s);
    }
  }

  /** With b zero, rem holds the top i + 1 bits of a, which is below 2^255. */
  lemma ZeroDivisorBound(x: nat, i: nat, q: nat, r: nat, s: nat)
    requires DivState(x, 0, i, q, r, s) && x < HALF && i < 256
    ensures r < HALF
  {
    Pow2Monotone(i + 1, 256);
    Pow2Top();
    ZeroDivisorArith(x, q, r, s, Pow2(i + 1), Pow2(i));
  }

  lemma ZeroDivisorArith(x: nat, q: nat, r: nat, s: nat, p: nat, p0: nat)
    requires x < HALF && p == 2 * p0 && p <= MODULUS && q < p0
    requires r * MODULUS + s == p * x + q
    ensures r < HALF
  {
    MulLe(p, x + 1, HALF);
    MulLe(HALF, p, MODULUS);
    if r >= HALF {
      MulLe(MODULUS, HALF, r);
    }
  }

  lemma StepArith(x: nat, y: nat, q: nat, r: nat, s: nat, r1: int, bit: nat, r2: int, s2: int,
                  p: nat, p2: nat)
    requires p2 == 2 * p && r1 == r - bit * y
    requires r * MODULUS + s == p * x + q - 2 * MODULUS * (y * q)
    requires r2 * MODULUS + s2 == 2 * (r1 * MODULUS + s) + bit
    ensures r2 * MODULUS + s2 == p2 * x + (2 * q + bit) - 2 * MODULUS * (y * (2 * q + bit))
  {
    assert p2 * x == 2 * (p * x);
    assert y * (2 * q + bit) == 2 * (y * q) + bit * y;
  }

  /** `(x.num_and_sign < 0)` as a 32-bit word. */
  function SignBit(x: BigNum): (r: uint32)
    ensures r <= 1 && (r == 1 <==> x.numAndSign < 0)
  {
    if x.numAndSign < 0 then 1 else 0
  }

  /** Step 1 shifts the top bit of a (zero, as a is non-negative) into rem. */
  lemma DivStart(x: nat, y: nat, r: nat, s: nat)
    requires x < HALF && r == 0 && s == (2 * x) % MODULUS
    ensures DivState(x, y, 0, 0, r, s)
  {
    ModOfSmall(2 * x, MODULUS);
  }

  /** After 256 steps quo holds the quotient bits and rem twice the remainder. */
  lemma DivFinish(x: nat, y: nat, q: nat, r: nat, s: nat, rOut: nat)
    requires DivState(x, y, 256, q, r, s) && rOut == r / 2
    ensures y != 0 ==> s == x / y && rOut == x % y
    ensures y == 0 ==> s == MODULUS - 1 && rOut == x
  {
    Pow2Top();
    FinishArith(x, y, q, r, s, rOut, MODULUS);
  }

  /** The end of DivFinish for a register of `m` values per half. */
  lemma FinishArith(x: nat, y: nat, q: nat, r: nat, s: nat, rOut: nat, m: nat)
    requires q < m && r < m && s < m && rOut == r / 2
    requires r * m + s == 2 * m * x + q - 2 * m * (y * q)
    requires y > 0 ==> r < 2 * y
    requires y == 0 ==> q == m - 1
    ensures y != 0 ==> s == x / y && rOut == x % y
    ensures y == 0 ==> s == m - 1 && rOut == x
  {
    var p := y * q;
    var t := 2 * x - 2 * p;
    TwiceScaled(x, p, m, t);
    HalvesEqual(r, s, t, q, m);
    if y != 0 {
      QuotientOf(x, y, q, p);
    }
  }

  lemma TwiceScaled(x: int, p: int, m: int, t: int)
    requires t == 2 * x - 2 * p
    ensures t * m == 2 * m * x - 2 * m * p
  {
  }

  /** The two halves of a register of `m` values per half are determined by its value. */
  lemma HalvesEqual(r: int, s: int, t: int, q: int, m: int)
    requires 0 <= s < m && 0 <= q < m && r * m + s == t * m + q
    ensures r == t && s == q
  {
    DivModUnique(r * m + s, m, r, s);
    DivModUnique(r * m + s, m, t, q);
  }

  lemma QuotientOf(x: int, y: int, q: int, p: int)
    requires y > 0 && p == y * q && 0 <= x - p < y
    ensures x / y == q && x % y == x - p
  {
    DivModUnique(x, y, q, x - p);
  }

  /** Steps 2 and 3 of `bignum_divrem`: subtract b from rem, then keep the difference (3a)
      or add b back (3b) according to its sign. */
  method DivStep(ghost x: nat, ghost i: nat, ghost qb: nat, rem: BigNum, quo: BigNum, b: BigNum)
    returns (rem2: BigNum, quo2: BigNum, ghost qb2: nat)
    requires x < HALF && Uns(b) < HALF && i < 256
    requires DivState(x, Uns(b), i, qb, Uns(rem), Uns(quo))
    ensures DivState(x, Uns(b), i + 1, qb2, Uns(rem2), Uns(quo2))
  {
    // 2
    var d := Sub(rem, b);
    SubSign(x, Uns(b), i, qb, Uns(rem), Uns(quo), d);
    if d.numAndSign >= 0 {
      rem2, quo2 := KeepBit(x, i, qb, rem, quo, b, d);
      qb2 := 2 * qb + 1;
    } else {
      rem2, quo2 := RestoreBit(x, i, qb, rem, quo, b, d);
      qb2 := 2 * qb;
    }
  }

  /** Step 3a: rem - b is non-negative; it is kept and a 1 bit is shifted into quo. */
  method KeepBit(ghost x: nat, ghost i: nat, ghost qb: nat, rem: BigNum, quo: BigNum, b: BigNum,
                 d: BigNum)
    returns (rem2: BigNum, quo2: BigNum)
    requires x < HALF && Uns(b) < HALF && i < 256
    requires DivState(x, Uns(b), i, qb, Uns(rem), Uns(quo))
    requires Uns(rem) >= Uns(b) && Uns(d) == (Uns(rem) - Uns(b)) % MODULUS
    ensures DivState(x, Uns(b), i + 1, 2 * qb + 1, Uns(rem2), Uns(quo2))
  {
    var carry := SignBit(quo);
    quo2 := Shl1(quo, 1);
    rem2 := Shl1(d, carry);
    KeepStep(x, Uns(b), i, qb, Uns(rem), Uns(quo), Uns(d), carry, Uns(rem2), Uns(quo2));
  }

  /** Step 3b: rem - b is negative; b is added back and a 0 bit is shifted into quo. */
  method RestoreBit(ghost x: nat, ghost i: nat, ghost qb: nat, rem: BigNum, quo: BigNum, b: BigNum,
                    d: BigNum)
    returns (rem2: BigNum, quo2: BigNum)
    requires x < HALF && Uns(b) < HALF && i < 256
    requires DivState(x, Uns(b), i, qb, Uns(rem), Uns(quo))
    requires Uns(rem) < Uns(b) && Uns(d) == (Uns(rem) - Uns(b)) % MODULUS
    ensures DivState(x, Uns(b), i + 1, 2 * qb, Uns(rem2), Uns(quo2))
  {
    var back := Add(d, b);
    AddBack(Uns(rem), Uns(b), Uns(d), Uns(back));
    var carry := SignBit(quo);
    quo2 := Shl1(quo, 0);
    rem2 := Shl1(back, carry);
    RestoreStep(x, Uns(b), i, qb, Uns(rem), Uns(quo), carry, Uns(rem2), Uns(quo2));
  }

  /** `bignum_divrem` for non-negative operands: restoring division, one quotient bit per
      step over 256 steps, with quo and rem shifted together as one 512-bit register. A zero
      divisor is not detected: every step keeps the subtraction and the quotient is all ones. */
  method DivRem(a: BigNum, b: BigNum) returns (q: BigNum, r: BigNum)
    requires a.numAndSign >= 0 && b.numAndSign >= 0
    ensures Uns(b) != 0 ==> Uns(q) == Uns(a) / Uns(b) && Uns(r) == Uns(a) % Uns(b)
    ensures Uns(b) == 0 ==> Uns(q) == MODULUS - 1 && r == a
  {
    ghost var x, y := Uns(a), Uns(b);
    var quo := a;
    var rem := Init();
    ZeroUnique(rem);
    // 1
    var carry: uint32 := SignBit(quo);
    quo := Shl1(quo, 0);
    rem := Shl1(rem, carry);
    DivStart(x, y, Uns(rem), Uns(quo));
    ghost var qb: nat := 0;
    for i := 0 to 256
      invariant DivState(x, y, i, qb, Uns(rem), Uns(quo))
    {
      rem, quo, qb := DivStep(x, i, qb, rem, quo, b);
    }
    q := quo;
    // 4
    r := Shr1(rem, 0);
    DivFinish(x, y, qb, Uns(rem), Uns(quo), Uns(r));
    if y == 0 {
      UnsInjective(r, a);
    }
  }

  /** `bignum_div`: the quotient of the two magnitudes, negated when exactly one operand is
      negative; the remainder `bignum_divrem` computes is discarded. */
  method Div(a: BigNum, b: BigNum) returns (c: BigNum)
    ensures c == Quotient(a, b)
  {
    var sign := (a.numAndSign < 0) != (b.numAndSign < 0);
    var absA := Abs(a);
    var absB := Abs(b);
    var rem;
    c, rem := DivRem(absA, absB);
    DivAtMost(Uns(absA), if Uns(absB) == 0 then 1 else Uns(absB));
    OfUnsUns(c);
    if sign {
      c := Neg(c);
    }
  }

  /** `memcpy(str + at, src, |src|)`. */
  method CopyInto(str: array<char>, at: nat, src: seq<char>)
    requires at + |src| <= str.Length
    modifies str
    ensures str[..] == old(str[..at]) + src + old(str[at + |src|..])
  {
    forall k | 0 <= k < |src| {
      str[at + k] := src[k];
    }
  }

  /** `memset(str, c, len)`. */
  method Fill(str: array<char>, len: nat, c: char)
    requires len <= str.Length
    modifies str
    ensures str[..] == Repeat(c, len) + old(str[..])[len..]
  {
    forall k | 0 <= k < len {
      str[k] := c;
    }
  }

  /** `memmove(str, str + from, size - from)`: the tail moves to the front; the bytes past
      the moved block keep their old contents. */
  method MoveToFront(str: array<char>, from: nat)
    requires from <= str.Length
    modifies str
    ensures str[..str.Length - from] == old(str[from..])
    ensures str[str.Length - from..] == old(str[str.Length - from..])
  {
    forall k | 0 <= k < str.Length - from {
      str[k] := str[k + from];
    }
  }

  /** The one input `bignum_to_dec` cannot take: a negative value whose digits fill every
      byte before the NUL, which leaves no room for the '-' (it would go to `str[-1]`). */
  ghost predicate ToDecFits(x: BigNum, size: nat)
  {
    !(x.numAndSign < 0 && size >= 10 && |Decimal(Uns(AbsOf(x)))| == Slots(size) == size - 1)
  }

  /** One pass of the group loop of `bignum_to_dec`: `divrem` by 10^9 yields the next group
      of nine digits in limb 0 of the remainder and leaves the rest of the magnitude. */
  lemma GroupStep(n: nat, t: nat, q0: BigNum, q: BigNum, rem: BigNum)
    requires q0.numAndSign >= 0 && Uns(q0) == DropDigits(n, 9 * t)
    requires Uns(q) == Uns(q0) / GROUP && Uns(rem) == Uns(q0) % GROUP
    ensures Pad(n, 9 + 9 * t) == Pad(rem.num[0], 9) + Pad(n, 9 * t)
    ensures q.numAndSign >= 0 && Uns(q) == DropDigits(n, 9 * t + 9)
  {
    Pow10Group();
    LowLimb(rem);
    ModOfSmall(Uns(rem), BASE);
    PadGroup(n, 9, 9 * t, rem.num[0]);
    DropMore(n, 9 * t, 9);
    DivAtMost(Uns(q0), GROUP);
  }

  /** Writing a group just before the groups already in place. */
  lemma SpliceGroup(i: nat, g: seq<char>, p: seq<char>, s: seq<char>, s2: seq<char>)
    requires i + 9 <= |s| && |g| == 9
    requires s[i + 9..] == p + ['\0']
    requires s2 == s[..i] + g + s[i + 9..]
    ensures s2[i..] == g + p + ['\0']
  {
    assert s2[i..] == g + s[i + 9..];
  }

  /** `bignum_to_dec(x, str, str.Length)`. */
  method ToDec(x: BigNum, str: array<char>)
    requires ToDecFits(x, str.Length)
    modifies str
    ensures str.Length == 0 ==> str[..] == old(str[..])
    ensures 0 < str.Length < 10 ==> str[..] == ['\0'] + old(str[1..])
    ensures str.Length >= 10 && Uns(AbsOf(x)) < Pow10(Slots(str.Length)) ==>
              |Rendered(x)| < str.Length && str[..|Rendered(x)| + 1] == Rendered(x) + ['\0']
    ensures str.Length >= 10 && Uns(AbsOf(x)) >= Pow10(Slots(str.Length)) ==>
              str[..] == Overflowed(Uns(AbsOf(x)), str.Length)
  {
    var size := str.Length;
    if size == 0 {
      return;
    }
    if size < 10 {
      str[0] := '\0';
      return;
    }
    var base := FromInt(1_000_000_000);
    var quo := Abs(x);
    ghost var n := Uns(quo);
    str[size - 1] := '\0';
    var i;
    ghost var t;
    i, quo, t := WriteGroups(str, base, quo);
    if i >= 0 {
      FitBound(n, t, size);
      TrimAndMove(x, str, i, n, 9 * t);
    } else {
      OverflowBound(n, t, size);
      MarkOverflow(str, i, n);
    }
  }

  /** Lines 53-60 of `bignum_to_dec`: from the end of the buffer backwards, write the
      magnitude's base-10^9 digits as groups of nine, until the quotient is zero (`i` is then
      where the last group starts) or the next group would start before the buffer (`i` is
      then negative). `t` counts the groups written. */
  method WriteGroups(str: array<char>, base: BigNum, quo0: BigNum) returns (i: int, quo: BigNum, ghost t: nat)
    requires str.Length >= 10 && str[str.Length - 1] == '\0'
    requires Val(base) == GROUP && quo0.numAndSign >= 0
    modifies str
    ensures t > 0
    ensures i >= 0 ==> i + 9 * t + 1 == str.Length && Uns(quo0) < Pow10(9 * t)
                       && str[i..] == Pad(Uns(quo0), 9 * t) + ['\0']
    ensures i < 0 ==> -9 <= i && i + 9 + 9 * t + 1 == str.Length && DropDigits(Uns(quo0), 9 * t) != 0
                      && str[i + 9..] == Pad(Uns(quo0), 9 * t) + ['\0']
  {
    var size := str.Length;
    ghost var n := Uns(quo0);
    quo := quo0;
    t := 0;
    i := size - 1 - 9;
    while i >= 0
      invariant -9 <= i == size - 10 - 9 * t
      invariant str[i + 9..] == Pad(n, 9 * t) + ['\0']
      invariant quo.numAndSign >= 0 && Uns(quo) == DropDigits(n, 9 * t)
      invariant t > 0 ==> Uns(quo) != 0
      decreases i + 9
    {
      quo := WriteGroup(str, i, base, quo, n, t);
      t := t + 1;
      var z := IsZero(quo);
      if z {
        ZeroUnique(quo);
        DropAll(n, 9 * t);
        break;
      }
      i := i - 9;
    }
  }

  /** One round of the loop of lines 54-59: divide by 10^9 and print the remainder as the nine
      digits in front of those already written. */
  method WriteGroup(str: array<char>, i: int, base: BigNum, q0: BigNum, ghost n: nat, ghost t: nat)
    returns (quo: BigNum)
    requires 0 <= i && i + 9 + 9 * t + 1 == str.Length && str[i + 9..] == Pad(n, 9 * t) + ['\0']
    requires Val(base) == GROUP && q0.numAndSign >= 0 && Uns(q0) == DropDigits(n, 9 * t)
    modifies str
    ensures str[i..] == Pad(n, 9 * t + 9) + ['\0']
    ensures quo.numAndSign >= 0 && Uns(quo) == DropDigits(n, 9 * t + 9)
  {
    var rem;
    ghost var s0 := str[..];
    quo, rem := DivRem(q0, base);
    GroupStep(n, t, q0, quo, rem);
    var digits := Pad(rem.num[0], 9);
    CopyInto(str, i, digits);
    SpliceGroup(i, digits, Pad(n, 9 * t), s0, str[..]);
  }

  /** Lines 61-66 of `bignum_to_dec`, reached when the quotient hit zero: skip the leading
      zeros of the groups (keeping the last digit), put '-' in front of a negative value and
      move the text, NUL included, to the start of the buffer. */
  method TrimAndMove(x: BigNum, str: array<char>, i0: int, ghost n: nat, ghost w: nat)
    requires n == Uns(AbsOf(x)) && ToDecFits(x, str.Length)
    requires 0 <= i0 && i0 + w + 1 == str.Length && 0 < w <= Slots(str.Length) && n < Pow10(w)
    requires str[i0..] == Pad(n, w) + ['\0']
    modifies str
    ensures |Rendered(x)| < str.Length && str[..|Rendered(x)| + 1] == Rendered(x) + ['\0']
  {
    var i := SkipZeros(str, i0, n, w);
    RoomForSign(x, n, w, str.Length);
    if x.numAndSign < 0 {
      i := i - 1;
      ghost var pre := str[..];
      str[i] := '-';
      SignInFront(pre, str[..], i, Decimal(n));
    }
    ghost var moved := str[..];
    MoveToFront(str, i);
    TextAtFront(moved, str[..], i, Rendered(x));
  }

  /** The loop of line 61: the first byte that is not a leading zero, or the last digit. */
  method SkipZeros(str: array<char>, i0: int, ghost n: nat, ghost w: nat) returns (i: int)
    requires 0 <= i0 && i0 + w + 1 == str.Length && 0 < w && n < Pow10(w)
    requires str[i0..] == Pad(n, w) + ['\0']
    ensures |Decimal(n)| <= w && i == str.Length - 1 - |Decimal(n)|
    ensures str[i..] == Decimal(n) + ['\0']
  {
    TrimFacts(str[..], i0, n, w);
    ghost var first := str.Length - 1 - |Decimal(n)|;
    i := i0;
    while str[i] == '0' && i < str.Length - 2
      invariant i0 <= i <= first
    {
      i := i + 1;
    }
  }

  /** Moving the text that starts at `from` to the front puts it, NUL included, at the front. */
  lemma TextAtFront(pre: seq<char>, s: seq<char>, from: nat, text: seq<char>)
    requires from <= |pre| == |s| && pre[from..] == text + ['\0']
    requires s[..|s| - from] == pre[from..]
    ensures |text| < |s| && s[..|text| + 1] == text + ['\0']
  {
  }

  /** A negative value leaves a byte for its '-' before the digits. */
  lemma RoomForSign(x: BigNum, n: nat, w: nat, size: nat)
    requires n == Uns(AbsOf(x)) && ToDecFits(x, size)
    requires size >= 10 && w + 1 <= size && w <= Slots(size) && |Decimal(n)| <= w
    ensures x.numAndSign < 0 ==> |Decimal(n)| < size - 1
    ensures Rendered(x) == (if x.numAndSign < 0 then "-" else "") + Decimal(n)
  {
  }

  /** What the trimming loop of `bignum_to_dec` finds in the groups `str[i..]`: zeros up to the
      numeral of `n`, whose first digit is '0' only when it is the single digit of 0. */
  lemma TrimFacts(s: seq<char>, i: nat, n: nat, w: nat)
    requires i + w + 1 == |s| && 0 < w && n < Pow10(w)
    requires s[i..] == Pad(n, w) + ['\0']
    ensures |Decimal(n)| <= w
    ensures s[|s| - 1 - |Decimal(n)|..] == Decimal(n) + ['\0']
    ensures forall k :: i <= k < |s| - 1 - |Decimal(n)| ==> s[k] == '0'
    ensures s[|s| - 1 - |Decimal(n)|] == '0' ==> |Decimal(n)| == 1
  {
    PadDecimal(n, w);
    DecimalLeading(n);
    var z := w - |Decimal(n)|;
    var t := Repeat('0', z) + (Decimal(n) + ['\0']);
    assert s[i..] == t;
    forall k | i <= k < |s| - 1 - |Decimal(n)|
      ensures s[k] == '0'
    {
      assert s[k] == t[k - i];
    }
    assert t[z..] == Decimal(n) + ['\0'];
    assert s[|s| - 1 - |Decimal(n)|..] == t[z..];
  }

  /** Writing '-' just before the digits puts it in front. */
  lemma SignInFront(pre: seq<char>, s: seq<char>, i: nat, digits: seq<char>)
    requires i < |pre| && pre[i + 1..] == digits + ['\0'] && s == pre[i := '-']
    ensures s[i..] == ("-" + digits) + ['\0']
  {
    assert s[i + 1..] == pre[i + 1..];
  }

  /** Lines 67-73 of `bignum_to_dec`, reached when the groups used up the buffer before the
      quotient hit zero: '.' over the bytes before the first group, or over the first nine
      bytes when the groups start at byte 0. */
  method MarkOverflow(str: array<char>, i0: int, ghost n: nat)
    requires str.Length >= 10 && i0 + 9 == str.Length - 1 - Slots(str.Length)
    requires str[i0 + 9..] == Pad(n, Slots(str.Length)) + ['\0']
    modifies str
    ensures str[..] == Overflowed(n, str.Length)
  {
    var i := i0 + 9;
    var len := if i > 0 then i else 9;
    Fill(str, len, '.');
    OverflowText(old(str[..]), str[..], str.Length, i, len, n);
  }

  /** The '.' fill of `bignum_to_dec` over the `d` bytes before the groups, or over nine bytes
      when `d` is zero, gives the buffer `Overflowed` describes. */
  lemma OverflowText(pre: seq<char>, s: seq<char>, size: nat, d: nat, len: nat, n: nat)
    requires size == |pre| >= 10 && d == size - 1 - Slots(size)
    requires pre[d..] == Pad(n, Slots(size)) + ['\0']
    requires len == (if d > 0 then d else 9) && s == Repeat('.', len) + pre[len..]
    ensures s == Overflowed(n, size)
  {
    PadSplit(n, d, Slots(size));
    assert pre[len..] == Pad(n, size - 1)[len..] + ['\0'];
  }

  /** When the groups written so far hold all of `n`, `n` fits in the buffer's slots. */
  lemma FitBound(n: nat, t: nat, size: nat)
    requires size >= 10 && 9 * t <= size - 1 && n < Pow10(9 * t)
    ensures 9 * t <= Slots(size) && n < Pow10(Slots(size))
  {
    Pow10Monotone(9 * t, Slots(size));
  }

  /** When the slots are used up and digits remain, `n` does not fit. */
  lemma OverflowBound(n: nat, t: nat, size: nat)
    requires size >= 10 && size - 1 - 9 < 9 * t <= size - 1 && DropDigits(n, 9 * t) != 0
    ensures 9 * t == Slots(size) && n >= Pow10(Slots(size))
  {
    DropAll(n, 9 * t);
  }
}
