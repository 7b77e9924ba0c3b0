/** Machine integers of the C source: fixed-width types as subsets of `int`, and the
    two's-complement conversions between them. Signed overflow, undefined in C, is modelled
    as wrap-around. */
module Machine {

  const BASE: nat := 0x1_0000_0000
  const UINT32_MAX: nat := 0xFFFF_FFFF
  const INT32_MIN: int := -0x8000_0000

  type uint32 = x: int | 0 <= x < 0x1_0000_0000
  type int32 = x: int | -0x8000_0000 <= x < 0x8000_0000
  type uint64 = x: int | 0 <= x < 0x1_0000_0000_0000_0000
  type int64 = x: int | -0x8000_0000_0000_0000 <= x < 0x8000_0000_0000_0000

  /** The bit pattern of a signed 32-bit word read as unsigned (`(uint32_t) s`). */
  function Bits32(s: int32): (r: uint32)
    ensures r == s % BASE
    ensures s >= 0 <==> r < 0x8000_0000
  {
    if s < 0 then s + BASE else s
  }

  /** The signed 32-bit word whose bit pattern is the low 32 bits of `x`: a conversion
      to `int32_t`, or a signed 32-bit operation that wraps. */
  function Wrap32(x: int): (r: int32)
    ensures Bits32(r) == x % BASE
  {
    var u := x % BASE;
    if u >= 0x8000_0000 then u - BASE else u
  }

  /** The two's-complement conversion to `int64_t`, or a wrapping 64-bit operation. */
  function Wrap64(x: int): (r: int64)
    ensures r % 0x1_0000_0000_0000_0000 == x % 0x1_0000_0000_0000_0000
    ensures -0x8000_0000_0000_0000 <= x < 0x8000_0000_0000_0000 ==> r == x
  {
    var u := x % 0x1_0000_0000_0000_0000;
    if u >= 0x8000_0000_0000_0000 then u - 0x1_0000_0000_0000_0000 else u
  }

  /** `~x` on an unsigned 32-bit word. */
  function Not32(x: uint32): (r: uint32)
    ensures x + r == UINT32_MAX
  {
    UINT32_MAX - x
  }

  /** `x ^ mask` where `mask` is all zeros or all ones, the only masks the source XORs with. */
  function XorMask(x: uint32, mask: uint32): (r: uint32)
    requires mask == 0 || mask == UINT32_MAX
    ensures mask == 0 ==> r == x
    ensures mask == UINT32_MAX ==> r == Not32(x)
  {
    if mask == 0 then x else UINT32_MAX - x
  }

  /** `s ^ mask` on a signed 32-bit word, for a mask of 0 or -1. */
  function XorMask32(s: int32, mask: int32): (r: int32)
    requires mask == 0 || mask == -1
    ensures mask == 0 ==> r == s
    ensures mask == -1 ==> Bits32(r) == Not32(Bits32(s))
  {
    if mask == 0 then s else -1 - s
  }
}

/** The representation of `struct bignum` (bignum.h:11-17): seven unsigned 32-bit limbs,
    least significant first, and a signed 32-bit top limb that carries the sign. Together
    they are a 256-bit two's-complement integer. */
module Limbs {
  import opened Arith
  import opened Machine

  /** BN_ARRAY_SIZE, the number of unsigned limbs. */
  const LIMBS: nat := 7
  /** 2^224, the weight of the signed top limb. */
  const TOP: nat := 0x1_0000_0000_0000_0000_0000_0000_0000_0000_0000_0000_0000_0000_0000_0000
  /** 2^255, the least bit pattern whose signed reading is negative. */
  const HALF: nat := 0x8000_0000_0000_0000_0000_0000_0000_0000_0000_0000_0000_0000_0000_0000_0000_0000
  /** 2^256, the modulus of all bignum arithmetic. */
  const MODULUS: nat := 0x1_0000_0000_0000_0000_0000_0000_0000_0000_0000_0000_0000_0000_0000_0000_0000_0000

  type LimbSeq = s: seq<uint32> | |s| == LIMBS witness [0, 0, 0, 0, 0, 0, 0]

  datatype BigNum = BigNum(num: LimbSeq, numAndSign: int32)

  /** The value `bignum_init` and `bignum_from_int(_, 0)` produce. */
  const Zero: BigNum := BigNum([0, 0, 0, 0, 0, 0, 0], 0)

  /** 2^(32 i), the weight of limb i. */
  function Weight(i: nat): (r: nat)
    ensures r >= 1
  {
    if i == 0 then 1 else BASE * Weight(i - 1)
  }

  lemma WeightValues()
    ensures Weight(1) == BASE && Weight(7) == TOP && Weight(8) == MODULUS
    ensures MODULUS == 2 * HALF && HALF == 0x8000_0000 * TOP && MODULUS == BASE * TOP
  {
    assert Weight(2) == 0x1_0000_0000_0000_0000;
    assert Weight(4) == 0x1_0000_0000_0000_0000_0000_0000_0000_0000;
    assert Weight(6) == 0x1_0000_0000_0000_0000_0000_0000_0000_0000_0000_0000_0000_0000;
  }

  lemma {:induction false} WeightAdd(i: nat, j: nat)
    ensures Weight(i + j) == Weight(i) * Weight(j)
  {
    if j > 0 {
      WeightAdd(i, j - 1);
      MulLeft(BASE, Weight(i), Weight(j - 1));
    }
  }

  /** The little-endian value of a sequence of 32-bit limbs. */
  function LimbsVal(s: seq<uint32>): nat
  {
    if s == [] then 0 else s[0] + BASE * LimbsVal(s[1..])
  }

  lemma LimbsValCons(x: uint32, s: seq<uint32>)
    ensures LimbsVal([x] + s) == x + BASE * LimbsVal(s)
  {
    assert ([x] + s)[1..] == s;
  }

  lemma LimbsValDrop(s: seq<uint32>, k: nat)
    requires k < |s|
    ensures LimbsVal(s[k..]) == s[k] + BASE * LimbsVal(s[k + 1..])
  {
    assert s[k..][1..] == s[k + 1..];
  }

  /** k limbs hold a value below 2^(32 k). */
  lemma {:induction false} LimbsValBound(s: seq<uint32>)
    ensures LimbsVal(s) < Weight(|s|)
  {
    if s != [] {
      LimbsValBound(s[1..]);
      assert Weight(|s|) == BASE * Weight(|s| - 1);
    }
  }

  lemma {:induction false} LimbsValAppend(s: seq<uint32>, t: seq<uint32>)
    ensures LimbsVal(s + t) == LimbsVal(s) + Weight(|s|) * LimbsVal(t)
  {
    if s == [] {
      assert s + t == t;
    } else {
      var a, w, v := LimbsVal(s[1..]), Weight(|s| - 1), LimbsVal(t);
      LimbsValAppend(s[1..], t);
      assert LimbsVal(s + t) == s[0] + BASE * LimbsVal(s[1..] + t) by {
        assert (s + t)[0] == s[0] && (s + t)[1..] == s[1..] + t;
      }
      assert Weight(|s|) == BASE * w;
      MulAddAssoc(BASE, a, w, v);
    }
  }

  lemma LimbsValSingle(x: uint32)
    ensures LimbsVal([x]) == x
  {
    assert [x][1..] == [];
  }

  /** Extending a prefix by one limb adds that limb at its weight. */
  lemma LimbsValPrefix(s: seq<uint32>, i: nat)
    requires i < |s|
    ensures LimbsVal(s[..i + 1]) == LimbsVal(s[..i]) + Weight(i) * s[i]
  {
    assert s[..i + 1] == s[..i] + [s[i]];
    LimbsValAppend(s[..i], [s[i]]);
    LimbsValSingle(s[i]);
  }

  lemma {:induction false} LimbsValInjective(s: seq<uint32>, t: seq<uint32>)
    requires |s| == |t| && LimbsVal(s) == LimbsVal(t)
    ensures s == t
  {
    if s != [] {
      LimbsValBound(s[1..]);
      DivModUnique(LimbsVal(s), BASE, LimbsVal(s[1..]), s[0]);
      DivModUnique(LimbsVal(t), BASE, LimbsVal(t[1..]), t[0]);
      LimbsValInjective(s[1..], t[1..]);
    }
  }

  /** Every limb complemented (`~`). */
  function Complement(s: seq<uint32>): (r: seq<uint32>)
    ensures |r| == |s| && forall j :: 0 <= j < |s| ==> r[j] == Not32(s[j])
  {
    if s == [] then [] else [Not32(s[0])] + Complement(s[1..])
  }

  /** Complementing k limbs maps n to 2^(32 k) - 1 - n. */
  lemma {:induction false} LimbsValComplement(s: seq<uint32>)
    ensures LimbsVal(Complement(s)) == Weight(|s|) - 1 - LimbsVal(s)
  {
    if s != [] {
      var c := Complement(s);
      assert c[1..] == Complement(s[1..]);
      LimbsValComplement(s[1..]);
      assert Weight(|s|) == BASE * Weight(|s| - 1);
    }
  }

  /** Replacing the lowest limb changes the value by the difference of the limbs. */
  lemma LimbsValUpdateLow(s: seq<uint32>, x: uint32)
    requires s != []
    ensures LimbsVal(s[0 := x]) == LimbsVal(s) - s[0] + x
  {
    assert s[0 := x][1..] == s[1..];
  }

  function Zeros(k: nat): (r: seq<uint32>)
    ensures |r| == k && LimbsVal(r) == 0
    ensures forall i :: 0 <= i < k ==> r[i] == 0
  {
    if k == 0 then [] else [0] + Zeros(k - 1)
  }

  /** All eight limbs of a bignum as unsigned words, the top limb's bit pattern last. */
  function Pattern(x: BigNum): (r: seq<uint32>)
    ensures |r| == LIMBS + 1 && r[..LIMBS] == x.num && r[LIMBS] == Bits32(x.numAndSign)
  {
    x.num + [Bits32(x.numAndSign)]
  }

  /** The bignum's 256 bits read as an unsigned integer. */
  function Uns(x: BigNum): (r: nat)
    ensures r < MODULUS
    ensures x.numAndSign < 0 <==> r >= HALF
  {
    LimbsValBound(x.num);
    WeightValues();
    LimbsVal(x.num) + TOP * Bits32(x.numAndSign)
  }

  /** The unsigned reading is the value of all eight limbs. */
  lemma UnsSplit(x: BigNum)
    ensures Uns(x) == LimbsVal(Pattern(x))
  {
    LimbsValAppend(x.num, [Bits32(x.numAndSign)]);
    LimbsValSingle(Bits32(x.numAndSign));
    WeightValues();
  }

  /** The bignum's 256 bits read as a two's-complement signed integer. */
  function Val(x: BigNum): (r: int)
    ensures -(HALF as int) <= r < HALF
    ensures r == if x.numAndSign < 0 then Uns(x) - MODULUS else Uns(x)
    ensures r < 0 <==> x.numAndSign < 0
  {
    LimbsValBound(x.num);
    WeightValues();
    LimbsVal(x.num) + TOP * x.numAndSign
  }

  /** The low `k` limbs of `n`. */
  function ToLimbs(n: nat, k: nat): (r: seq<uint32>)
    ensures |r| == k && LimbsVal(r) == n % Weight(k)
  {
    if k == 0 then []
    else
      var rest := ToLimbs(n / BASE, k - 1);
      DivDiv(n, BASE, Weight(k - 1));
      assert ([n % BASE] + rest)[1..] == rest;
      [n % BASE] + rest
  }

  /** Every 256-bit unsigned number is the reading of some bignum. */
  lemma OfUnsExists(n: nat)
    requires n < MODULUS
    ensures exists r: BigNum :: Uns(r) == n
  {
    WeightValues();
    ModOfSmall(n, MODULUS);
    var s := ToLimbs(n, LIMBS + 1);
    assert s == s[..LIMBS] + [s[LIMBS]];
    LimbsValAppend(s[..LIMBS], [s[LIMBS]]);
    LimbsValSingle(s[LIMBS]);
    var r := BigNum(s[..LIMBS], Wrap32(s[LIMBS]));
    ModOfSmall(s[LIMBS], BASE);
    assert Uns(r) == n;
  }

  /** The bignum whose unsigned reading is `n`. */
  ghost function OfUns(n: nat): (r: BigNum)
    requires n < MODULUS
    ensures Uns(r) == n
  {
    OfUnsExists(n);
    var r :| Uns(r) == n;
    r
  }

  /** The bit pattern determines the bignum: distinct bignums have distinct values. */
  lemma UnsInjective(x: BigNum, y: BigNum)
    requires Uns(x) == Uns(y)
    ensures x == y
  {
    UnsSplit(x);
    UnsSplit(y);
    LimbsValInjective(Pattern(x), Pattern(y));
    assert x.num == Pattern(x)[..LIMBS];
    assert y.num == Pattern(y)[..LIMBS];
  }

  lemma OfUnsUns(x: BigNum)
    ensures OfUns(Uns(x)) == x
  {
    UnsInjective(OfUns(Uns(x)), x);
  }

  /** The bignum whose value is `v` modulo 2^256 (a wrapping conversion). */
  ghost function OfVal(v: int): (r: BigNum)
    ensures Uns(r) == v % MODULUS
    ensures -(HALF as int) <= v < HALF ==> Val(r) == v
  {
    OfUns(v % MODULUS)
  }

  /** Zero is the only all-zero bit pattern and the only bignum of value 0. */
  lemma ZeroUnique(x: BigNum)
    ensures Uns(x) == 0 <==> x == Zero
    ensures Val(x) == 0 <==> x == Zero
  {
    assert Uns(Zero) == 0 by {
      assert Zero.num == Zeros(LIMBS);
    }
    if Uns(x) == 0 {
      UnsInjective(x, Zero);
    }
  }
}
