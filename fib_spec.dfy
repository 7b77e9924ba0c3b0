/** The Fibonacci numbers, the fast-doubling identities the driver's fast algorithms rely on,
    and where the numbers outgrow the driver's 64-bit and 256-bit types.

    The lemmas take their indices as separate `int` parameters tied together by `requires`
    (`m1 == m + 1`) rather than as terms such as `Fib(m + 1)`: callers then name each index
    as it appears in their own terms, and the verifier need not match index arithmetic. */
module FibSpec {
  import opened Arith
  import opened Limbs

  /** F(0) = 0, F(1) = 1, F(n) = F(n - 1) + F(n - 2). */
  function Fib(n: nat): nat
  {
    if n < 2 then n else Fib(n - 1) + Fib(n - 2)
  }

  /** F(k) = F(j) + F(i) for three consecutive indices. */
  lemma FibNext(i: int, j: int, k: int)
    requires 0 <= i && j == i + 1 && k == j + 1
    ensures Fib(k) == Fib(j) + Fib(i)
  {
  }

  /** The addition rule F(m + n + 1) = F(m + 1) F(n + 1) + F(m) F(n). */
  lemma {:induction false} FibAdd(m1: int, m: int, n1: int, n: int, s: int)
    requires 0 <= m && 0 <= n && m1 == m + 1 && n1 == n + 1 && s == m + n + 1
    ensures Fib(s) == Fib(m1) * Fib(n1) + Fib(m) * Fib(n)
  {
    if n >= 2 {
      FibAdd(m1, m, n, n - 1, s - 1);
      FibAdd(m1, m, n - 1, n - 2, s - 2);
      FibNext(n - 2, n - 1, n);
      FibNext(n - 1, n, n1);
      FibNext(s - 2, s - 1, s);
      AddRuleStep(Fib(m1), Fib(m), Fib(n - 2), Fib(n - 1), Fib(n), Fib(n1),
                  Fib(s - 2), Fib(s - 1), Fib(s));
    } else {
      BaseRuleStep(Fib(m1), Fib(m), Fib(n), Fib(n1), Fib(s));
    }
  }

  /** The inductive step of FibAdd, on the numbers involved. */
  lemma AddRuleStep(x: int, y: int, f0: int, f1: int, f2: int, f3: int, g1: int, g2: int, g3: int)
    requires f2 == f1 + f0 && f3 == f2 + f1 && g3 == g2 + g1
    requires g2 == x * f2 + y * f1 && g1 == x * f1 + y * f0
    ensures g3 == x * f3 + y * f2
  {
  }

  /** The base cases of FibAdd: F(1) = F(2) = 1 and F(0) = 0. */
  lemma BaseRuleStep(x: int, y: int, f2: int, f3: int, g: int)
    requires f3 == 1 && 0 <= f2 <= 1 && g == if f2 == 1 then x + y else x
    ensures g == x * f3 + y * f2
  {
  }

  /** The fast-doubling relation between F(m) = x, F(m + 1) = y, F(2m) = f and F(2m + 1) = g. */
  ghost predicate DoublingRule(x: int, y: int, f: int, g: int)
  {
    f == x * (2 * y - x) && g == y * y + x * x
  }

  /** Fast doubling: F(2m) = F(m) (2 F(m + 1) - F(m)) and F(2m + 1) = F(m + 1)^2 + F(m)^2. */
  lemma FibDouble(m: int, m1: int, d: int, d1: int)
    requires 0 <= m && m1 == m + 1 && d == 2 * m && d1 == d + 1
    ensures DoublingRule(Fib(m), Fib(m1), Fib(d), Fib(d1))
  {
    if m >= 1 {
      FibDoubleEven(m - 1, m, m1, d);
    } else {
      DoubleRuleStep(1, Fib(m), Fib(m1), Fib(d));
    }
    FibAdd(m1, m, m1, m, d1);
  }

  /** FibDouble on the numbers themselves, for callers that name them. */
  lemma FibDoubleValues(m: int, m1: int, d: int, d1: int, x: int, y: int, f: int, g: int)
    requires 0 <= m && m1 == m + 1 && d == 2 * m && d1 == d + 1
    requires x == Fib(m) && y == Fib(m1) && f == Fib(d) && g == Fib(d1)
    ensures DoublingRule(x, y, f, g)
  {
    FibDouble(m, m1, d, d1);
  }

  lemma FibDoubleEven(m0: int, m: int, m1: int, d: int)
    requires 0 <= m0 && m == m0 + 1 && m1 == m + 1 && d == 2 * m
    ensures Fib(d) == Fib(m) * (2 * Fib(m1) - Fib(m))
  {
    FibAdd(m, m0, m1, m, d);
    FibNext(m0, m, m1);
    DoubleRuleStep(Fib(m0), Fib(m), Fib(m1), Fib(d));
  }

  /** F(m - 1) = F(m + 1) - F(m) turns the addition rule into the doubling rule. */
  lemma DoubleRuleStep(x: int, y: int, z: int, g: int)
    requires z == y + x && g == y * z + x * y
    ensures g == y * (2 * z - y)
  {
  }

  lemma {:induction false} FibMonotone(i: int, j: int)
    requires 0 <= i <= j
    ensures Fib(i) <= Fib(j)
  {
    if i < j {
      FibMonotone(i, j - 1);
      if j >= 2 {
        FibNext(j - 2, j - 1, j);
      }
    }
  }

  // Concrete values, climbed by doubling steps. Every lemma from here on binds the indices it
  // passes on by `:|` rather than writing them as literals, so that the verifier does not try
  // to evaluate the calls by unfolding the recursion of Fib.

  /** F(5) and F(6), from F(1) = F(2) = 1 by two doubling steps. */
  lemma Fib5(n5: int, n6: int)
    requires n5 == 5 && n6 == 6
    ensures Fib(n5) == 5 && Fib(n6) == 8
  {
    var n1: int, n2: int, n3: int, n4: int :| n1 == 1 && n2 == 2 && n3 == 3 && n4 == 4;
    FibDouble(n1, n2, n2, n3);
    FibDouble(n2, n3, n4, n5);
    FibNext(n4, n5, n6);
  }

  /** F(11) and F(12): 11 = 2 * 5 + 1. */
  lemma Fib11(n11: int, n12: int)
    requires n11 == 11 && n12 == 12
    ensures Fib(n11) == 89 && Fib(n12) == 144
  {
    var n5: int, n6: int, n10: int :| n5 == 5 && n6 == 6 && n10 == 10;
    Fib5(n5, n6);
    FibDouble(n5, n6, n10, n11);
    FibNext(n10, n11, n12);
  }

  /** F(23) and F(24): 23 = 2 * 11 + 1. */
  lemma Fib23(n23: int, n24: int)
    requires n23 == 23 && n24 == 24
    ensures Fib(n23) == 28657 && Fib(n24) == 46368
  {
    var n11: int, n12: int, n22: int :| n11 == 11 && n12 == 12 && n22 == 22;
    Fib11(n11, n12);
    FibDouble(n11, n12, n22, n23);
    FibNext(n22, n23, n24);
  }

  /** F(46) and F(47): 46 = 2 * 23. */
  lemma Fib46(n46: int, n47: int)
    requires n46 == 46 && n47 == 47
    ensures Fib(n46) == 1836311903 && Fib(n47) == 2971215073
  {
    var n23: int, n24: int :| n23 == 23 && n24 == 24;
    Fib23(n23, n24);
    FibDouble(n23, n24, n46, n47);
  }

  /** F(92) and F(93), one doubling step above F(46) and F(47). */
  lemma Fib92(n92: int, n93: int)
    requires n92 == 92 && n93 == 93
    ensures Fib(n92) == 7540113804746346429 && Fib(n93) == 12200160415121876738
  {
    var n46: int, n47: int :| n46 == 46 && n47 == 47;
    Fib46(n46, n47);
    FibDouble(n46, n47, n92, n93);
  }

  /** F(184) and F(185), one doubling step above F(92) and F(93). */
  lemma Fib184(n184: int, n185: int)
    requires n184 == 184 && n185 == 185
    ensures Fib(n184) == 127127879743834334146972278486287885163
    ensures Fib(n185) == 205697230343233228174223751303346572685
  {
    var n92: int, n93: int :| n92 == 92 && n93 == 93;
    Fib92(n92, n93);
    FibDouble(n92, n93, n184, n185);
  }

  /** F(368) and F(369), one doubling step above F(184) and F(185). */
  lemma Fib368(n368: int, n369: int)
    requires n368 == 368 && n369 == 369
    ensures Fib(n368) == 36138207717265885328441519836863123286695915870773021050058862406562749608741
    ensures Fib(n369) == 58472848379039952684853851736901133239741266891456844557261755914039063645794
  {
    var n184: int, n185: int :| n184 == 184 && n185 == 185;
    Fib184(n184, n185);
    FibDouble(n184, n185, n368, n369);
  }

  /** F(92) is the last Fibonacci number a signed 64-bit integer holds... */
  lemma FibFitsInt64(n: int)
    requires 0 <= n <= 92
    ensures Fib(n) < 0x8000_0000_0000_0000
  {
    var n92: int, n93: int :| n92 == 92 && n93 == 93;
    Fib92(n92, n93);
    FibMonotone(n, n92);
  }

  /** ... and every later one overflows it. */
  lemma FibOverflowsInt64(n: int)
    requires n >= 93
    ensures Fib(n) >= 0x8000_0000_0000_0000
  {
    var n92: int, n93: int :| n92 == 92 && n93 == 93;
    Fib92(n92, n93);
    FibMonotone(n93, n);
  }

  /** F(368) is the last Fibonacci number a 256-bit bignum holds as a non-negative value... */
  lemma FibFitsBigNum(n: int)
    requires 0 <= n <= 368
    ensures Fib(n) < HALF
  {
    var n368: int, n369: int :| n368 == 368 && n369 == 369;
    Fib368(n368, n369);
    FibMonotone(n, n368);
  }

  /** ... F(369) still fits its 256-bit pattern read as unsigned... */
  lemma FibFitsPattern(n: int)
    requires 0 <= n <= 369
    ensures Fib(n) < MODULUS
  {
    var n368: int, n369: int :| n368 == 368 && n369 == 369;
    Fib368(n368, n369);
    FibMonotone(n, n369);
  }

  /** ... and from F(369) on the value no longer fits the signed reading. */
  lemma FibOverflowsBigNum(n: int)
    requires n >= 369
    ensures Fib(n) >= HALF
  {
    var n368: int, n369: int :| n368 == 368 && n369 == 369;
    Fib368(n368, n369);
    FibMonotone(n369, n);
  }

  /** Up to F(185), the numbers fast doubling squares and doubles stay below 2^255. */
  lemma FibSquareFits(n: int)
    requires 0 <= n <= 185
    ensures 2 * Fib(n) < HALF && Fib(n) * Fib(n) < HALF
  {
    var n184: int, n185: int :| n184 == 184 && n185 == 185;
    Fib184(n184, n185);
    FibMonotone(n, n185);
    var f, g := Fib(n), Fib(n185);
    assert g * g < HALF;
    MulLe(f, f, g);
    MulLe(g, f, g);
  }
}
