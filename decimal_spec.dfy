/** Decimal text as `bignum_to_dec` produces it: fixed-width zero-padded digit groups (the
    `"%09u"` format), the shortest decimal numeral of a natural number, and the reading of a
    digit string back as a number. */
module DecimalSpec {
  import opened Arith

  /** The base of the digit groups `bignum_to_dec` peels off. */
  const GROUP: nat := 1_000_000_000

  lemma Pow10Group()
    ensures Pow10(9) == GROUP
  {
    assert Pow10(1) == 10;
    Pow10Add(1, 1);
    Pow10Add(2, 2);
    Pow10Add(4, 4);
    Pow10Add(8, 1);
  }

  function Digit(d: nat): (c: char)
    requires d < 10
    ensures '0' <= c <= '9'
  {
    ('0' as int + d) as char
  }

  function DigitValue(c: char): (d: nat)
    requires '0' <= c <= '9'
    ensures d < 10 && Digit(d) == c
  {
    c as int - '0' as int
  }

  /** `k` copies of `c`, the effect of `memset`. */
  function Repeat(c: char, k: nat): (r: seq<char>)
    ensures |r| == k && forall j :: 0 <= j < k ==> r[j] == c
  {
    seq(k, _ => c)
  }

  /** The last `w` decimal digits of `v`, zero-padded: `"%0wu"` of `v` when `v < 10^w`. */
  function Pad(v: nat, w: nat): (r: seq<char>)
    ensures |r| == w
  {
    if w == 0 then [] else Pad(v / 10, w - 1) + [Digit(v % 10)]
  }

  /** The decimal numeral of `n`: no leading zeros, and "0" for zero. */
  ghost function Decimal(n: nat): (r: seq<char>)
    ensures |r| >= 1
  {
    if n < 10 then [Digit(n)] else Decimal(n / 10) + [Digit(n % 10)]
  }

  ghost predicate AllDigits(s: seq<char>)
  {
    forall j :: 0 <= j < |s| ==> '0' <= s[j] <= '9'
  }

  /** The number a string of decimal digits denotes, most significant digit first. */
  ghost function DigitsValue(s: seq<char>): nat
    requires AllDigits(s)
  {
    if s == [] then 0 else 10 * DigitsValue(s[..|s| - 1]) + DigitValue(s[|s| - 1])
  }

  /** Reading the numeral of `n` gives `n` back. */
  lemma {:induction false} DecimalRoundTrip(n: nat)
    ensures AllDigits(Decimal(n)) && DigitsValue(Decimal(n)) == n
  {
    var r := Decimal(n);
    if n >= 10 {
      DecimalRoundTrip(n / 10);
      assert r[..|r| - 1] == Decimal(n / 10);
    }
  }

  /** The numeral has no leading zero unless it is "0" itself. */
  lemma {:induction false} DecimalLeading(n: nat)
    ensures (Decimal(n)[0] == '0') <==> n == 0
    ensures n == 0 ==> Decimal(n) == "0"
  {
    if n >= 10 {
      DecimalLeading(n / 10);
    }
  }

  /** A numeral with `w` digits or fewer denotes a number below `10^w`, and conversely. */
  lemma {:induction false} DecimalLength(n: nat, w: nat)
    requires w > 0 || n > 0
    ensures |Decimal(n)| <= w <==> n < Pow10(w)
  {
    if n >= 10 {
      if w > 0 {
        DecimalLength(n / 10, w - 1);
        DivDiv(n, 10, Pow10(w - 1));
        QuotientBelow(n, 10, Pow10(w - 1));
      }
    } else if w > 0 {
      assert Pow10(1) == 10;
      Pow10Monotone(1, w);
    }
  }

  /** `x / m < k` exactly when `x < m * k`. */
  lemma QuotientBelow(x: nat, m: nat, k: nat)
    requires m > 0
    ensures x / m < k <==> x < k * m
  {
    var q := x / m;
    assert x == q * m + x % m;
    if q < k {
      MulLe(m, q + 1, k);
    } else {
      MulLe(m, k, q);
    }
  }

  /** Zero pads to zeros. */
  lemma {:induction false} PadZero(w: nat)
    ensures Pad(0, w) == Repeat('0', w)
  {
    if w > 0 {
      PadZero(w - 1);
    }
  }

  /** Only the last `w` digits of `v` matter. */
  lemma {:induction false} PadMod(v: nat, w: nat)
    ensures Pad(v, w) == Pad(v % Pow10(w), w)
  {
    if w > 0 {
      var u := v % Pow10(w);
      DivDiv(v, 10, Pow10(w - 1));
      assert u == v % 10 + 10 * ((v / 10) % Pow10(w - 1));
      DivModUnique(u, 10, (v / 10) % Pow10(w - 1), v % 10);
      PadMod(v / 10, w - 1);
    }
  }

  /** `v` with its last `b` decimal digits dropped. */
  function DropDigits(v: nat, b: nat): (r: nat)
    ensures r == v / Pow10(b)
  {
    DivAtMost(v, Pow10(b));
    v / Pow10(b)
  }

  /** The last `a + b` digits are the `a` digits above the last `b`, then the last `b`. */
  lemma {:induction false} PadSplit(v: nat, a: nat, b: nat)
    ensures Pad(v, a + b) == Pad(DropDigits(v, b), a) + Pad(v, b)
  {
    if b > 0 {
      PadSplit(v / 10, a, b - 1);
      DivDiv(v, 10, Pow10(b - 1));
    }
  }

  /** Below `10^w`, the padded digits are zeros followed by the numeral. */
  lemma {:induction false} PadDecimal(n: nat, w: nat)
    requires 0 < w && n < Pow10(w)
    ensures |Decimal(n)| <= w
    ensures Pad(n, w) == Repeat('0', w - |Decimal(n)|) + Decimal(n)
  {
    DecimalLength(n, w);
    if n < 10 {
      PadZero(w - 1);
    } else {
      DivDiv(n, 10, Pow10(w - 1));
      QuotientBelow(n, 10, Pow10(w - 1));
      PadDecimal(n / 10, w - 1);
    }
  }

  /** One more group of `w` digits above the last `a`: the group is the next base-10^w digit. */
  lemma PadGroup(n: nat, w: nat, a: nat, rem: nat)
    requires rem == DropDigits(n, a) % Pow10(w)
    ensures Pad(n, w + a) == Pad(rem, w) + Pad(n, a)
  {
    PadSplit(n, w, a);
    PadMod(DropDigits(n, a), w);
  }

  /** Dropping `a` digits and then `b` more drops `a + b`. */
  lemma DropMore(n: nat, a: nat, b: nat)
    ensures DropDigits(DropDigits(n, a), b) == DropDigits(n, a + b)
  {
    Pow10Add(a, b);
    DivDiv(n, Pow10(a), Pow10(b));
  }

  /** Nothing is left after dropping `a` digits exactly when `n` has at most `a` digits. */
  lemma DropAll(n: nat, a: nat)
    ensures DropDigits(n, a) == 0 <==> n < Pow10(a)
  {
    QuotientBelow(n, Pow10(a), 1);
  }

  lemma DecimalExample()
    ensures Decimal(0) == "0" && Decimal(123) == "123"
  {
  }
}
