/** Doubles as bit patterns: sign, exponent and significand, the integer a double denotes, and the
    conversion to a 64-bit integer. */
module Doubles {
  import opened Osd

  const SIGN: nat := 0x8000_0000_0000_0000
  const INFINITY: f64 := 0x7FF0_0000_0000_0000
  const NAN: f64 := 0x7FF8_0000_0000_0000

  /** The leading bit that a normal double does not store. */
  const HIDDEN: nat := 0x10_0000_0000_0000

  /** The exponent field for which the significand is the value itself. */
  const UNIT: nat := 1075

  function Magnitude(bits: f64): (m: f64)
    ensures m < SIGN
  {
    bits % SIGN
  }

  predicate Negative(bits: f64) {
    bits >= SIGN
  }

  predicate Finite(bits: f64) {
    Magnitude(bits) < INFINITY
  }

  function Pow2(n: nat): (p: nat)
    ensures p > 0
  {
    if n == 0 then 1 else 2 * Pow2(n - 1)
  }

  function Exponent(bits: f64): nat {
    if Magnitude(bits) < HIDDEN then 1 else Magnitude(bits) / HIDDEN
  }

  function Significand(bits: f64): nat {
    if Magnitude(bits) < HIDDEN then Magnitude(bits) else Magnitude(bits) % HIDDEN + HIDDEN
  }

  function Quotient(a: nat, b: nat): nat
    requires b > 0
  {
    a / b
  }

  /** The significand m with exponent field e, without its fraction. */
  function WithoutFraction(m: nat, e: nat): nat {
    if e >= UNIT then m * Pow2(e - UNIT) else Quotient(m, Pow2(UNIT - e))
  }

  /** The magnitude of a finite double without its fraction. */
  function Whole(bits: f64): nat {
    WithoutFraction(Significand(bits), Exponent(bits))
  }

  /** The source's `as i64`: the fraction is cut off, what does not fit becomes the nearest bound, and
      what is not a number becomes zero. */
  function AsI64(bits: f64): int {
    if Magnitude(bits) > INFINITY then 0
    else if Magnitude(bits) == INFINITY || Whole(bits) >= SIGN then
      if Negative(bits) then -(SIGN as int) else SIGN - 1
    else if Negative(bits) then -(Whole(bits) as int)
    else Whole(bits)
  }

  function Abs(n: int): nat {
    if n < 0 then -n else n
  }

  /** The double's value is exactly n. */
  predicate Denotes(bits: f64, n: int) {
    var e := Exponent(bits);
    && Finite(bits) && (n < 0 ==> Negative(bits)) && (n > 0 ==> !Negative(bits))
    && if e >= UNIT then Significand(bits) * Pow2(e - UNIT) == Abs(n) else Significand(bits) == Abs(n) * Pow2(UNIT - e)
  }

  lemma DivideMultiple(x: nat, y: nat)
    requires y > 0
    ensures x * y / y == x
  {
    var q := x * y / y;
    assert 0 <= x * y - q * y < y;
    assert x * y - q * y == (x - q) * y;
    if x > q {
      Multiply(1, x - q, y);
    } else if x < q {
      Negated(q - x, y);
    }
  }

  lemma Negated(a: int, y: int)
    requires a >= 1 && y > 0
    ensures -a * y <= -y
  {
  }

  lemma Multiply(a: nat, b: nat, c: nat)
    requires a <= b
    ensures a * c <= b * c
  {
  }

  lemma WholeOfDenoted(bits: f64, n: int)
    requires Denotes(bits, n)
    ensures Whole(bits) == Abs(n)
  {
    var e := Exponent(bits);
    if e < UNIT {
      DivideMultiple(Abs(n), Pow2(UNIT - e));
    }
  }

  /** Converting a double that denotes an integer gives the integer, if it fits. */
  lemma DenotedIsRead(bits: f64, n: int)
    requires Denotes(bits, n) && -(SIGN as int) <= n < SIGN
    ensures AsI64(bits) == n
  {
    hide Denotes, Whole;
    WholeOfDenoted(bits, n);
    assert Finite(bits) && (n < 0 ==> Negative(bits)) && (n > 0 ==> !Negative(bits)) by { DenotedSign(bits, n); }
  }

  lemma DenotedSign(bits: f64, n: int)
    requires Denotes(bits, n)
    ensures Finite(bits) && (n < 0 ==> Negative(bits)) && (n > 0 ==> !Negative(bits))
  {
  }

  /** A double denotes at most one integer. */
  lemma DenotesOne(bits: f64, m: int, n: int)
    requires Denotes(bits, m) && Denotes(bits, n)
    ensures m == n
  {
    hide Denotes, Whole;
    WholeOfDenoted(bits, m);
    WholeOfDenoted(bits, n);
    DenotedSign(bits, m);
    DenotedSign(bits, n);
  }

  // ---------- Which integers a double can denote ----------

  lemma {:induction false} Pow2Add(a: nat, b: nat)
    ensures Pow2(a + b) == Pow2(a) * Pow2(b)
  {
    if a == 0 {
    } else {
      Pow2Add(a - 1, b);
      assert Pow2(a + b) == 2 * Pow2(a - 1 + b);
    }
  }

  /** How often m must be doubled to fill a significand. */
  function Shift(m: nat): nat
    requires 0 < m < 2 * HIDDEN
    decreases 2 * HIDDEN - m
  {
    if m >= HIDDEN then 0 else 1 + Shift(2 * m)
  }

  lemma {:induction false} ShiftFills(m: nat)
    requires 0 < m < 2 * HIDDEN
    ensures HIDDEN <= m * Pow2(Shift(m)) < 2 * HIDDEN
    decreases 2 * HIDDEN - m
  {
    if m >= HIDDEN {
      assert Pow2(0) == 1;
    } else {
      ShiftFills(2 * m);
      assert m * Pow2(Shift(m)) == 2 * m * Pow2(Shift(2 * m));
    }
  }

  lemma {:induction false} Pow2Large(n: nat)
    requires n >= 53
    ensures Pow2(n) >= 2 * HIDDEN
  {
    if n == 53 {
      assert Pow2(13) == 8192 && Pow2(14) == 16384;
      Pow2Add(13, 13);
      Pow2Add(13, 14);
      Pow2Add(26, 27);
    } else {
      Pow2Large(n - 1);
    }
  }

  lemma ShiftSmall(m: nat)
    requires 0 < m < 2 * HIDDEN
    ensures Shift(m) <= 52
  {
    ShiftFills(m);
    if Shift(m) > 52 {
      Pow2Large(Shift(m));
      Multiply(1, m, Pow2(Shift(m)));
    }
  }

  /** The bits of a normal double. */
  function Assembled(negative: bool, e: nat, m: nat): f64
    requires 0 < e < 2047 && HIDDEN <= m < 2 * HIDDEN
  {
    (if negative then SIGN else 0) + (e - 1) * HIDDEN + m
  }

  lemma AssembledFields(negative: bool, e: nat, m: nat)
    requires 0 < e < 2047 && HIDDEN <= m < 2 * HIDDEN
    ensures var bits := Assembled(negative, e, m);
            && Finite(bits) && (Negative(bits) <==> negative) && Exponent(bits) == e && Significand(bits) == m
  {
    var magnitude := (e - 1) * HIDDEN + m;
    assert magnitude == e * HIDDEN + (m - HIDDEN) < INFINITY;
    assert Magnitude(Assembled(negative, e, m)) == magnitude;
    assert magnitude / HIDDEN == e && magnitude % HIDDEN == m - HIDDEN;
  }

  /** The double of k times 2^j, for a k that fits a significand. */
  function Scaled(k: int, j: nat): f64
    requires Abs(k) < 2 * HIDDEN && j <= 900
  {
    if k == 0 then 0
    else
      ShiftSmall(Abs(k));
      ShiftFills(Abs(k));
      Assembled(k < 0, UNIT + j - Shift(Abs(k)), Abs(k) * Pow2(Shift(Abs(k))))
  }

  lemma ScaledDenotes(k: int, j: nat)
    requires Abs(k) < 2 * HIDDEN && j <= 900
    ensures Denotes(Scaled(k, j), k * Pow2(j))
  {
    hide Assembled, Finite, Negative, Shift, Pow2;
    if k == 0 {
      ZeroDenotes();
    } else {
      hide Exponent, Significand;
      var d := Shift(Abs(k));
      ShiftSmall(Abs(k));
      ShiftFills(Abs(k));
      AssembledFields(k < 0, UNIT + j - d, Abs(k) * Pow2(d));
      AbsTimes(k, Pow2(j));
      if d <= j {
        Pow2Add(d, j - d);
        Regroup(Abs(k), Pow2(d), Pow2(j - d));
      } else {
        Pow2Add(j, d - j);
        Regroup(Abs(k), Pow2(j), Pow2(d - j));
      }
    }
  }

  lemma ZeroDenotes()
    ensures Denotes(0, 0)
  {
  }

  lemma AbsTimes(k: int, p: nat)
    requires p > 0
    ensures Abs(k * p) == Abs(k) * p
    ensures (k * p < 0 <==> k < 0) && (k * p > 0 <==> k > 0)
  {
  }

  lemma Regroup(a: nat, b: nat, c: nat)
    ensures a * b * c == a * (b * c)
  {
  }

  // ---------- Cutting off the fraction ----------

  /** What is cut off is less than one. */
  lemma WholeTruncates(bits: f64)
    requires Exponent(bits) < UNIT
    ensures var one := Pow2(UNIT - Exponent(bits));
            Whole(bits) * one <= Significand(bits) < (Whole(bits) + 1) * one
  {
    hide Exponent, Significand, Pow2;
    QuotientTruncates(Significand(bits), Pow2(UNIT - Exponent(bits)));
  }

  lemma QuotientTruncates(a: nat, b: nat)
    requires b > 0
    ensures Quotient(a, b) * b <= a < (Quotient(a, b) + 1) * b
  {
    assert a == a / b * b + a % b;
  }

  /** The 64-bit integer is the one nearest to the whole part. */
  lemma AsI64IsNearest(bits: f64, x: int)
    requires Finite(bits) && -(SIGN as int) <= x < SIGN
    ensures var whole: int := if Negative(bits) then -(Whole(bits) as int) else Whole(bits);
            x != AsI64(bits) ==> Abs(AsI64(bits) - whole) < Abs(x - whole)
  {
    hide Whole;
  }

  /** One, one and a half, minus two and a half. */
  lemma KnownDoubles()
    ensures Denotes(0x3FF0_0000_0000_0000, 1)
    ensures AsI64(0x3FF8_0000_0000_0000) == 1 && AsI64(0xC004_0000_0000_0000) == -2
  {
    hide Exponent, Significand, Pow2, Quotient;
    KnownPowers();
    KnownFields();
    KnownQuotients();
  }

  lemma KnownPowers()
    ensures Pow2(52) == HIDDEN && Pow2(51) == HIDDEN / 2
  {
    assert Pow2(13) == 8192 && Pow2(12) == 4096;
    Pow2Add(13, 13);
    Pow2Add(12, 13);
    Pow2Add(26, 26);
    Pow2Add(25, 26);
  }

  lemma KnownQuotients()
    ensures Quotient(HIDDEN + HIDDEN / 2, HIDDEN) == 1 && Quotient(HIDDEN + HIDDEN / 4, HIDDEN / 2) == 2
  {
  }

  lemma KnownFields()
    ensures Exponent(0x3FF0_0000_0000_0000) == Exponent(0x3FF8_0000_0000_0000) == 1023
    ensures Significand(0x3FF0_0000_0000_0000) == HIDDEN && Significand(0x3FF8_0000_0000_0000) == HIDDEN + HIDDEN / 2
    ensures Exponent(0xC004_0000_0000_0000) == 1024 && Significand(0xC004_0000_0000_0000) == HIDDEN + HIDDEN / 4
  {
  }
}
