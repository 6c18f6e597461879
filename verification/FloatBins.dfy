/**
  The allocator's size classes: floating point numbers with a 3-bit mantissa. Bins below 8 are exact
  sizes; bin 8 * exp + mantissa stands for (8 + mantissa) * 2^(exp - 1).
 */
module FloatBins {
  import opened Arithmetic
  import Words

  const MANTISSA_BITS := 3
  const MANTISSA_VALUE := 8
  const BINS_PER_LEAF := 8

  /** The index of the highest set bit: `bits - 1 - countl_zero(number)`. */
  function HighestBit(number: nat): (h: nat)
    requires number > 0
    ensures Pow2(h) <= number < Pow2(h + 1)
  {
    if number == 1 then 0 else 1 + HighestBit(number / 2)
  }

  lemma TopBitBrackets(w: Words.Word)
    requires !Words.IsZero(w)
    ensures Pow2(Words.TopBit(w)) <= Words.ToNat(w) < Pow2(Words.TopBit(w) + 1)
  {
    Words.ToNatBound(w, Words.TopBit(w) + 1);
    Words.ToNatAtLeast(w, Words.TopBit(w));
  }

  /** On a word, the highest set bit is that of its value. */
  lemma HighestBitOfWord(w: Words.Word)
    requires !Words.IsZero(w)
    ensures Words.ToNat(w) > 0 && HighestBit(Words.ToNat(w)) == Words.TopBit(w)
  {
    TopBitBrackets(w);
    var h, t := HighestBit(Words.ToNat(w)), Words.TopBit(w);
    if h < t {
      Pow2Monotone(h + 1, t);
    } else if t < h {
      Pow2Monotone(t + 1, h);
    }
  }

  /** `x >> k` */
  function ShiftRight(x: nat, k: nat): nat {
    if k == 0 then x else ShiftRight(x / 2, k - 1)
  }

  /** `x & ((1 << k) - 1)` */
  function LowPart(x: nat, k: nat): nat {
    if k == 0 then 0 else x % 2 + 2 * LowPart(x / 2, k - 1)
  }

  /** `x << k` */
  function Scale(x: nat, k: nat): nat {
    x * Pow2(k)
  }

  lemma {:induction false} ShiftSplits(x: nat, k: nat)
    ensures x == Scale(ShiftRight(x, k), k) + LowPart(x, k) && LowPart(x, k) < Pow2(k)
  {
    if k > 0 {
      ShiftSplits(x / 2, k - 1);
      var q := ShiftRight(x, k);
      assert q * Pow2(k) == 2 * (q * Pow2(k - 1));
    }
  }

  function CeilToFloat(size: nat): nat {
    if size < MANTISSA_VALUE then size
    else
      MantissaFits(size);
      var mantissaStartBit := HighestBit(size) - MANTISSA_BITS;
      var exp := mantissaStartBit + 1;
      var mantissa := ShiftRight(size, mantissaStartBit) % MANTISSA_VALUE;
      var roundUp := if LowPart(size, mantissaStartBit) != 0 then 1 else 0;
      exp * MANTISSA_VALUE + mantissa + roundUp
  }

  function FloorToFloat(size: nat): nat {
    if size < MANTISSA_VALUE then size
    else
      MantissaFits(size);
      var mantissaBegin := HighestBit(size) - MANTISSA_BITS;
      var exp := mantissaBegin + 1;
      var mantissa := ShiftRight(size, mantissaBegin) % MANTISSA_VALUE;
      exp * MANTISSA_VALUE + mantissa
  }

  function ToUint(floatValue: nat): nat {
    if floatValue < MANTISSA_VALUE then floatValue
    else
      var exp := floatValue / MANTISSA_VALUE;
      var mantissa := floatValue % MANTISSA_VALUE;
      Scale(mantissa + MANTISSA_VALUE, exp - 1)
  }

  lemma MantissaFits(size: nat)
    requires size >= MANTISSA_VALUE
    ensures HighestBit(size) >= MANTISSA_BITS
  {
    if HighestBit(size) < MANTISSA_BITS {
      Pow2Monotone(HighestBit(size) + 1, MANTISSA_BITS);
    }
  }

  lemma FloatParts(n: nat)
    requires n >= MANTISSA_VALUE
    ensures HighestBit(n) >= 3
    ensures
      var m := HighestBit(n) - 3;
      && FloorToFloat(n) == (m + 1) * 8 + ShiftRight(n, m) % 8
      && CeilToFloat(n) == FloorToFloat(n) + if LowPart(n, m) == 0 then 0 else 1
  {
    hide HighestBit, Pow2, ShiftRight, LowPart, ToUint;
    MantissaFits(n);
    var m := HighestBit(n) - 3;
    assert FloorToFloat(n) == (m + 1) * 8 + ShiftRight(n, m) % 8;
    assert CeilToFloat(n) == (m + 1) * 8 + ShiftRight(n, m) % 8 + (if LowPart(n, m) != 0 then 1 else 0);
  }

  /** A size of 8 or more is q units of 2^m plus a remainder, with q in [8, 16). */
  lemma Decompose(n: nat) returns (m: nat, q: nat, r: nat)
    requires n >= MANTISSA_VALUE
    ensures 8 <= q < 16 && r < Pow2(m) && n == q * Pow2(m) + r
    ensures FloorToFloat(n) == 8 * m + q
    ensures CeilToFloat(n) == 8 * m + q + if r == 0 then 0 else 1
    ensures HighestBit(n) == m + 3
  {
    hide *;
    FloatParts(n);
    m := HighestBit(n) - 3;
    EightFold(m);
    q, r := ShiftRight(n, m), LowPart(n, m);
    ShiftSplits(n, m);
    ScaleIs(q, m);
    QuotientBetween(n, Pow2(m), q, r);
  }

  lemma EightFold(m: nat)
    ensures Pow2(m + 3) == 8 * Pow2(m) && Pow2(m + 4) == 16 * Pow2(m)
  {
    assert Pow2(m + 1) == 2 * Pow2(m);
    assert Pow2(m + 2) == 2 * Pow2(m + 1);
    assert Pow2(m + 3) == 2 * Pow2(m + 2);
    assert Pow2(m + 4) == 2 * Pow2(m + 3);
  }

  lemma ScaleIs(x: nat, k: nat)
    ensures Scale(x, k) == x * Pow2(k)
  {
  }

  lemma QuotientBetween(n: nat, p: nat, q: nat, r: nat)
    requires 8 * p <= n < 16 * p && n == q * p + r && r < p
    ensures 8 <= q < 16
  {
    if q < 8 {
      MulBelow(q, 8, p);
    } else if q > 16 {
      MulBelow(16, q, p);
    }
  }

  lemma BinParts(m: nat, mantissa: nat)
    requires mantissa < 8
    ensures ToUint(8 * (m + 1) + mantissa) == Scale(mantissa + 8, m)
  {
    hide Scale;
    var b := 8 * (m + 1) + mantissa;
    assert b / 8 == m + 1 && b % 8 == mantissa;
  }

  /** The value of bin 8 * m + q; q = 16 is the mantissa round-up carried into the exponent. */
  lemma BinValue(m: nat, q: nat)
    requires 8 <= q <= 16
    ensures ToUint(8 * m + q) == q * Pow2(m)
  {
    hide ToUint, Scale;
    if q == 16 {
      BinParts(m + 1, 0);
      ScaleIs(8, m + 1);
      assert Pow2(m + 1) == 2 * Pow2(m);
    } else {
      BinParts(m, q - 8);
      ScaleIs(q, m);
    }
  }

  /** Rounding down: a size lies between its bin's value and the next bin's. */
  lemma FloorBrackets(n: nat)
    ensures ToUint(FloorToFloat(n)) <= n < ToUint(FloorToFloat(n) + 1)
  {
    if n >= MANTISSA_VALUE {
      var m, q, r := Decompose(n);
      BinValue(m, q);
      BinValue(m, q + 1);
      hide *;
      assert (q + 1) * Pow2(m) == q * Pow2(m) + Pow2(m);
    }
  }

  lemma BinsIncrease(b: nat)
    ensures ToUint(b) < ToUint(b + 1)
  {
    if b >= MANTISSA_VALUE {
      var m, q := b / 8 - 1, b % 8 + 8;
      assert b == 8 * m + q;
      BinValue(m, q);
      BinValue(m, q + 1);
      assert (q + 1) * Pow2(m) == q * Pow2(m) + Pow2(m);
    }
  }

  /** Bin values are strictly increasing. */
  lemma {:induction false} BinsMonotone(a: nat, b: nat)
    requires a < b
    ensures ToUint(a) < ToUint(b)
  {
    hide ToUint;
    BinsIncrease(b - 1);
    if a < b - 1 {
      BinsMonotone(a, b - 1);
    }
  }

  /** floor_to_float is the greatest bin whose value does not exceed the size. */
  lemma FloorIsGreatest(n: nat, b: nat)
    ensures ToUint(b) <= n <==> b <= FloorToFloat(n)
  {
    hide *;
    var f := FloorToFloat(n);
    FloorBrackets(n);
    if b < f {
      BinsMonotone(b, f);
    } else if f + 1 < b {
      BinsMonotone(f + 1, b);
    }
  }

  /** Rounding up: the bin's value covers the size, and the bin before it does not. */
  lemma CeilBrackets(n: nat)
    ensures n <= ToUint(CeilToFloat(n))
    ensures CeilToFloat(n) > 0 ==> ToUint(CeilToFloat(n) - 1) < n
  {
    if n >= MANTISSA_VALUE {
      var m, q, r := Decompose(n);
      BinValue(m, q);
      BinValue(m, q + 1);
      hide *;
      assert (q + 1) * Pow2(m) == q * Pow2(m) + Pow2(m);
      BinsIncrease(8 * m + q - 1);
    }
  }

  /** ceil_to_float is the least bin whose value covers the size. */
  lemma CeilIsLeast(n: nat, b: nat)
    ensures n <= ToUint(b) <==> CeilToFloat(n) <= b
  {
    hide *;
    var c := CeilToFloat(n);
    CeilBrackets(n);
    if c < b {
      BinsMonotone(c, b);
    } else if b < c - 1 {
      BinsMonotone(b, c - 1);
    }
  }

  /** Both conversions invert to_uint on every bin. */
  lemma BinsAreExact(b: nat)
    ensures FloorToFloat(ToUint(b)) == b && CeilToFloat(ToUint(b)) == b
  {
    hide *;
    var n := ToUint(b);
    FloorIsGreatest(n, b);
    FloorIsGreatest(n, FloorToFloat(n));
    if b < FloorToFloat(n) {
      BinsMonotone(b, FloorToFloat(n));
    }
    CeilIsLeast(n, b);
    CeilIsLeast(n, CeilToFloat(n));
    if CeilToFloat(n) < b {
      BinsMonotone(CeilToFloat(n), b);
    }
  }

  lemma ConversionsMonotone(a: nat, b: nat)
    requires a <= b
    ensures FloorToFloat(a) <= FloorToFloat(b) && CeilToFloat(a) <= CeilToFloat(b)
  {
    hide *;
    FloorIsGreatest(a, FloorToFloat(a));
    FloorIsGreatest(b, FloorToFloat(a));
    CeilIsLeast(b, CeilToFloat(b));
    CeilIsLeast(a, CeilToFloat(b));
  }

  /** Rounding down loses less than an eighth. */
  lemma FloorLoss(n: nat)
    requires n >= MANTISSA_VALUE
    ensures 8 * (n - ToUint(FloorToFloat(n))) < n
  {
    var m, q, r := Decompose(n);
    BinValue(m, q);
    MulBelow(7, q, Pow2(m));
  }

  /** Sizes of w bits use only the first 8 * (w - 1) bins, for either rounding. */
  lemma BinsInRange(n: nat, w: nat)
    requires n < Pow2(w) && w >= 4
    ensures FloorToFloat(n) < BINS_PER_LEAF * (w - 1) && CeilToFloat(n) < BINS_PER_LEAF * (w - 1)
  {
    if n >= MANTISSA_VALUE {
      var m, q, r := Decompose(n);
      if m + 3 >= w {
        Pow2Monotone(w, m + 3);
      }
    }
  }
}
