/**
  Conversion between binary32 and binary64 patterns (IEEE 754-2008, section
  3.4) by integer arithmetic: rounding to nearest, ties away from zero, in
  pb_decode_double_as_float; exact widening in pb_encode_float_as_double.
  Magnitudes are whole numbers of the least denormal double, 2 to the -1074.
 */
module FloatConversion {
  import opened Wire
  import InputStream
  import OutputStream

  /** n times 2 to the power k. */
  function Scaled(n: nat, k: nat): nat {
    if k == 0 then n else 2 * Scaled(n, k - 1)
  }

  lemma {:induction false} ScaledSum(a: nat, b: nat, k: nat)
    ensures Scaled(a + b, k) == Scaled(a, k) + Scaled(b, k)
  {
    if k == 0 {
    } else {
      ScaledSum(a, b, k - 1);
    }
  }

  lemma {:induction false} ScaledTwice(n: nat, j: nat, k: nat)
    ensures Scaled(Scaled(n, j), k) == Scaled(n, j + k)
  {
    if k == 0 {
    } else {
      ScaledTwice(n, j, k - 1);
    }
  }

  lemma {:induction false} ScaledGrows(a: nat, b: nat, k: nat)
    ensures a <= b ==> Scaled(a, k) <= Scaled(b, k)
    ensures a < b ==> Scaled(a, k) < Scaled(b, k)
  {
    if k == 0 {
    } else {
      ScaledGrows(a, b, k - 1);
    }
  }

  lemma {:induction false} ScaledFurther(n: nat, j: nat, k: nat)
    requires j <= k
    ensures Scaled(n, j) <= Scaled(n, k)
  {
    if j >= k {
    } else {
      ScaledFurther(n, j, k - 1);
    }
  }

  lemma ScaledDouble(n: nat, k: nat)
    ensures Scaled(2 * n, k) == Scaled(n, k + 1) == 2 * Scaled(n, k)
  {
    ScaledTwice(n, 1, k);
    assert Scaled(n, 1) == 2 * n;
  }

  const M23: nat := 0x80_0000
  const M24: nat := 0x100_0000
  const M28: nat := 0x1000_0000
  const M29: nat := 0x2000_0000
  const M52: nat := 0x10_0000_0000_0000

  lemma ByNine(n: nat)
    ensures Scaled(n, 9) == 0x200 * n
  {
    assert Scaled(n, 1) == 2 * n;
    assert Scaled(n, 2) == 4 * n;
    assert Scaled(n, 4) == 16 * n;
    assert Scaled(n, 6) == 64 * n;
    assert Scaled(n, 8) == 256 * n;
  }

  lemma ByEighteen(n: nat)
    ensures Scaled(n, 18) == 0x4_0000 * n
  {
    ByNine(n);
    ByNine(0x200 * n);
    ScaledTwice(n, 9, 9);
  }

  lemma ByConstants(n: nat)
    ensures Scaled(n, 28) == M28 * n && Scaled(n, 29) == M29 * n
  {
    ByEighteen(n);
    ByNine(0x4_0000 * n);
    ScaledTwice(n, 18, 9);
    assert Scaled(n, 27) == 0x800_0000 * n;
  }

  /** 2 to the power 23, and to the power 53. */
  lemma Powers()
    ensures Scaled(1, 23) == M23 && Scaled(1, 53) == 2 * M52
  {
    ByEighteen(1);
    assert Scaled(1, 20) == 0x10_0000;
    assert Scaled(1, 22) == 0x40_0000;
    assert Scaled(1, 24) == M24;
    ByConstants(M24);
    ScaledTwice(1, 24, 29);
  }

  // ----- what the patterns stand for -----

  /** The fields of a binary64 pattern. */
  function Sign64(v: nat): nat { v / TWO63 }
  function Exp64(v: nat): nat { v / M52 % 0x800 }
  function Frac64(v: nat): nat { v % M52 }

  /** The fields of a binary32 pattern. */
  function Sign32(f: nat): nat { f / TWO31 }
  function Exp32(f: nat): nat { f / M23 % 0x100 }
  function Frac32(f: nat): nat { f % M23 }

  predicate IsNan64(v: nat) { Exp64(v) == 0x7FF && Frac64(v) != 0 }
  predicate IsNan32(f: nat) { Exp32(f) == 0xFF && Frac32(f) != 0 }

  /** The magnitude of a double with these fields, infinity counted as 2 to the 1024. */
  function Value64(e: nat, frac: nat): nat {
    if e == 0 then frac else Scaled(M52 + frac, e - 1)
  }

  function Mag64(v: nat): nat {
    Value64(Exp64(v), Frac64(v))
  }

  /** The magnitude of the float with these 31 bits, infinity counted as 2 to the 128. */
  function Mag32(bits: nat): nat {
    if bits / M23 == 0 then Scaled(bits, 925) else Scaled(M23 + bits % M23, bits / M23 + 924)
  }

  /** The 31 bits of positive infinity; the floats that are not NaN are those up to it. */
  const INF32: nat := 0x7F80_0000

  // ----- floats are ordered like their bits -----

  /** In the range of one exponent the magnitude is linear in the bits, up to the next exponent. */
  lemma Linear32(e: nat, q: nat)
    requires q <= M23
    ensures e > 0 ==> Mag32(e * M23 + q) == Scaled(M23 + q, e + 924)
    ensures e == 0 ==> Mag32(q) == Scaled(q, 925)
  {
    if q == M23 {
      assert (e * M23 + q) / M23 == e + 1 && (e * M23 + q) % M23 == 0;
      ScaledDouble(M23, e + 924);
    } else {
      assert (e * M23 + q) / M23 == e && (e * M23 + q) % M23 == q;
    }
  }

  lemma NextExponent(e: nat)
    requires e > 0
    ensures Mag32((e + 1) * M23) + Scaled(1, e + 924) <= Mag32((e + 1) * M23 + 1)
  {
    Linear32(e + 1, 0);
    Linear32(e + 1, 1);
    ScaledSum(M23, 1, e + 925);
    ScaledDouble(1, e + 924);
  }

  /** The next float is at least one unit of the last place away. */
  lemma NextFloat(e: nat, q: nat)
    requires q <= M23
    ensures e > 0 ==> Mag32(e * M23 + q) + Scaled(1, e + 924) <= Mag32(e * M23 + q + 1)
    ensures e == 0 ==> Mag32(q) + Scaled(1, 925) <= Mag32(q + 1)
  {
    if q < M23 {
      Linear32(e, q);
      Linear32(e, q + 1);
      if e > 0 { ScaledSum(M23 + q, 1, e + 924); } else { ScaledSum(q, 1, 925); }
    } else if e > 0 {
      NextExponent(e);
      assert (e + 1) * M23 == e * M23 + q;
    } else {
      Linear32(1, 0);
      Linear32(1, 1);
      ScaledSum(M23, 1, 925);
    }
  }

  lemma {:induction false} ScaledPositive(k: nat)
    ensures Scaled(1, k) > 0
  {
    if k == 0 {
    } else {
      ScaledPositive(k - 1);
    }
  }

  lemma {:induction false} Monotone32(a: nat, b: nat)
    requires a < b
    ensures Mag32(a) < Mag32(b)
    decreases b - a
  {
    var e, q := (b - 1) / M23, (b - 1) % M23;
    assert b - 1 == e * M23 + q;
    NextFloat(e, q);
    ScaledPositive(if e > 0 then e + 924 else 925);
    if a >= b - 1 {
    } else {
      Monotone32(a, b - 1);
    }
  }

  // ----- rounding -----

  function Distance(a: int, b: int): nat {
    if a < b then b - a else a - b
  }

  /** No float is nearer to x than r, and one that is as near is nearer to zero. */
  ghost predicate Nearest(x: nat, r: nat) {
    && r <= INF32
    && forall p: nat :: p <= INF32 && p != r ==>
         && Distance(Mag32(r), x) <= Distance(Mag32(p), x)
         && (Distance(Mag32(r), x) == Distance(Mag32(p), x) ==> Mag32(p) < Mag32(r))
  }

  /** x is not below the midpoint under r, and below the midpoint above it. */
  ghost predicate Between(x: nat, r: nat) {
    && r <= INF32
    && (r > 0 ==> Mag32(r - 1) + Mag32(r) <= 2 * x)
    && (r < INF32 ==> 2 * x < Mag32(r) + Mag32(r + 1))
  }

  lemma BetweenIsNearest(x: nat, r: nat)
    requires Between(x, r)
    ensures Nearest(x, r)
  {
    forall p: nat | p <= INF32 && p != r
      ensures Distance(Mag32(r), x) <= Distance(Mag32(p), x)
      ensures Distance(Mag32(r), x) == Distance(Mag32(p), x) ==> Mag32(p) < Mag32(r)
    {
      if p < r {
        Monotone32(p, r);
        if p < r - 1 { Monotone32(p, r - 1); }
        Monotone32(r - 1, r);
      } else {
        Monotone32(r, p);
        Monotone32(r, r + 1);
        if r + 1 < p { Monotone32(r + 1, p); }
      }
    }
  }

  /** A magnitude that is a float is its own nearest float. */
  lemma ExactIsNearest(x: nat, r: nat, p: nat)
    requires Nearest(x, r) && p <= INF32 && Mag32(p) == x
    ensures r == p
  {
    if p < r { Monotone32(p, r); }
    if r < p { Monotone32(r, p); }
  }

  /** A number from infinity on is rounded to infinity. */
  lemma LargestIsInfinity(x: nat, r: nat)
    requires Nearest(x, r) && Mag32(INF32) <= x
    ensures r == INF32
  {
    if r < INF32 { Monotone32(r, INF32); }
  }

  function ShiftRight(n: nat, k: nat): (q: nat)
    ensures Scaled(q, k) <= n < Scaled(q + 1, k)
    decreases k
  {
    if k == 0 then n
    else
      var q := ShiftRight(n / 2, k - 1);
      q
  }

  /** The 31 bits that the fields of a double round to, for a finite exponent. */
  function RoundedBits(exponent: int, mantissa: nat): nat
    requires -1023 <= exponent
  {
    if exponent > 127 then INF32
    else if exponent < -150 then 0
    else if exponent < -126 then (ShiftRight(mantissa + M24, -126 - exponent) + 1) / 2
    else (exponent + 127) * M23 + (mantissa + 1) / 2
  }

  /** x is within half of 2 to the k+1 of n times 2 to the k+1, the upper end excluded. */
  ghost predicate Within(x: nat, n: nat, k: nat) {
    (n > 0 ==> Scaled(2 * n - 1, k) <= x) && x < Scaled(2 * n + 1, k)
  }

  /** Dropping all but one of the low bits and then rounding half up rounds half up. */
  lemma HalfUp(n: nat, k: nat, t: nat)
    requires Scaled(t, k) <= n < Scaled(t + 1, k)
    ensures Within(n, (t + 1) / 2, k)
  {
    var q := (t + 1) / 2;
    if q > 0 { ScaledGrows(2 * q - 1, t, k); }
    ScaledGrows(t + 1, 2 * q + 1, k);
  }

  lemma WithinScaled(x: nat, n: nat, k: nat, j: nat)
    requires Within(x, n, k)
    ensures Within(Scaled(x, j), n, k + j)
  {
    if n > 0 {
      ScaledGrows(Scaled(2 * n - 1, k), x, j);
      ScaledTwice(2 * n - 1, k, j);
    }
    ScaledGrows(x, Scaled(2 * n + 1, k), j);
    ScaledTwice(2 * n + 1, k, j);
  }

  /** Twice x against sums of neighbouring multiples of the unit. */
  lemma WithinMidpoints(x: nat, n: nat, k: nat)
    requires Within(x, n, k)
    ensures n > 0 ==> 2 * Scaled(n, k + 1) <= 2 * x + Scaled(1, k + 1)
    ensures 2 * x < 2 * Scaled(n, k + 1) + Scaled(1, k + 1)
  {
    ScaledDouble(n, k);
    ScaledSum(2 * n, 1, k);
    ScaledDouble(1, k);
    if n > 0 { ScaledSum(2 * n - 1, 1, k); }
  }

  lemma DenormalWithin(x: nat, q: nat)
    requires q <= M23 && Within(x, q, 924)
    ensures Between(x, q)
  {
    WithinMidpoints(x, q, 924);
    Linear32(0, q);
    NextFloat(0, q);
    if q > 0 { NextFloat(0, q - 1); }
  }

  lemma NormalWithin(x: nat, e: nat, q: nat)
    requires 0 < e <= 254 && q <= M23 && Within(x, M23 + q, e + 923) && Scaled(M23, e + 924) <= x
    ensures Between(x, e * M23 + q)
  {
    WithinMidpoints(x, M23 + q, e + 923);
    Linear32(e, q);
    NextFloat(e, q);
    if q > 0 {
      NextFloat(e, q - 1);
      assert e * M23 + (q - 1) == e * M23 + q - 1;
    } else {
      Monotone32(e * M23 - 1, e * M23);
    }
  }

  lemma HighBits(n: nat)
    ensures Scaled(n / M28, 28) <= n < Scaled(n / M28 + 1, 28)
  {
    ByConstants(n / M28);
    ByConstants(n / M28 + 1);
  }

  lemma TwoShifts(n: nat, s: nat)
    ensures Scaled(ShiftRight(n / M28, s), s + 28) <= n < Scaled(ShiftRight(n / M28, s) + 1, s + 28)
  {
    var h := n / M28;
    var t := ShiftRight(h, s);
    HighBits(n);
    ScaledTwice(t, s, 28);
    ScaledTwice(t + 1, s, 28);
    ScaledGrows(Scaled(t, s), h, 28);
    ScaledGrows(h + 1, Scaled(t + 1, s), 28);
  }

  lemma ShiftedOnce(a: nat, s: nat)
    requires a < 2 * M24 && s >= 1
    ensures ShiftRight(a, s) < M24
  {
    ScaledFurther(ShiftRight(a, s), 1, s);
    assert Scaled(ShiftRight(a, s), 1) == 2 * ShiftRight(a, s);
  }

  lemma HiddenBit(f: nat)
    requires f < M52
    ensures (M52 + f) / M28 == f / M28 + M24 < 2 * M24
  {
  }

  /** The significand of a double, shifted right by s more than 28 places and rounded. */
  lemma ShiftedSignificand(frac: nat, s: nat)
    requires frac < M52 && s >= 1
    ensures Within(M52 + frac, (ShiftRight(frac / M28 + M24, s) + 1) / 2, s + 28)
    ensures (ShiftRight(frac / M28 + M24, s) + 1) / 2 <= M23
  {
    HiddenBit(frac);
    TwoShifts(M52 + frac, s);
    HalfUp(M52 + frac, s + 28, ShiftRight(frac / M28 + M24, s));
    ShiftedOnce(frac / M28 + M24, s);
  }

  lemma DenormalRounds(e: nat, frac: nat)
    requires 873 <= e <= 896 && frac < M52
    ensures Between(Value64(e, frac), RoundedBits(e - 1023, frac / M28))
  {
    var s := 897 - e;
    var q := (ShiftRight(frac / M28 + M24, s) + 1) / 2;
    ShiftedSignificand(frac, s);
    WithinScaled(M52 + frac, q, s + 28, e - 1);
    DenormalWithin(Scaled(M52 + frac, e - 1), q);
  }

  /** The significand of a double, rounded to 24 bits. */
  lemma RoundedSignificand(frac: nat)
    requires frac < M52
    ensures Within(M52 + frac, M23 + (frac / M28 + 1) / 2, 28) && (frac / M28 + 1) / 2 <= M23
  {
    HiddenBit(frac);
    HighBits(M52 + frac);
    HalfUp(M52 + frac, 28, (M52 + frac) / M28);
  }

  lemma AtLeastOne(e: nat, n: nat)
    requires n >= M52
    ensures Scaled(M23, 29 + e) <= Scaled(n, e)
  {
    ByConstants(M23);
    ScaledTwice(M23, 29, e);
    ScaledGrows(M52, n, e);
  }

  lemma NormalRounds(e: nat, frac: nat)
    requires 897 <= e <= 1150 && frac < M52
    ensures Between(Value64(e, frac), RoundedBits(e - 1023, frac / M28))
  {
    var n, q := M52 + frac, (frac / M28 + 1) / 2;
    RoundedSignificand(frac);
    WithinScaled(n, M23 + q, 28, e - 1);
    AtLeastOne(e - 1, n);
    NormalWithin(Scaled(n, e - 1), e - 896, q);
  }

  /** Infinity as a float is no more than any double with a large exponent. */
  lemma HugeDouble(e: nat, frac: nat)
    requires e >= 1151
    ensures Mag32(INF32) <= Value64(e, frac)
  {
    Linear32(255, 0);
    ByConstants(M23);
    ScaledTwice(M23, 29, 1150);
    ScaledFurther(M52, 1150, e - 1);
    ScaledGrows(M52, M52 + frac, e - 1);
  }

  lemma HugeRounds(e: nat, frac: nat)
    requires e >= 1151
    ensures Between(Value64(e, frac), INF32)
  {
    HugeDouble(e, frac);
    Monotone32(INF32 - 1, INF32);
  }

  lemma SmallDouble(e: nat, frac: nat)
    requires frac < M52
    ensures Value64(e, frac) < Scaled(1, e + 53)
  {
    Powers();
    if e == 0 {
      ScaledFurther(1, 53, e + 53);
    } else {
      ScaledGrows(M52 + frac, 2 * M52, e - 1);
      ScaledTwice(1, 53, e - 1);
      ScaledFurther(1, e + 52, e + 53);
    }
  }

  lemma TinyRounds(e: nat, frac: nat)
    requires e <= 872 && frac < M52
    ensures Between(Value64(e, frac), 0)
  {
    if e == 872 { TightDouble(frac); } else { SmallDouble(e, frac); ScaledFurther(1, e + 53, 924); }
    NextFloat(0, 0);
    ScaledDouble(1, 924);
    Linear32(0, 0);
    ScaledZero(925);
  }

  lemma TightDouble(frac: nat)
    requires frac < M52
    ensures Value64(872, frac) < Scaled(1, 924)
  {
    Powers();
    ScaledGrows(M52 + frac, 2 * M52, 871);
    ScaledTwice(1, 53, 871);
  }

  lemma {:induction false} ScaledZero(k: nat)
    ensures Scaled(0, k) == 0
  {
    if k == 0 {
    } else {
      ScaledZero(k - 1);
    }
  }

  /** For every finite double and infinity, rounding the fields gives the float whose range x is in. */
  lemma RoundedIsBetween(e: nat, frac: nat)
    requires frac < M52
    ensures Between(Value64(e, frac), RoundedBits(e - 1023, frac / M28))
  {
    if e >= 1151 { HugeRounds(e, frac); }
    else if e <= 872 { TinyRounds(e, frac); }
    else if e <= 896 { DenormalRounds(e, frac); }
    else { NormalRounds(e, frac); }
  }

  // ----- the decoder's conversion -----

  /** The range check and the rounding of pb_decode_double_as_float, for an exponent below 1024. */
  method RoundFields(exponent0: int, mantissa0: nat) returns (exponent: int, mantissa: nat)
    requires -1023 <= exponent0 < 1024 && mantissa0 < M24
    ensures -127 <= exponent <= 128 && mantissa < M23
    ensures (exponent + 127) * M23 + mantissa == RoundedBits(exponent0, mantissa0)
  {
    exponent, mantissa := exponent0, mantissa0;
    if exponent > 127 {
      exponent, mantissa := 128, 0;
    } else if exponent < -150 {
      exponent, mantissa := -127, 0;
    } else if exponent < -126 {
      ShiftedOnce(mantissa + M24, -126 - exponent);
      mantissa := ShiftRight(mantissa + M24, -126 - exponent);
      exponent := -127;
    }
    mantissa := (mantissa + 1) / 2;
    if mantissa / M23 % 2 == 1 {
      exponent := exponent + 1;
      mantissa := mantissa % M23 / 2;
    }
  }

  /** The shifts and masks that take a double apart. */
  method Parts64(v: nat) returns (sign: nat, exponent: int, mantissa: nat)
    requires v < TWO64
    ensures sign == Sign64(v) <= 1 && exponent == Exp64(v) - 1023
    ensures mantissa == Frac64(v) / M28 < M24
  {
    sign := v / TWO63 % 2;
    exponent := v / M52 % 0x800 - 1023;
    mantissa := v / M28 % M24;
    HighFraction(v);
  }

  lemma HighFraction(v: nat)
    ensures v / M28 % M24 == Frac64(v) / M28
  {
    assert v == M52 * (v / M52) + Frac64(v);
    assert v / M28 == M24 * (v / M52) + Frac64(v) / M28;
  }

  /** Fields that do not overlap, put together. */
  method Join32(sign: nat, e: nat, m: nat) returns (out: nat)
    requires sign <= 1 && e <= 0xFF && m < M23
    ensures out < TWO32 && out % TWO31 == e * M23 + m
    ensures Sign32(out) == sign && Exp32(out) == e && Frac32(out) == m
  {
    out := m + e * M23 + sign * TWO31;
  }

  /** What rounding promises: the nearest float; of a NaN the upper 23 bits of its fraction. */
  ghost predicate IsRounded(value: nat, out: nat) {
    && out < TWO32 && Sign32(out) == Sign64(value)
    && (!IsNan64(value) ==> Nearest(Mag64(value), out % TWO31))
    && (IsNan64(value) ==> Exp32(out) == 0xFF && Frac32(out) == Frac64(value) / M29)
  }

  lemma FiniteIsRounded(value: nat, out: nat)
    requires out < TWO32 && Sign32(out) == Sign64(value) && !IsNan64(value)
    requires out % TWO31 == RoundedBits(Exp64(value) - 1023, Frac64(value) / M28)
    ensures IsRounded(value, out)
  {
    RoundedIsBetween(Exp64(value), Frac64(value));
    BetweenIsNearest(Mag64(value), out % TWO31);
  }

  lemma SpecialIsRounded(value: nat, out: nat, m: nat)
    requires out < TWO32 && Sign32(out) == Sign64(value) && Exp64(value) == 0x7FF && out % TWO31 == 0xFF * M23 + m
    requires Exp32(out) == 0xFF && Frac32(out) == m && m == Frac64(value) / M28 / 2
    ensures IsRounded(value, out)
  {
    assert m == Frac64(value) / M29;
    if !IsNan64(value) { FiniteIsRounded(value, out); }
  }

  /**
    pb_decode_double_as_float, after the eight bytes have been read: the
    nearest float, ties away from zero; infinity beyond the largest float.
   */
  method DoubleToFloat(value: nat) returns (out: nat)
    requires value < TWO64
    ensures IsRounded(value, out)
  {
    var sign, exponent, mantissa := Parts64(value);
    if exponent == 1024 {
      out := Join32(sign, 128 + 127, mantissa / 2);
      SpecialIsRounded(value, out, mantissa / 2);
    } else {
      exponent, mantissa := RoundFields(exponent, mantissa);
      out := Join32(sign, exponent + 127, mantissa);
      FiniteIsRounded(value, out);
    }
  }

  /** The number one, 2 to the 1074 of the units, is one in both formats. */
  lemma OneIsOne(out: nat)
    ensures Mag64(0x3FF0_0000_0000_0000) == Mag32(0x3F80_0000) == Scaled(1, 1074)
    ensures IsRounded(0x3FF0_0000_0000_0000, out) ==> out == 0x3F80_0000
  {
    assert Exp64(0x3FF0_0000_0000_0000) == 1023 && Frac64(0x3FF0_0000_0000_0000) == 0;
    assert Sign64(0x3FF0_0000_0000_0000) == 0;
    Powers();
    ScaledTwice(1, 23, 1051);
    ByConstants(M23);
    ScaledTwice(M23, 29, 1022);
    if IsRounded(0x3FF0_0000_0000_0000, out) {
      ExactIsNearest(Mag64(0x3FF0_0000_0000_0000), out % TWO31, 0x3F80_0000);
    }
  }

  /** A NaN stays one exactly if one of the upper 23 bits of its fraction is set. */
  lemma NanSurvives(value: nat, out: nat)
    requires IsNan64(value) && IsRounded(value, out)
    ensures IsNan32(out) <==> Frac64(value) >= M29
  {
  }

  /** A NaN that comes out as infinity. */
  lemma NanBecomesInfinity(out: nat)
    requires IsRounded(0x7FF0_0000_0000_0001, out)
    ensures IsNan64(0x7FF0_0000_0000_0001) && out == INF32
  {
    assert IsNan64(0x7FF0_0000_0000_0001) && Sign64(0x7FF0_0000_0000_0001) == 0;
    Reassemble(out);
  }

  // ----- the encoder's conversion -----

  /** A significand and exponent that stand for the denormal m. */
  ghost predicate Denotes(mantissa: nat, exponent: int, m: nat) {
    exponent >= -149 && Scaled(mantissa, exponent + 149) == Scaled(m, 23)
  }

  lemma DenotesStart(m: nat)
    ensures Denotes(2 * m, -127, m)
  {
    ScaledDouble(m, 22);
  }

  lemma DenotesStep(mantissa: nat, exponent: int, m: nat)
    requires Denotes(mantissa, exponent, m) && 0 < m && mantissa < M23
    ensures Denotes(2 * mantissa, exponent - 1, m)
  {
    Powers();
    ScaledGrows(1, m, 23);
    assert exponent > -149;
    ScaledDouble(mantissa, exponent + 148);
  }

  /** The loop that normalises a denormal: shift until bit 23 is set. */
  method Normalise(m: nat) returns (exponent: int, mantissa: nat)
    requires 0 < m < M23
    ensures -149 <= exponent <= -127 && M23 <= mantissa < 2 * M23 && Denotes(mantissa, exponent, m)
  {
    mantissa, exponent := 2 * m, -127;
    DenotesStart(m);
    while mantissa / M23 % 2 == 0
      invariant exponent <= -127 && 0 < mantissa < 2 * M23 && Denotes(mantissa, exponent, m)
      decreases 2 * M23 - mantissa
    {
      DenotesStep(mantissa, exponent, m);
      mantissa, exponent := 2 * mantissa, exponent - 1;
    }
  }

  /** The fields of the double for those of a float: the same magnitude, the same fraction of a NaN. */
  ghost predicate FieldsWidened(e: nat, m: nat, wide: nat, frac: nat) {
    && wide < 0x800 && frac < M52
    && (e == 0xFF ==> wide == 0x7FF && frac == m * M29)
    && (e != 0xFF ==> wide != 0x7FF && Value64(wide, frac) == Mag32(e * M23 + m))
  }

  lemma WidenedNormal(e: nat, m: nat)
    requires 0 < e < 0xFF && m < M23
    ensures FieldsWidened(e, m, e + 896, m * M29)
  {
    ByConstants(M23 + m);
    ScaledTwice(M23 + m, 29, e + 895);
    Linear32(e, m);
  }

  lemma WidenedZero()
    ensures FieldsWidened(0, 0, 0, 0)
  {
    ScaledZero(925);
  }

  lemma WidenedDenormal(m: nat, exponent: int, mantissa: nat)
    requires 0 < m < M23 && exponent <= -127 && M23 <= mantissa < 2 * M23 && Denotes(mantissa, exponent, m)
    ensures FieldsWidened(0, m, exponent + 1023, (mantissa - M23) * M29)
  {
    ByConstants(mantissa);
    ScaledTwice(mantissa, 29, exponent + 1022);
    ScaledTwice(mantissa, exponent + 149, 902);
    ScaledTwice(m, 23, 902);
    Linear32(0, m);
  }

  /** The case distinction of pb_encode_float_as_double. */
  method WidenFields(e: nat, m: nat) returns (wide: nat, frac: nat)
    requires e <= 0xFF && m < M23
    ensures FieldsWidened(e, m, wide, frac)
  {
    var exponent: int, mantissa: nat := e - 127, m;
    if exponent == 128 {
      wide, frac := 1024 + 1023, m * M29;
    } else if exponent == -127 {
      if m == 0 {
        WidenedZero();
        wide, frac := -1023 + 1023, 0;
      } else {
        exponent, mantissa := Normalise(m);
        WidenedDenormal(m, exponent, mantissa);
        wide, frac := exponent + 1023, mantissa % M23 * M29;
      }
    } else {
      WidenedNormal(e, m);
      wide, frac := exponent + 1023, m * M29;
    }
  }

  /** The shifts and masks that take a float apart. */
  method Parts32(f: nat) returns (sign: nat, exponent: int, mantissa: nat)
    requires f < TWO32
    ensures sign == Sign32(f) <= 1 && exponent == Exp32(f) - 127 && mantissa == Frac32(f)
  {
    sign := f / TWO31 % 2;
    exponent := f / M23 % 0x100 - 127;
    mantissa := f % M23;
  }

  /** Fields that do not overlap, put together. */
  method Join64(sign: nat, e: nat, m: nat) returns (out: nat)
    requires sign <= 1 && e < 0x800 && m < M52
    ensures out < TWO64 && Sign64(out) == sign && Exp64(out) == e && Frac64(out) == m
  {
    out := m + e * M52 + sign * TWO63;
  }

  /** What widening promises. */
  ghost predicate IsWidened(f: nat, v: nat) {
    v < TWO64 && Sign64(v) == Sign32(f) && FieldsWidened(Exp32(f), Frac32(f), Exp64(v), Frac64(v))
  }

  /** pb_encode_float_as_double, up to the eight bytes it writes. */
  method FloatToDouble(f: nat) returns (v: nat)
    requires f < TWO32
    ensures IsWidened(f, v)
  {
    var sign, exponent, mantissa := Parts32(f);
    var wide, frac := WidenFields(exponent + 127, mantissa);
    v := Join64(sign, wide, frac);
  }

  lemma Reassemble(f: nat)
    requires f < TWO32
    ensures f == Sign32(f) * TWO31 + f % TWO31 && f % TWO31 == Exp32(f) * M23 + Frac32(f)
  {
  }

  lemma FiniteReturns(f: nat, v: nat, out: nat)
    requires f < TWO32 && IsWidened(f, v) && IsRounded(v, out) && Exp32(f) != 0xFF
    ensures out % TWO31 == f % TWO31
  {
    Reassemble(f);
    ExactIsNearest(Mag64(v), out % TWO31, f % TWO31);
  }

  lemma InfinityReturns(f: nat, v: nat, out: nat)
    requires f < TWO32 && IsWidened(f, v) && IsRounded(v, out) && Exp32(f) == 0xFF && Frac32(f) == 0
    ensures out % TWO31 == INF32
  {
    HugeDouble(Exp64(v), Frac64(v));
    LargestIsInfinity(Mag64(v), out % TWO31);
  }

  /** Float to double to float is the identity on all patterns, NaN fractions included. */
  lemma WidenThenRound(f: nat, v: nat, out: nat)
    requires f < TWO32 && IsWidened(f, v) && IsRounded(v, out)
    ensures out == f
  {
    Reassemble(f);
    Reassemble(out);
    if Exp32(f) != 0xFF {
      FiniteReturns(f, v, out);
    } else if Frac32(f) == 0 {
      InfinityReturns(f, v, out);
    }
  }

  // ----- on streams -----

  /** pb_decode_double_as_float */
  method DecodeDoubleAsFloat(stream: InputStream.IStream) returns (ok: bool, dest: nat)
    requires stream.Valid()
    modifies stream
    ensures stream.Valid() && stream.End() == old(stream.End())
    ensures ok <==> 8 <= old(stream.bytesLeft)
    ensures ok ==> IsRounded(FromLittleEndian(old(stream.Rest())[..8]), dest)
    ensures ok ==> stream.Rest() == old(stream.Rest())[8..]
  {
    var value;
    dest := 0;
    ok, value := stream.DecodeFixed(8);
    if !ok { return; }
    EightBytes(old(stream.Rest())[..8]);
    dest := DoubleToFloat(value);
  }

  lemma EightBytes(bs: seq<byte>)
    requires |bs| == 8
    ensures FromLittleEndian(bs) < TWO64
  {
    FromLittleEndianBound(bs);
    Pow256Values();
    assert Pow256(8) == 256 * Pow256(7);
  }

  /** pb_encode_float_as_double */
  method EncodeFloatAsDouble(stream: OutputStream.OStream, value: nat) returns (ok: bool, ghost wide: nat)
    requires stream.Valid() && value < TWO32
    modifies stream, stream.buf
    ensures IsWidened(value, wide)
    ensures OutputStream.Emits(old(stream.Now()), stream.Now(), ok, Some(LittleEndian(wide, 8)))
  {
    var v := FloatToDouble(value);
    wide := v;
    ok := stream.EncodeFixed64(v);
  }
}
