/**
 What the validator of the IBM long double in `arm-dis/floatformat.c` is for: the top half should
 be the sum of both halves, rounded to the nearest double.
 */
module DoubleRounding {
  import opened BinaryArithmetic
  import opened BitFields
  import opened FloatFormat

  /** A double, or one beyond the largest: rounding takes place as if exponents were unbounded. */
  predicate IsDouble(d: Double) {
    d.man < Exp2(52)
  }

  function Signed(d: Double, negative: bool): int {
    if negative then -(Magnitude(d) as int) else Magnitude(d)
  }

  function Distance(a: int, b: int): nat {
    if a < b then b - a else a - b
  }

  /** `v` rounds to the positive `top`: any other double is farther away, or as far and the last
      mantissa bit of `top` is 0. */
  ghost predicate RoundsTo(v: int, top: Double) {
    forall d: Double, negative: bool :: IsDouble(d) && Signed(d, negative) != Magnitude(top) ==>
      var near, far := Distance(v, Magnitude(top)), Distance(v, Signed(d, negative));
      near < far || (near == far && top.man % 2 == 0)
  }

  /** The sum of a positive normal `top` and `bottom`. */
  function Sum(top: Double, bottom: Double, opposite: bool): int {
    if opposite then Magnitude(top) - Magnitude(bottom) else Magnitude(top) + Magnitude(bottom)
  }

  /** The bottom half counts down from a power of two, to where the doubles are twice as dense, by more
      than half of their distance there. */
  predicate BelowPowerOfTwo(top: Double, bottom: Double, opposite: bool) {
    opposite && top.man == 0 && top.exp > 1 && 2 * Magnitude(bottom) > HalfUlp(top)
  }

  /** The validator accepts a normal top half exactly if the sum rounds to it, or below a power of two,
      where it goes by the distance of the doubles above. */
  lemma ValidExactlyIfRounded(top: Double, bottom: Double, opposite: bool)
    requires 0 < top.exp < 2047 && IsDouble(top) && IsDouble(bottom)
    ensures RoundsTo(Sum(top, bottom, opposite), top)
            <==> ValidPair(top, bottom) && !BelowPowerOfTwo(top, bottom, opposite)
  {
    hide Exp2, Shl, Magnitude, RoundsTo;
    var gap := if top.man == 0 && top.exp > 1 then HalfUlp(top) else 2 * HalfUlp(top);
    GapAbove(top);
    GapBelow(top, gap);
    GapsDecide(top, bottom, gap, opposite);
  }

  /** A power of two minus half the distance of the doubles above it is a double itself, and yet the pair
      of both is accepted, 1 and -2^-53 (exponents 1023 and 970) for example. */
  lemma AcceptedWithoutRounding(exp: nat)
    requires 54 <= exp < 2047
    ensures var top, bottom := Double(exp, 0), Double(exp - 53, 0);
            ValidPair(top, bottom) && !RoundsTo(Sum(top, bottom, true), top)
  {
    hide Exp2, Shl, Magnitude, RoundsTo;
    var top, bottom := Double(exp, 0), Double(exp - 53, 0);
    Exp2Positive(52);
    Exp2Positive(exp);
    NormalBottom(top, bottom);
    ValidExactlyIfRounded(top, bottom, true);
  }

  lemma Exp2Positive(n: nat)
    ensures Exp2(n) > 0
  {
  }

  // ----- the distance of doubles

  function Significand(d: Double): nat {
    if d.exp == 0 then d.man else Exp2(52) + d.man
  }

  /** Denormals are as dense as the smallest normals. */
  function Place(d: Double): (k: nat)
    ensures k >= 2
  {
    if d.exp == 0 then 2 else d.exp + 1
  }

  lemma {:induction false} ShlNext(n: nat, k: nat)
    ensures Shl(n + 1, k) == Shl(n, k) + Exp2(k)
  {
    if k > 0 { ShlNext(n, k - 1); }
  }

  lemma {:induction false} ShlTwice(n: nat, a: nat, b: nat)
    ensures Shl(Shl(n, a), b) == Shl(n, a + b)
  {
    if b > 0 { ShlTwice(n, a, b - 1); }
  }

  /** Around a number that is a multiple of 2^k and not below 2^(52+k), doubles are 2^k apart. */
  lemma Spacing(n: nat, k: nat, d: Double)
    requires IsDouble(d) && k >= 2 && n >= Exp2(52)
    ensures Magnitude(d) > Shl(n, k) ==> Magnitude(d) >= Shl(n, k) + Exp2(k)
    ensures Magnitude(d) < Shl(n, k) && (n > Exp2(52) || k == 2) ==> Magnitude(d) + Exp2(k) <= Shl(n, k)
  {
    hide Exp2, Shl;
    var s, p := Significand(d), Place(d);
    assert Magnitude(d) == Shl(s, p);
    if p >= k {
      var x := Shl(s, p - k);
      ShlTwice(s, p - k, k);
      Apart(n, x, k);
      Apart(x, n, k);
    } else {
      SmallDouble(d, k);
      ShlGrows(Exp2(52), n, k);
      if n > Exp2(52) {
        ShlGrows(Exp2(52), n - 1, k);
        ShlNext(n - 1, k);
      }
    }
  }

  lemma Apart(x: nat, y: nat, k: nat)
    ensures Shl(x, k) < Shl(y, k) ==> Shl(x, k) + Exp2(k) <= Shl(y, k)
  {
    if x < y {
      ShlNext(x, k);
      ShlGrows(x + 1, y, k);
    } else {
      ShlGrows(y, x, k);
    }
  }

  lemma SmallDouble(d: Double, k: nat)
    requires IsDouble(d) && Place(d) < k
    ensures Magnitude(d) < Shl(Exp2(52), k)
  {
    hide Shl, Exp2;
    var s, p := Significand(d), Place(d);
    NextExp2(52);
    ShlGrows(s, Exp2(53), p);
    ShlOfExp2(53, p);
    ShlOfExp2(52, k);
    Exp2Grows(53 + p, 52 + k);
  }

  /** Multiples of 2^k up to 2^(53+k) are doubles. */
  lemma IsThere(n: nat, k: nat) returns (d: Double)
    requires k >= 2 && n <= Exp2(53) && (n >= Exp2(52) || k == 2)
    ensures IsDouble(d) && Magnitude(d) == Shl(n, k)
  {
    hide Shl, Exp2;
    NextExp2(52);
    if n == Exp2(53) {
      Exp2Positive(52);
      d := Double(k, 0);
      ShlOfExp2(52, k + 1);
      ShlOfExp2(53, k);
    } else if n >= Exp2(52) {
      d := Double(k - 1, n - Exp2(52));
    } else {
      d := Double(0, n);
    }
  }

  ghost predicate NextAbove(top: Double, gap: nat) {
    && (exists d :: IsDouble(d) && Magnitude(d) == Magnitude(top) + gap)
    && (forall d :: IsDouble(d) && Magnitude(d) > Magnitude(top) ==> Magnitude(d) >= Magnitude(top) + gap)
  }

  ghost predicate NextBelow(top: Double, gap: nat) {
    && (exists d :: IsDouble(d) && Magnitude(d) + gap == Magnitude(top))
    && (forall d :: IsDouble(d) && Magnitude(d) < Magnitude(top) ==> Magnitude(d) + gap <= Magnitude(top))
  }

  lemma GapAbove(top: Double)
    requires 0 < top.exp && IsDouble(top)
    ensures NextAbove(top, 2 * HalfUlp(top))
  {
    hide Shl, Exp2;
    var n, k := Exp2(52) + top.man, top.exp + 1;
    NextExp2(52);
    NextExp2(top.exp);
    ShlNext(n, k);
    var d := IsThere(n + 1, k);
    forall d | IsDouble(d) && Magnitude(d) > Magnitude(top) ensures Magnitude(d) >= Magnitude(top) + 2 * HalfUlp(top) {
      Spacing(n, k, d);
    }
  }

  lemma GapBelow(top: Double, gap: nat)
    requires 0 < top.exp && IsDouble(top)
    requires gap == if top.man == 0 && top.exp > 1 then HalfUlp(top) else 2 * HalfUlp(top)
    ensures NextBelow(top, gap)
  {
    hide Shl, Exp2;
    var e := top.exp;
    Exp2Positive(52);
    NextExp2(52);
    NextExp2(e);
    var n, k := Exp2(52) + top.man, e + 1;
    if top.man == 0 && e > 1 {
      n, k := Exp2(53), e;
      ShlOfExp2(52, e + 1);
      ShlOfExp2(53, e);
    }
    assert Magnitude(top) == Shl(n, k) && gap == Exp2(k);
    ShlNext(n - 1, k);
    var d := IsThere(n - 1, k);
    forall d | IsDouble(d) && Magnitude(d) < Magnitude(top) ensures Magnitude(d) + gap <= Magnitude(top) {
      Spacing(n, k, d);
    }
  }

  /** Rounding goes by half the distance to the neighbour. */
  lemma GapsDecide(top: Double, bottom: Double, gap: nat, opposite: bool)
    requires NextAbove(top, 2 * HalfUlp(top)) && NextBelow(top, gap) && gap > 0
    ensures var twice, g := 2 * Magnitude(bottom), if opposite then gap else 2 * HalfUlp(top);
            RoundsTo(Sum(top, bottom, opposite), top) <==> twice < g || (twice == g && top.man % 2 == 0)
  {
    hide Shl, Exp2, Magnitude;
    var g, v := if opposite then gap else 2 * HalfUlp(top), Sum(top, bottom, opposite);
    var a :| IsDouble(a) && Magnitude(a) == Magnitude(top) + 2 * HalfUlp(top);
    var b :| IsDouble(b) && Magnitude(b) + gap == Magnitude(top);
    var w := if opposite then b else a;
    assert Signed(w, false) == if opposite then Magnitude(top) - gap else Magnitude(top) + 2 * HalfUlp(top);
    if 2 * Magnitude(bottom) < g || (2 * Magnitude(bottom) == g && top.man % 2 == 0) {
      forall d: Double, negative: bool | IsDouble(d) && Signed(d, negative) != Magnitude(top)
        ensures var near, far := Distance(v, Magnitude(top)), Distance(v, Signed(d, negative));
                near < far || (near == far && top.man % 2 == 0)
      {
      }
    }
  }
}
