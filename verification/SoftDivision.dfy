/** `boot-axf/eabi_compat.c`: division by shifting and subtracting, for a core without a divider. */
module SoftDivision {
  import opened BinaryArithmetic
  import opened BitFields

  /** A 64-bit integer by its two words. */
  datatype Long = Long(hi: word, lo: word)

  /** The 32-bit pattern of a signed integer. */
  function Pattern(x: int32): word {
    if x < 0 then x + 0x1_0000_0000 else x
  }

  function SignExtend(x: int32): Long {
    Long(if x < 0 then 0xFFFF_FFFF else 0, Pattern(x))
  }

  function Abs(x: int): nat {
    if x >= 0 then x else -x
  }

  /** Comparing `num >> d` with `den` is comparing `num` with `den << d`. */
  lemma {:induction false} ShiftedComparison(num: nat, den: nat, d: nat)
    ensures Shr(num, d) >= den <==> num >= Shl(den, d)
  {
    if d > 0 {
      ShiftedComparison(num / 2, den, d - 1);
    }
  }

  lemma Exp2Of32()
    ensures Exp2(32) == 0x1_0000_0000
  {
    assert Exp2(4) == 0x10 && Exp2(8) == 0x100 && Exp2(12) == 0x1000 && Exp2(16) == 0x1_0000;
    assert Exp2(20) == 0x10_0000 && Exp2(24) == 0x100_0000 && Exp2(28) == 0x1000_0000;
  }

  /** __aeabi_uidivmod: remainder in the upper word, quotient in the lower one. Nothing
      overflows on the way: the shifted divisor never exceeds the number it is taken from. */
  method UnsignedDivMod(num0: word, den: word) returns (r: Long)
    ensures den > 0 ==> r.lo == num0 / den && r.hi == num0 % den
    ensures den == 0 ==> r == Long(num0, 0xFFFF_FFFF)
  {
    Exp2Of32();
    var num, quot, d: nat := num0, 0, 32;
    if den > 0 {
      ShlIsProduct(den, 32);
      assert num0 < Shl(den, 32) by { ShlGrows(1, den, 32); ShlOfExp2(0, 32); }
    }
    while d > 0
      invariant 0 <= num <= num0 && 0 <= quot && quot + Exp2(d) <= 0x1_0000_0000
      invariant num0 == quot * den + num
      invariant den > 0 ==> num < Shl(den, d)
      invariant den == 0 ==> quot + Exp2(d) == 0x1_0000_0000
    {
      d := d - 1;
      ShiftedComparison(num, den, d);
      if Shr(num, d) >= den {
        AddsOneMultiple(quot, d, den);
        quot := quot + Shl(1, d);
        num := num - Shl(den, d);
        ShlOfExp2(0, d);
      }
    }
    if den > 0 { RemainderIs(num0, den, quot, num); }
    r := Long(num, quot);
  }

  lemma AddsOneMultiple(quot: nat, d: nat, den: nat)
    ensures (quot + Shl(1, d)) * den == quot * den + Shl(den, d)
  {
    ShlIsProduct(1, d);
    ShlIsProduct(den, d);
    Distribute(quot, Exp2(d), den);
  }

  lemma Distribute(a: int, b: int, c: int)
    ensures (a + b) * c == a * c + c * b
  {
  }

  /** Two's complement: an integer cut to 32 bits. */
  function Wrap(x: int): (y: int32)
    ensures -0x8000_0000 <= x < 0x8000_0000 ==> y == x
  {
    (x + 0x8000_0000) % 0x1_0000_0000 - 0x8000_0000
  }

  /** The quotient truncated towards zero. */
  function Truncated(num: int32, den: int32): (q: int)
    requires den != 0
  {
    if (num >= 0) == (den >= 0) then Abs(num) / Abs(den) else -(Abs(num) / Abs(den))
  }

  /** The only quotient that is no 32-bit integer. */
  lemma TruncatedFits(num: int32, den: int32)
    requires den != 0
    ensures Abs(num) / Abs(den) <= 0x8000_0000 && Abs(num) % Abs(den) < 0x8000_0000
    ensures Truncated(num, den) >= 0x8000_0000 <==> num == -0x8000_0000 && den == -1
    ensures Truncated(num, den) >= -0x8000_0000
  {
    var a, b := Abs(num), Abs(den);
    QuotientIsSmaller(a, b);
    if b > 1 { QuotientIsHalf(a, b); }
  }

  lemma QuotientIsHalf(a: nat, b: nat)
    requires b > 1
    ensures 2 * (a / b) <= a
  {
    assert a == b * (a / b) + a % b;
    MulGrows(2, b, a / b);
  }

  /** __aeabi_idiv, where negation wraps: it truncates towards zero for all but one pair of
      operands whose quotient exists, and answers -1 or 1 to a division by zero. */
  method SignedDiv(num: int32, den: int32) returns (q: int32)
    ensures den != 0 ==> (q == Truncated(num, den) <==> !(num == -0x8000_0000 && den == -1))
    ensures den != 0 ==> q == Wrap(Truncated(num, den))
    ensures den == 0 ==> q == if num >= 0 then -1 else 1
  {
    if den != 0 { TruncatedFits(num, den); }
    var r := UnsignedDivMod(Abs(num), Abs(den));
    var res := Wrap(r.lo);
    q := if (num >= 0) == (den >= 0) then res else Wrap(-res);
  }

  lemma QuotientIsSmaller(a: nat, b: nat)
    requires b > 0
    ensures a / b <= a && a % b <= a
  {
    var q, r := a / b, a % b;
    assert a == b * q + r;
    assert b * q >= q by { MulGrows(1, b, q); }
  }

  /** The remainder with the sign of the dividend, as the truncated quotient leaves it. */
  function SignedRem(num: int32, den: int32): int
    requires den != 0
  {
    if num >= 0 then Abs(num) % Abs(den) else -(Abs(num) % Abs(den))
  }

  /** Quotient and remainder are those of division towards zero: they add up to the dividend, and the
      remainder is smaller than the divisor and never of the other sign than the dividend. */
  lemma DivisionLaw(num: int32, den: int32)
    requires den != 0
    ensures num == Truncated(num, den) * den + SignedRem(num, den)
    ensures Abs(SignedRem(num, den)) < Abs(den)
    ensures if num >= 0 then SignedRem(num, den) >= 0 else SignedRem(num, den) <= 0
  {
    hide Truncated, SignedRem;
    var q, r := Parts(num, den);
    Signs(num, den, Abs(num), Abs(den), q, Truncated(num, den), Abs(den) * q);
  }

  lemma Parts(num: int32, den: int32) returns (q: int, r: int)
    requires den != 0
    ensures Abs(num) == Abs(den) * q + r && 0 <= r < Abs(den) && q >= 0
    ensures Truncated(num, den) == if (num >= 0) == (den >= 0) then q else -q
    ensures SignedRem(num, den) == if num >= 0 then r else -r
  {
    q, r := Abs(num) / Abs(den), Abs(num) % Abs(den);
    Euclid(Abs(num), Abs(den));
  }

  lemma Euclid(a: nat, b: nat)
    requires b > 0
    ensures a == b * (a / b) + a % b
  {
  }

  /** The sign of the product follows those of the operands. */
  lemma Signs(num: int, den: int, a: nat, b: nat, q: int, t: int, product: int)
    requires a == Abs(num) && b == Abs(den) && product == b * q
    requires t == if (num >= 0) == (den >= 0) then q else -q
    ensures t * den == if num >= 0 then product else -product
  {
    MulDistributes(q, 0, b);
    MulDistributes(b, 0, q);
    MulDistributes(0 - q, 0, b);
  }

  /** __aeabi_idivmod: the lower word is the quotient, but joining the words with `|` lets the
      sign of a negative quotient cover the remainder. The upper word is the remainder exactly
      when the quotient is not negative, or the remainder is all ones anyway. */
  method SignedDivMod(num: int32, den: int32) returns (r: Long)
    ensures den != 0 ==>
              var q := Wrap(Truncated(num, den));
              && r.lo == Pattern(q)
              && -0x8000_0000 <= SignedRem(num, den) < 0x8000_0000
              && (r.hi == Pattern(SignedRem(num, den)) <==> q >= 0 || SignedRem(num, den) == -1)
    ensures den == 0 ==> r == if num >= 0 then Long(0xFFFF_FFFF, 0xFFFF_FFFF) else Long(Pattern(num), 1)
  {
    hide Or;
    if den != 0 { TruncatedFits(num, den); }
    var quotRem := UnsignedDivMod(Abs(num), Abs(den));
    var quot, rem := Wrap(quotRem.lo), Wrap(quotRem.hi);
    var signedRem := if num >= 0 then rem else Wrap(-rem);
    var signedQuot := if (num >= 0) == (den >= 0) then quot else Wrap(-quot);
    var low := SignExtend(signedQuot);
    OrWithOnes(Pattern(signedRem));
    OrIsWord(Pattern(signedRem), low.hi);
    r := Long(Or(SignExtend(signedRem).lo, low.hi), low.lo);
  }

  lemma {:induction false} OrOnes(x: nat, n: nat)
    requires x < Exp2(n)
    ensures Or(x, Exp2(n) - 1) == Exp2(n) - 1
  {
    if n > 0 && x > 0 {
      var y := Exp2(n) - 1;
      OrOnes(x / 2, n - 1);
      assert Exp2(n) == 2 * Exp2(n - 1);
      hide Exp2;
      assert y > 0 && y / 2 == Exp2(n - 1) - 1 && y % 2 == 1;
      assert Or(x, y) == 2 * Or(x / 2, y / 2) + 1;
    }
  }

  lemma OrWithOnes(x: word)
    ensures Or(x, 0xFFFF_FFFF) == 0xFFFF_FFFF && Or(x, 0) == x
  {
    Exp2Of32();
    OrOnes(x, 32);
  }

  lemma OrIsWord(x: word, y: word)
    requires y == 0 || y == 0xFFFF_FFFF
    ensures Or(x, y) < 0x1_0000_0000
  {
    OrWithOnes(x);
  }
}
