/**
 Machine-word arithmetic on naturals: powers of two, alignment and the bitwise
 operators that `malloc.c` and the float kernels apply to unsigned words.
 */
module BinaryArithmetic {

  type byte = b: int | 0 <= b < 0x100
  type word = w: int | 0 <= w < 0x1_0000_0000
  type int32 = x: int | -0x8000_0000 <= x < 0x8000_0000

  predicate IsPow2(s: nat) {
    s == 1 || (s > 0 && s % 2 == 0 && IsPow2(s / 2))
  }

  /** `o` is a multiple of the power of two `s`, bit by bit (see `AlignedIsMultiple`). */
  predicate Aligned(o: nat, s: nat)
    requires IsPow2(s)
  {
    s == 1 || (o % 2 == 0 && Aligned(o / 2, s / 2))
  }

  /** The `&` operator on unsigned words. */
  function And(a: nat, b: nat): nat {
    if a == 0 || b == 0 then 0
    else 2 * And(a / 2, b / 2) + (if a % 2 == 1 && b % 2 == 1 then 1 else 0)
  }

  /** The `^` operator on unsigned words. */
  function Xor(a: nat, b: nat): nat {
    if a == 0 then b
    else if b == 0 then a
    else 2 * Xor(a / 2, b / 2) + (if a % 2 != b % 2 then 1 else 0)
  }

  /** The largest power of two not above `w`; 0 for 0. */
  function FloorPow2(w: nat): (p: nat)
    ensures w > 0 ==> IsPow2(p) && p <= w < 2 * p
    ensures w == 0 ==> p == 0
  {
    if w <= 1 then w else 2 * FloorPow2(w / 2)
  }

  // ----- alignment

  lemma {:induction false} AlignedIsMultiple(o: nat, s: nat)
    requires IsPow2(s)
    ensures Aligned(o, s) <==> o % s == 0
  {
    if s > 1 {
      AlignedIsMultiple(o / 2, s / 2);
      DoubledModulus(o, s / 2);
    }
  }

  lemma DoubledModulus(o: nat, h: nat)
    requires h > 0
    ensures o % (2 * h) == 2 * (o / 2 % h) + o % 2
  {
    var q, r := o / 2 / h, o / 2 % h;
    MulAssociates(2, h, q);
    RemainderIs(o, 2 * h, q, 2 * r + o % 2);
  }

  lemma MulAssociates(a: int, b: int, c: int)
    ensures a * (b * c) == (a * b) * c
  {
  }

  /** The defining equation of division fixes quotient and remainder. */
  lemma RemainderIs(o: nat, s: nat, q: nat, r: nat)
    requires s > 0 && o == s * q + r && r < s
    ensures o % s == r && o / s == q
  {
    var q', r' := o / s, o % s;
    assert o == s * q' + r';
    MulDistributes(s, q', q);
    SmallMultiple(s, q' - q);
  }

  lemma MulDistributes(a: int, b: int, c: int)
    ensures a * (b - c) == a * b - a * c
  {
  }

  lemma MulGrows(a: nat, b: nat, c: nat)
    requires a <= b
    ensures a * c <= b * c
  {
  }

  lemma SmallMultiple(s: int, k: int)
    requires -s < s * k < s
    ensures k == 0
  {
  }

  lemma {:induction false} ZeroAligned(s: nat)
    requires IsPow2(s)
    ensures Aligned(0, s)
  {
    if s > 1 { ZeroAligned(s / 2); }
  }

  lemma {:induction false} Pow2Gap(t: nat, s: nat)
    requires IsPow2(t) && IsPow2(s) && t < s
    ensures 2 * t <= s
  {
    if t > 1 { Pow2Gap(t / 2, s / 2); }
  }

  lemma {:induction false} AlignedWeaken(o: nat, s: nat, t: nat)
    requires IsPow2(s) && IsPow2(t) && t <= s && Aligned(o, s)
    ensures Aligned(o, t)
  {
    if t > 1 { AlignedWeaken(o / 2, s / 2, t / 2); }
  }

  lemma {:induction false} AlignedSum(a: nat, b: nat, s: nat)
    requires IsPow2(s) && Aligned(a, s)
    ensures Aligned(a + b, s) <==> Aligned(b, s)
  {
    if s > 1 && b % 2 == 0 {
      AlignedSum(a / 2, b / 2, s / 2);
      assert (a + b) / 2 == a / 2 + b / 2;
    }
  }

  lemma {:induction false} SelfAligned(s: nat, t: nat)
    requires IsPow2(s) && IsPow2(t)
    ensures Aligned(s, t) <==> t <= s
  {
    if s > 1 && t > 1 { SelfAligned(s / 2, t / 2); }
  }

  /** Two different multiples of `s` are at least `s` apart. */
  lemma {:induction false} AlignedGap(a: nat, b: nat, s: nat)
    requires IsPow2(s) && Aligned(a, s) && Aligned(b, s) && a < b
    ensures a + s <= b
  {
    if s > 1 { AlignedGap(a / 2, b / 2, s / 2); }
  }

  /** A multiple of `s` that is not a multiple of `2 * s` is `s` above one. */
  lemma {:induction false} OddMultiple(o: nat, s: nat)
    requires IsPow2(s) && Aligned(o, s) && !Aligned(o, 2 * s)
    ensures o >= s && Aligned(o - s, 2 * s)
  {
    if s > 1 {
      OddMultiple(o / 2, s / 2);
      assert (o - s) / 2 == o / 2 - s / 2;
    }
  }

  // ----- the bit tricks of the source

  /** `x ^ s` for an aligned `x` flips between the two halves of the enclosing 2s-block. */
  lemma {:induction false} XorFlipsHalf(o: nat, s: nat)
    requires IsPow2(s) && Aligned(o, s)
    ensures Xor(o, s) == if Aligned(o, 2 * s) then o + s else o - s
  {
    if s > 1 && o > 0 {
      XorFlipsHalf(o / 2, s / 2);
    } else if s == 1 && o > 0 {
      assert Xor(o / 2, 0) == o / 2;
      assert Xor(o, 1) == 2 * Xor(o / 2, 0) + (if o % 2 != 1 then 1 else 0);
    } else {
      ZeroAligned(2 * s);
    }
  }

  /** `x & (x - 1)` clears the lowest set bit: it is 0 exactly at powers of two and never
      drops the highest bit otherwise. */
  lemma {:induction false} ClearLowestBit(x: nat)
    requires x > 0
    ensures And(x, x - 1) == 0 <==> IsPow2(x)
    ensures And(x, x - 1) < x
    ensures !IsPow2(x) ==> FloorPow2(And(x, x - 1)) == FloorPow2(x)
  {
    if x % 2 == 1 {
      if x > 1 {
        AndSelf(x / 2);
        assert (x - 1) / 2 == x / 2;
      }
    } else {
      ClearLowestBit(x / 2);
      assert (x - 1) / 2 == x / 2 - 1;
    }
  }

  lemma {:induction false} AndSelf(x: nat)
    ensures And(x, x) == x
  {
    if x > 0 { AndSelf(x / 2); }
  }

  lemma {:induction false} FloorPow2Unique(w: nat, p: nat)
    requires IsPow2(p) && p <= w < 2 * p
    ensures FloorPow2(w) == p
  {
    if p > 1 { FloorPow2Unique(w / 2, p / 2); }
  }
}
