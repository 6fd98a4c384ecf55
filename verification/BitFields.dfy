/** The bits of naturals, and shifts and masks described bit by bit. */
module BitFields {
  import opened BinaryArithmetic

  /** Bit `i` of `x`, bit 0 being the least significant. */
  predicate Bit(x: nat, i: nat) {
    if i == 0 then x % 2 == 1 else Bit(x / 2, i - 1)
  }

  function Exp2(n: nat): (p: nat)
    ensures p > 0
  {
    if n == 0 then 1 else 2 * Exp2(n - 1)
  }

  /** `x << k` */
  function Shl(x: nat, k: nat): (r: nat)
    ensures r >= x
  {
    if k == 0 then x else 2 * Shl(x, k - 1)
  }

  /** `x >> k` */
  function Shr(x: nat, k: nat): nat {
    if k == 0 then x else Shr(x / 2, k - 1)
  }

  /** The low `n` bits of `x`. */
  function Low(x: nat, n: nat): nat {
    if n == 0 then 0 else x % 2 + 2 * Low(x / 2, n - 1)
  }

  /** The `|` operator on unsigned words. */
  function Or(a: nat, b: nat): nat {
    if a == 0 then b
    else if b == 0 then a
    else 2 * Or(a / 2, b / 2) + (if a % 2 == 1 || b % 2 == 1 then 1 else 0)
  }

  /** The `~` operator on a byte-sized mask. */
  function Not8(m: nat): nat
    requires m < 0x100
  {
    0xff - m
  }

  // ----- what the operators mean

  lemma {:induction false} ShlIsProduct(x: nat, k: nat)
    ensures Shl(x, k) == x * Exp2(k)
  {
    if k > 0 {
      ShlIsProduct(x, k - 1);
      MulAssociates(2, x, Exp2(k - 1));
      MulAssociates(x, 2, Exp2(k - 1));
    }
  }

  lemma {:induction false} ShrIsQuotient(x: nat, k: nat)
    ensures Shr(x, k) == x / Exp2(k) && Low(x, k) == x % Exp2(k)
  {
    if k > 0 {
      ShrIsQuotient(x / 2, k - 1);
      HalvedDivision(x, Exp2(k - 1));
    } else {
      RemainderIs(x, 1, x, 0);
    }
  }

  lemma HalvedDivision(x: nat, d: nat)
    requires d > 0
    ensures x / 2 / d == x / (2 * d) && x % 2 + 2 * (x / 2 % d) == x % (2 * d)
  {
    DoubledModulus(x, d);
    var q, r := x / 2 / d, x / 2 % d;
    MulAssociates(2, d, q);
    RemainderIs(x, 2 * d, q, 2 * r + x % 2);
  }

  lemma {:induction false} ShlBit(x: nat, k: nat, i: nat)
    ensures Bit(Shl(x, k), i) == (i >= k && Bit(x, i - k))
  {
    if k > 0 && i > 0 {
      assert Shl(x, k) / 2 == Shl(x, k - 1);
      ShlBit(x, k - 1, i - 1);
    }
  }

  lemma {:induction false} ShrBit(x: nat, k: nat, i: nat)
    ensures Bit(Shr(x, k), i) == Bit(x, k + i)
  {
    if k > 0 { ShrBit(x / 2, k - 1, i); }
  }

  lemma {:induction false} LowBit(x: nat, n: nat, i: nat)
    ensures Bit(Low(x, n), i) == (i < n && Bit(x, i))
  {
    if n > 0 {
      assert Low(x, n) / 2 == Low(x / 2, n - 1);
      if i > 0 { LowBit(x / 2, n - 1, i - 1); }
    } else {
      ZeroBit(i);
    }
  }

  lemma {:induction false} ZeroBit(i: nat)
    ensures !Bit(0, i)
  {
    if i > 0 { ZeroBit(i - 1); }
  }

  lemma {:induction false} AndBit(a: nat, b: nat, i: nat)
    ensures Bit(And(a, b), i) == (Bit(a, i) && Bit(b, i))
  {
    if a == 0 || b == 0 {
      ZeroBit(i);
    } else {
      assert And(a, b) / 2 == And(a / 2, b / 2);
      if i > 0 { AndBit(a / 2, b / 2, i - 1); }
    }
  }

  lemma {:induction false} OrBit(a: nat, b: nat, i: nat)
    ensures Bit(Or(a, b), i) == (Bit(a, i) || Bit(b, i))
  {
    if a == 0 || b == 0 {
      ZeroBit(i);
    } else {
      assert Or(a, b) / 2 == Or(a / 2, b / 2);
      if i > 0 { OrBit(a / 2, b / 2, i - 1); }
    }
  }

  /** `(1 << n) - 1` has exactly the low n bits. */
  lemma {:induction false} OnesBit(n: nat, i: nat)
    ensures Bit(Exp2(n) - 1, i) == (i < n)
  {
    if n == 0 {
      ZeroBit(i);
    } else if i > 0 {
      assert (Exp2(n) - 1) / 2 == Exp2(n - 1) - 1;
      OnesBit(n - 1, i - 1);
    }
  }

  /** Complementing the low `n` bits. */
  lemma {:induction false} ComplementBit(m: nat, n: nat, i: nat)
    requires m < Exp2(n) && i < n
    ensures Bit(Exp2(n) - 1 - m, i) == !Bit(m, i)
  {
    if i > 0 {
      assert (Exp2(n) - 1 - m) / 2 == Exp2(n - 1) - 1 - m / 2;
      ComplementBit(m / 2, n - 1, i - 1);
    }
  }

  lemma {:induction false} SmallHasNoHighBits(x: nat, n: nat, i: nat)
    requires x < Exp2(n) && i >= n
    ensures !Bit(x, i)
  {
    if n == 0 {
      ZeroBit(i);
    } else {
      SmallHasNoHighBits(x / 2, n - 1, i - 1);
    }
  }

  lemma {:induction false} NoHighBitsIsSmall(x: nat, n: nat)
    requires forall i :: i >= n ==> !Bit(x, i)
    ensures x < Exp2(n)
    decreases x
  {
    if x > 0 && n > 0 {
      forall i | i >= n - 1 ensures !Bit(x / 2, i) { assert Bit(x / 2, i) == Bit(x, i + 1); }
      NoHighBitsIsSmall(x / 2, n - 1);
    } else if x > 0 {
      var i := SomeBit(x);
      assert false;
    }
  }

  lemma {:induction false} SomeBit(x: nat) returns (i: nat)
    requires x > 0
    ensures Bit(x, i)
  {
    if x % 2 == 1 {
      i := 0;
    } else {
      i := SomeBit(x / 2);
      i := i + 1;
    }
  }

  /** A natural is determined by its bits. */
  lemma {:induction false} SameBits(x: nat, y: nat)
    requires forall i: nat :: Bit(x, i) == Bit(y, i)
    ensures x == y
    decreases x + y
  {
    assert Bit(x, 0) == Bit(y, 0);
    if x > 0 || y > 0 {
      forall i: nat ensures Bit(x / 2, i) == Bit(y / 2, i) {
        assert Bit(x, i + 1) == Bit(y, i + 1);
      }
      SameBits(x / 2, y / 2);
    }
  }

  // ----- powers of two

  lemma {:induction false} Exp2Grows(m: nat, n: nat)
    requires m <= n
    ensures Exp2(m) <= Exp2(n) && (m < n ==> 2 * Exp2(m) <= Exp2(n))
  {
    if m < n { Exp2Grows(m, n - 1); }
  }

  lemma {:induction false} ShlOfExp2(m: nat, k: nat)
    ensures Shl(Exp2(m), k) == Exp2(m + k)
  {
    if k > 0 { ShlOfExp2(m, k - 1); }
  }

  lemma {:induction false} ShlGrows(x: nat, y: nat, k: nat)
    ensures x <= y ==> Shl(x, k) <= Shl(y, k)
    ensures x < y ==> Shl(x, k) < Shl(y, k)
  {
    if k > 0 { ShlGrows(x, y, k - 1); }
  }

  /** The highest set bit brackets a number. */
  lemma HighestBit(x: nat, i: nat)
    requires Bit(x, i) && forall j: nat :: j > i ==> !Bit(x, j)
    ensures Exp2(i) <= x < Exp2(i + 1)
  {
    NoHighBitsIsSmall(x, i + 1);
    BitIsLarge(x, i);
  }

  /** A number with a single set bit is a power of two. */
  lemma OnlyBit(x: nat, i: nat)
    requires forall j: nat :: Bit(x, j) == (j == i)
    ensures x == Exp2(i)
  {
    forall j: nat ensures Bit(x, j) == Bit(Exp2(i), j) { Exp2Bit(i, j); }
    SameBits(x, Exp2(i));
  }

  lemma {:induction false} BitIsLarge(x: nat, i: nat)
    requires Bit(x, i)
    ensures x >= Exp2(i)
  {
    if i > 0 { BitIsLarge(x / 2, i - 1); }
  }

  lemma {:induction false} Exp2Bit(n: nat, i: nat)
    ensures Bit(Exp2(n), i) == (i == n)
  {
    if n == 0 && i > 0 {
      ZeroBit(i - 1);
    } else if n > 0 && i > 0 {
      Exp2Bit(n - 1, i - 1);
    }
  }
}
