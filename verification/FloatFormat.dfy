/**
 `arm-dis/floatformat.c`: fields of floating-point numbers stored in bytes of either order, and
 the validator of the IBM long double (a sum of two doubles).
 */
module FloatFormat {
  import opened BinaryArithmetic
  import opened LittleEndian
  import opened BitFields
  import opened Sequences

  /** Orders other than little-endian are all walked from the last byte backwards. */
  datatype ByteOrder = Little | Big

  /** The index of the byte that holds bits 8k to 8k+7 of an n-byte number. */
  function ByteIndex(n: nat, order: ByteOrder, k: nat): (i: nat)
    requires k < n
    ensures i < n
  {
    if order.Little? then k else n - 1 - k
  }

  /** Bit `i` of the number, counted from its least significant bit. */
  predicate BitOf(data: seq<byte>, order: ByteOrder, i: nat)
    requires i < 8 * |data|
  {
    Bit(data[ByteIndex(|data|, order, i / 8)], i % 8)
  }

  /** The integer that the bytes denote. */
  function Value(data: seq<byte>, order: ByteOrder): nat {
    Decode(if order.Little? then data else Reverse(data))
  }

  lemma {:induction false} DecodeBit(s: seq<byte>, i: nat)
    requires i < 8 * |s|
    ensures Bit(Decode(s), i) == Bit(s[i / 8], i % 8)
  {
    var rest := Decode(s[1..]);
    assert Decode(s) == s[0] + 0x100 * rest;
    if i < 8 {
      LowByteBit(s[0], rest, i);
    } else {
      HighByteBit(s[0], rest, i);
      DecodeBit(s[1..], i - 8);
    }
  }

  lemma LowByteBit(b: byte, rest: nat, i: nat)
    requires i < 8
    ensures Bit(b + 0x100 * rest, i) == Bit(b, i)
  {
    ByteShift(b, rest, i, 0x100, 8);
  }

  /** Adding a multiple of 2^n does not change the bits below n. */
  lemma {:induction false} ByteShift(b: nat, rest: nat, i: nat, p: nat, n: nat)
    requires p == Exp2(n) && i < n
    ensures Bit(b + p * rest, i) == Bit(b, i)
  {
    MulAssociates(2, Exp2(n - 1), rest);
    assert p * rest == 2 * (Exp2(n - 1) * rest);
    if i > 0 {
      assert (b + p * rest) / 2 == b / 2 + Exp2(n - 1) * rest;
      ByteShift(b / 2, rest, i - 1, Exp2(n - 1), n - 1);
    }
  }

  lemma {:induction false} HighByteBit(b: byte, rest: nat, i: nat)
    requires i >= 8
    ensures Bit(b + 0x100 * rest, i) == Bit(rest, i - 8)
  {
    hide Bit;
    ShiftedOut(b, rest, 0x100, 8);
    ShrBit(b + 0x100 * rest, 8, i - 8);
  }

  /** Shifting by n drops what is below 2^n. */
  lemma {:induction false} ShiftedOut(b: nat, rest: nat, p: nat, n: nat)
    requires p == Exp2(n) && b < p
    ensures Shr(b + p * rest, n) == rest
  {
    if n > 0 {
      MulAssociates(2, Exp2(n - 1), rest);
      assert p * rest == 2 * (Exp2(n - 1) * rest);
      assert (b + p * rest) / 2 == b / 2 + Exp2(n - 1) * rest;
      ShiftedOut(b / 2, rest, Exp2(n - 1), n - 1);
    }
  }

  lemma ValueBit(data: seq<byte>, order: ByteOrder, i: nat)
    requires i < 8 * |data|
    ensures Bit(Value(data, order), i) == BitOf(data, order, i)
  {
    DecodeBit(if order.Little? then data else Reverse(data), i);
  }

  // ----- fields

  /** The field of `len` bits that starts at `start`, counted from the most significant bit. */
  predicate IsField(data: seq<byte>, start: nat, len: nat) {
    1 <= len <= 32 && start + len <= 8 * |data|
  }

  /** The position of the field's lowest bit, counted from the least significant bit. */
  function LowestBit(n: nat, start: nat, len: nat): nat
    requires start + len <= 8 * n
  {
    8 * n - (start + len)
  }

  /** The bits of the value from the field's lowest bit on. */
  function FieldOf(v: nat, lowest: nat, len: nat): nat {
    Low(Shr(v, lowest), len)
  }

  lemma FieldOfBit(v: nat, lowest: nat, len: nat, j: nat)
    ensures Bit(FieldOf(v, lowest, len), j) == (j < len && Bit(v, lowest + j))
  {
    LowBit(Shr(v, lowest), len, j);
    ShrBit(v, lowest, j);
  }

  /** A field is the slice of the value: shift right by its position, take the remainder. */
  lemma FieldIsSlice(v: nat, lowest: nat, len: nat)
    ensures FieldOf(v, lowest, len) == v / Exp2(lowest) % Exp2(len)
  {
    ShrIsQuotient(v, lowest);
    ShrIsQuotient(Shr(v, lowest), len);
  }

  /** The lowest `count` bits of `r` are the bits of the number from `s` on; it has no others. */
  ghost predicate Gathered(data: seq<byte>, order: ByteOrder, s: nat, count: nat, r: nat)
    requires s + count <= 8 * |data|
  {
    forall j: nat :: Bit(r, j) == (j < count && BitOf(data, order, s + j))
  }

  /** get_field */
  method GetField(data: seq<byte>, order: ByteOrder, start: nat, len: nat) returns (result: nat)
    requires IsField(data, start, len)
    ensures result == FieldOf(Value(data, order), LowestBit(|data|, start, len), len)
  {
    hide Gathered, Bit, Shr, Shl, Or, And;
    var total := 8 * |data|;
    var low := total - (start + len);
    ghost var s := low;
    var curByte: int := if order.Little? then low / 8 else (total - low - 1) / 8;
    var step := if order.Little? then 1 else -1;
    var loBit := low % 8;
    var hiBit := if loBit + len < 8 then loBit + len else 8;
    var left, shift := len, 0;
    result := 0;
    NothingGathered(data, order, s);
    while true
      invariant 1 <= left <= len && shift + left == len && 0 <= loBit < 8
      invariant hiBit == if loBit + left < 8 then loBit + left else 8
      invariant (s + shift) % 8 == loBit && curByte == ByteIndex(|data|, order, (s + shift) / 8)
      invariant Gathered(data, order, s, shift, result)
      decreases left
    {
      var shifted := Shr(data[curByte], loBit);
      var bits := hiBit - loBit;
      var mask := Shl(1, bits) - 1;
      PieceGathered(data, order, s, shift, bits, result);
      result := Or(result, Shl(And(shifted, mask), shift));
      left := left - bits;
      shift := shift + bits;
      if left == 0 {
        break;
      }
      curByte := curByte + step;
      loBit := 0;
      hiBit := if left < 8 then left else 8;
    }
    GatheredIsField(data, order, s, len, result);
  }

  lemma NothingGathered(data: seq<byte>, order: ByteOrder, s: nat)
    requires s <= 8 * |data|
    ensures Gathered(data, order, s, 0, 0)
  {
    forall j: nat ensures !Bit(0, j) { ZeroBit(j); }
  }

  lemma GatheredIsField(data: seq<byte>, order: ByteOrder, s: nat, len: nat, r: nat)
    requires s + len <= 8 * |data| && Gathered(data, order, s, len, r)
    ensures r == FieldOf(Value(data, order), s, len)
  {
    forall j: nat ensures Bit(r, j) == Bit(FieldOf(Value(data, order), s, len), j) {
      FieldOfBit(Value(data, order), s, len, j);
      assert Bit(r, j) == (j < len && BitOf(data, order, s + j));
      if j < len { ValueBit(data, order, s + j); }
    }
    SameBits(r, FieldOf(Value(data, order), s, len));
  }

  /** One turn of get_field adds the bits of one byte. */
  lemma PieceGathered(data: seq<byte>, order: ByteOrder, s: nat, shift: nat, bits: nat, r: nat)
    requires s + shift + bits <= 8 * |data| && bits > 0 && (s + shift) % 8 + bits <= 8
    requires Gathered(data, order, s, shift, r)
    ensures var b := data[ByteIndex(|data|, order, (s + shift) / 8)];
            Gathered(data, order, s, shift + bits, Or(r, Shl(And(Shr(b, (s + shift) % 8), Shl(1, bits) - 1), shift)))
  {
    var b := data[ByteIndex(|data|, order, (s + shift) / 8)];
    var piece := And(Shr(b, (s + shift) % 8), Shl(1, bits) - 1);
    forall j: nat
      ensures Bit(Or(r, Shl(piece, shift)), j) == (j < shift + bits && BitOf(data, order, s + j))
    {
      OrBit(r, Shl(piece, shift), j);
      ShlBit(piece, shift, j);
      assert Bit(r, j) == (j < shift && BitOf(data, order, s + j));
      if j >= shift { PieceBit(data, order, s + shift, bits, j - shift); }
    }
  }

  lemma PieceBit(data: seq<byte>, order: ByteOrder, at: nat, bits: nat, k: nat)
    requires at + bits <= 8 * |data| && at % 8 + bits <= 8 && bits > 0
    ensures var b := data[ByteIndex(|data|, order, at / 8)];
            Bit(And(Shr(b, at % 8), Shl(1, bits) - 1), k) == (k < bits && BitOf(data, order, at + k))
  {
    hide And, Shr, Shl, Bit;
    var b := data[ByteIndex(|data|, order, at / 8)];
    ShlOfExp2(0, bits);
    AndBit(Shr(b, at % 8), Exp2(bits) - 1, k);
    OnesBit(bits, k);
    ShrBit(b, at % 8, k);
    if k < bits {
      assert (at + k) / 8 == at / 8 && (at + k) % 8 == at % 8 + k;
    }
  }

  // ----- storing fields

  /** `after` is `before` with the low bits of `x` stored from bit `s` on. */
  ghost predicate Replaced(before: seq<byte>, after: seq<byte>, order: ByteOrder, s: nat, len: nat, x: nat)
    requires s + len <= 8 * |before|
  {
    && |after| == |before|
    && forall i: nat :: i < 8 * |before| ==>
         BitOf(after, order, i) == if s <= i < s + len then Bit(x, i - s) else BitOf(before, order, i)
  }

  /** put_field */
  method PutField(data: array<byte>, order: ByteOrder, start: nat, len: nat, stuff: nat)
    requires IsField(data[..], start, len)
    modifies data
    ensures Replaced(old(data[..]), data[..], order, LowestBit(data.Length, start, len), len, stuff)
  {
    hide Replaced;
    var total := 8 * data.Length;
    var low := total - (start + len);
    ghost var s, was := low, data[..];
    var curByte: int := if order.Little? then low / 8 else (total - low - 1) / 8;
    var step := if order.Little? then 1 else -1;
    var loBit := low % 8;
    var hiBit := if loBit + len < 8 then loBit + len else 8;
    var left, toPut := len, stuff;
    ghost var shift := 0;
    NothingReplaced(was, order, s, stuff);
    assert toPut == Shr(stuff, shift);
    hide Bit, And, Or, Shl, Shr;
    while true
      invariant 1 <= left <= len && shift + left == len && 0 <= loBit < 8
      invariant hiBit == if loBit + left < 8 then loBit + left else 8
      invariant (s + shift) % 8 == loBit && curByte == ByteIndex(data.Length, order, (s + shift) / 8)
      invariant toPut == Shr(stuff, shift)
      invariant Replaced(was, data[..], order, s, shift, stuff)
      decreases left
    {
      var bits := hiBit - loBit;
      PutBits(data, order, s, shift, loBit, bits, curByte, toPut, was, stuff);
      ShrTwice(stuff, shift, bits);
      toPut := Shr(toPut, bits);
      left := left - bits;
      shift := shift + bits;
      if left == 0 {
        break;
      }
      curByte := curByte + step;
      loBit := 0;
      hiBit := if left < 8 then left else 8;
    }
  }

  /** One turn of put_field: the masked store into one byte. */
  method PutBits(data: array<byte>, ghost order: ByteOrder, ghost s: nat, ghost shift: nat, loBit: nat, bits: nat,
                 curByte: nat, toPut: nat, ghost was: seq<byte>, ghost x: nat)
    requires s + shift + bits <= 8 * data.Length == 8 * |was|
    requires 0 < bits && loBit == (s + shift) % 8 && loBit + bits <= 8
    requires curByte == ByteIndex(data.Length, order, (s + shift) / 8) && toPut == Shr(x, shift)
    requires Replaced(was, data[..], order, s, shift, x)
    modifies data
    ensures Replaced(was, data[..], order, s, shift + bits, x)
  {
    hide Replaced, Bit, And, Or, Shl, Shr;
    ghost var before := data[..];
    var mask := Shl(Shl(1, bits) - 1, loBit);
    ByteReplaced(data[curByte], toPut, loBit, bits);
    data[curByte] := Or(And(data[curByte], Not8(mask)), And(Shl(toPut, loBit), mask));
    PieceReplaced(was, before, data[..], order, s, shift, bits, x);
  }

  lemma NothingReplaced(data: seq<byte>, order: ByteOrder, s: nat, x: nat)
    requires s <= 8 * |data|
    ensures Replaced(data, data, order, s, 0, x)
  {
  }

  lemma {:induction false} ShrTwice(x: nat, a: nat, b: nat)
    ensures Shr(Shr(x, a), b) == Shr(x, a + b)
  {
    if a > 0 { ShrTwice(x / 2, a - 1, b); }
  }

  lemma MaskIsSmall(bits: nat, lo: nat)
    requires 0 < bits && lo + bits <= 8
    ensures Shl(Shl(1, bits) - 1, lo) < 0x100
  {
    ShlOfExp2(0, bits);
    ShlOfExp2(bits, lo);
    ShlGrows(Exp2(bits) - 1, Exp2(bits), lo);
    Exp2Grows(lo + bits, 8);
    assert Exp2(8) == 0x100;
  }

  /** The masked byte has the new bits from `lo` on and the old ones elsewhere. */
  lemma ByteReplaced(b: byte, x: nat, lo: nat, bits: nat)
    requires 0 < bits && lo + bits <= 8
    ensures var mask := Shl(Shl(1, bits) - 1, lo);
            mask < 0x100
            && (var r := Or(And(b, Not8(mask)), And(Shl(x, lo), mask));
                r < 0x100
                && forall i: nat :: i < 8 ==> Bit(r, i) == if lo <= i < lo + bits then Bit(x, i - lo) else Bit(b, i))
  {
    MaskIsSmall(bits, lo);
    var mask := Shl(Shl(1, bits) - 1, lo);
    var r := Or(And(b, Not8(mask)), And(Shl(x, lo), mask));
    forall i: nat | i < 8 ensures Bit(r, i) == if lo <= i < lo + bits then Bit(x, i - lo) else Bit(b, i) {
      MaskBit(bits, lo, i);
      NewBit(b, x, lo, mask, i);
    }
    forall i: nat | i >= 8 ensures !Bit(r, i) {
      NoHighBit(b, x, lo, mask, i);
    }
    NoHighBitsIsSmall(r, 8);
    assert Exp2(8) == 0x100;
  }

  lemma MaskBit(bits: nat, lo: nat, i: nat)
    ensures Shl(1, bits) - 1 >= 0
    ensures Bit(Shl(Shl(1, bits) - 1, lo), i) == (lo <= i < lo + bits)
  {
    ShlOfExp2(0, bits);
    ShlBit(Shl(1, bits) - 1, lo, i);
    if i >= lo { OnesBit(bits, i - lo); }
  }

  lemma NewBit(b: byte, x: nat, lo: nat, mask: nat, i: nat)
    requires mask < 0x100 && i < 8 && (Bit(mask, i) ==> lo <= i)
    ensures Bit(Or(And(b, Not8(mask)), And(Shl(x, lo), mask)), i) == if Bit(mask, i) then Bit(x, i - lo) else Bit(b, i)
  {
    OrBit(And(b, Not8(mask)), And(Shl(x, lo), mask), i);
    AndBit(b, Not8(mask), i);
    AndBit(Shl(x, lo), mask, i);
    ShlBit(x, lo, i);
    assert Exp2(8) == 0x100;
    ComplementBit(mask, 8, i);
  }

  lemma NoHighBit(b: byte, x: nat, lo: nat, mask: nat, i: nat)
    requires mask < 0x100 && i >= 8
    ensures !Bit(Or(And(b, Not8(mask)), And(Shl(x, lo), mask)), i)
  {
    OrBit(And(b, Not8(mask)), And(Shl(x, lo), mask), i);
    AndBit(b, Not8(mask), i);
    AndBit(Shl(x, lo), mask, i);
    assert Exp2(8) == 0x100;
    SmallHasNoHighBits(b, 8, i);
    SmallHasNoHighBits(mask, 8, i);
  }

  /** One turn of put_field replaces the bits of one byte. */
  lemma PieceReplaced(was: seq<byte>, before: seq<byte>, after: seq<byte>, order: ByteOrder, s: nat, shift: nat,
      bits: nat, x: nat)
    requires s + shift + bits <= 8 * |was| && 0 < bits && (s + shift) % 8 + bits <= 8
    requires Replaced(was, before, order, s, shift, x) && |after| == |was|
    requires var k := ByteIndex(|was|, order, (s + shift) / 8); var lo := (s + shift) % 8;
             && (forall j :: 0 <= j < |was| && j != k ==> after[j] == before[j])
             && (forall i: nat :: i < 8 ==>
                   Bit(after[k], i) == if lo <= i < lo + bits then Bit(Shr(x, shift), i - lo) else Bit(before[k], i))
    ensures Replaced(was, after, order, s, shift + bits, x)
  {
    hide Shr, Bit;
    var at := s + shift;
    forall i: nat | i < 8 * |was|
      ensures BitOf(after, order, i) == if s <= i < s + (shift + bits) then Bit(x, i - s) else BitOf(was, order, i)
    {
      assert BitOf(before, order, i) == if s <= i < s + shift then Bit(x, i - s) else BitOf(was, order, i);
      if i / 8 == at / 8 {
        var lo := at % 8;
        assert i - at == i % 8 - lo;
        if lo <= i % 8 < lo + bits { ShrBit(x, shift, i % 8 - lo); }
      } else {
        assert ByteIndex(|was|, order, i / 8) != ByteIndex(|was|, order, at / 8);
      }
    }
  }

  /** get_field after put_field of the same field returns the value mod 2^len. */
  lemma GetAfterPut(before: seq<byte>, after: seq<byte>, order: ByteOrder, s: nat, len: nat, x: nat)
    requires s + len <= 8 * |before| && Replaced(before, after, order, s, len, x)
    ensures FieldOf(Value(after, order), s, len) == x % Exp2(len)
  {
    forall j: nat ensures Bit(FieldOf(Value(after, order), s, len), j) == Bit(Low(x, len), j) {
      FieldOfBit(Value(after, order), s, len, j);
      LowBit(x, len, j);
      if j < len {
        ValueBit(after, order, s + j);
        assert BitOf(after, order, s + j) == Bit(x, s + j - s);
      }
    }
    SameBits(FieldOf(Value(after, order), s, len), Low(x, len));
    ShrIsQuotient(x, len);
  }

  /** put_field leaves every disjoint field alone. */
  lemma DisjointFieldKept(before: seq<byte>, after: seq<byte>, order: ByteOrder, s: nat, len: nat, x: nat, s': nat,
      len': nat)
    requires s + len <= 8 * |before| && Replaced(before, after, order, s, len, x)
    requires s' + len' <= 8 * |before| && (s' + len' <= s || s + len <= s')
    ensures FieldOf(Value(after, order), s', len') == FieldOf(Value(before, order), s', len')
  {
    var f, g := FieldOf(Value(after, order), s', len'), FieldOf(Value(before, order), s', len');
    forall j: nat ensures Bit(f, j) == Bit(g, j) {
      FieldOfBit(Value(after, order), s', len', j);
      FieldOfBit(Value(before, order), s', len', j);
      if j < len' {
        ValueBit(after, order, s' + j);
        ValueBit(before, order, s' + j);
      }
    }
    SameBits(f, g);
  }

  // ----- the mantissa

  datatype Format = Format(order: ByteOrder, totalSize: nat, signStart: nat, expStart: nat, expLen: nat, expNan: nat,
      manStart: nat, manLen: nat)

  /** mant_bits_set: whether any bit of the mantissa is set, 32 bits at a time. */
  method MantBitsSet(fmt: Format, data: seq<byte>) returns (any: bool)
    requires fmt.totalSize == 8 * |data| && fmt.manStart + fmt.manLen <= fmt.totalSize
    ensures any == (FieldOf(Value(data, fmt.order), LowestBit(|data|, fmt.manStart, fmt.manLen), fmt.manLen) != 0)
  {
    var off, left := fmt.manStart, fmt.manLen;
    ghost var v := Value(data, fmt.order);
    while left > 0
      invariant off + left == fmt.manStart + fmt.manLen && fmt.manStart <= off
      invariant forall i: nat :: LowestBit(|data|, off, left) + left <= i < 8 * |data| - fmt.manStart ==> !Bit(v, i)
      decreases left
    {
      var bits := if left < 32 then left else 32;
      var field := GetField(data, fmt.order, off, bits);
      var s := 8 * |data| - (off + bits);
      if field != 0 {
        NonzeroField(v, s, bits, LowestBit(|data|, fmt.manStart, fmt.manLen), fmt.manLen);
        return true;
      }
      ZeroField(v, s, bits);
      off := off + bits;
      left := left - bits;
    }
    AllBitsClear(v, LowestBit(|data|, fmt.manStart, fmt.manLen), fmt.manLen);
    return false;
  }

  lemma NonzeroField(v: nat, s: nat, len: nat, s': nat, len': nat)
    requires FieldOf(v, s, len) != 0 && s' <= s && s + len <= s' + len'
    ensures FieldOf(v, s', len') != 0
  {
    var j := SomeBit(FieldOf(v, s, len));
    FieldOfBit(v, s, len, j);
    FieldOfBit(v, s', len', s + j - s');
    ZeroBit(s + j - s');
  }

  lemma ZeroField(v: nat, s: nat, len: nat)
    requires FieldOf(v, s, len) == 0
    ensures forall i: nat :: s <= i < s + len ==> !Bit(v, i)
  {
    forall i: nat | s <= i < s + len ensures !Bit(v, i) {
      FieldOfBit(v, s, len, i - s);
      ZeroBit(i - s);
    }
  }

  lemma AllBitsClear(v: nat, s: nat, len: nat)
    requires forall i: nat :: s <= i < s + len ==> !Bit(v, i)
    ensures FieldOf(v, s, len) == 0
  {
    if FieldOf(v, s, len) != 0 {
      var j := SomeBit(FieldOf(v, s, len));
      FieldOfBit(v, s, len, j);
    }
  }

  // ----- the IBM long double

  /** The format of each half: an IEEE double, big-endian. */
  const IEEE_DOUBLE_BIG := Format(Big, 64, 0, 1, 11, 2047, 12, 52)

  /** Biased exponent and mantissa of a double. */
  datatype Double = Double(exp: nat, man: nat)

  function DoubleOf(half: seq<byte>): Double
    requires |half| == 8
  {
    Double(FieldOf(Value(half, Big), 52, 11), FieldOf(Value(half, Big), 0, 52))
  }

  /** The magnitude of a finite double, in units of 2^-1076. */
  function Magnitude(d: Double): nat {
    if d.exp == 0 then Shl(d.man, 2) else Shl(Exp2(52) + d.man, d.exp + 1)
  }

  /** Half a unit in the last place of a normal double, in the same units. */
  function HalfUlp(d: Double): nat {
    Exp2(d.exp)
  }

  /** The valid pairs, by units in the last place of the top half. */
  predicate ValidPair(top: Double, bottom: Double) {
    if top.exp == 2047 && top.man != 0 then true
    else if top.exp == 2047 || top.exp == 0 then bottom.exp == 0 && bottom.man == 0
    else
      || Magnitude(bottom) < HalfUlp(top)
      || (Magnitude(bottom) == HalfUlp(top) && top.man % 2 == 0)
  }

  /** The exponent and the position of the two highest mantissa bits decide. */
  lemma NormalBottom(top: Double, bottom: Double)
    requires 0 < top.exp && 0 < bottom.exp && bottom.man < Exp2(52)
    ensures bottom.exp + 53 < top.exp ==> Magnitude(bottom) < HalfUlp(top)
    ensures bottom.exp + 53 > top.exp ==> Magnitude(bottom) > HalfUlp(top)
    ensures bottom.exp + 53 == top.exp ==> Magnitude(bottom) >= HalfUlp(top)
    ensures bottom.exp + 53 == top.exp ==> (Magnitude(bottom) == HalfUlp(top) <==> bottom.man == 0)
  {
    hide Exp2, Magnitude;
    NormalMagnitude(bottom);
    if bottom.exp + 54 <= top.exp { Exp2Grows(bottom.exp + 54, top.exp); }
    if top.exp < bottom.exp + 53 { Exp2Grows(top.exp, bottom.exp + 53); }
  }

  lemma NextExp2(n: nat)
    ensures Exp2(n + 1) == 2 * Exp2(n)
  {
  }

  lemma NormalMagnitude(d: Double)
    requires 0 < d.exp && d.man < Exp2(52)
    ensures Exp2(d.exp + 53) <= Magnitude(d) < Exp2(d.exp + 54)
    ensures Magnitude(d) == Exp2(d.exp + 53) <==> d.man == 0
  {
    var k := d.exp + 1;
    hide Shl, Exp2;
    NextExp2(52);
    ShlOfExp2(52, k);
    ShlOfExp2(53, k);
    ShlGrows(Exp2(52), Exp2(52) + d.man, k);
    ShlGrows(Exp2(52) + d.man, Exp2(53), k);
  }

  lemma DenormalBottom(top: Double, bottom: Double, first: nat)
    requires 0 < top.exp && bottom.exp == 0 && first < 52
    requires Bit(bottom.man, 51 - first) && ClearAbove(bottom.man, 51 - first)
    ensures 53 - first < top.exp ==> Magnitude(bottom) < HalfUlp(top)
    ensures 53 - first > top.exp ==> Magnitude(bottom) > HalfUlp(top)
    ensures 53 - first == top.exp ==> Magnitude(bottom) >= HalfUlp(top)
    ensures 53 - first == top.exp ==> (Magnitude(bottom) == HalfUlp(top) <==> bottom.man == Exp2(51 - first))
  {
    var i := 51 - first;
    HighestBit(bottom.man, i);
    ShlOfExp2(i, 2);
    ShlOfExp2(i + 1, 2);
    ShlGrows(Exp2(i), bottom.man, 2);
    ShlGrows(bottom.man, Exp2(i + 1), 2);
    if i + 3 <= top.exp { Exp2Grows(i + 3, top.exp); }
    if top.exp < i + 2 { Exp2Grows(top.exp, i + 2); }
  }

  lemma NoBottom(top: Double, bottom: Double)
    requires 0 < top.exp && bottom.exp == 0 && (bottom.man == 0 || (53 < top.exp && bottom.man < Exp2(52)))
    ensures Magnitude(bottom) < HalfUlp(top)
  {
    if bottom.man != 0 {
      ShlOfExp2(52, 2);
      ShlGrows(bottom.man, Exp2(52), 2);
      Exp2Grows(54, top.exp);
    }
  }

  /** The mantissa bit the validator looks at: `k` counts from the most significant one. */
  lemma MantissaBit(v: nat, k: nat)
    requires k < 52
    ensures FieldOf(v, 51 - k, 1) == if Bit(FieldOf(v, 0, 52), 51 - k) then 1 else 0
  {
    FieldOfBit(v, 51 - k, 1, 0);
    FieldOfBit(v, 0, 52, 51 - k);
    assert FieldOf(v, 51 - k, 1) == Shr(v, 51 - k) % 2 + 2 * Low(Shr(v, 51 - k) / 2, 0);
  }

  lemma MantissaIsSmall(v: nat)
    ensures FieldOf(v, 0, 52) < Exp2(52)
  {
    FieldIsSlice(v, 0, 52);
  }

  lemma LastBit(m: nat)
    ensures Bit(m, 0) == (m % 2 == 1)
  {
  }

  ghost predicate ClearAbove(m: nat, i: int) {
    forall j: nat :: j > i ==> !Bit(m, j)
  }

  ghost predicate ClearBetween(m: nat, lo: int, hi: int) {
    forall j: nat :: lo < j < hi ==> !Bit(m, j)
  }

  /** A highest bit with nothing below is all there is. */
  lemma OnlyBitSet(m: nat, i: nat)
    requires Bit(m, i) && ClearAbove(m, i)
    ensures ClearBetween(m, -1, i) <==> m == Exp2(i)
  {
    if ClearBetween(m, -1, i) {
      OnlyBit(m, i);
    } else if m == Exp2(i) {
      var j: nat :| j < i && Bit(m, j);
      Exp2Bit(i, j);
    }
  }

  lemma NoBitSet(m: nat)
    ensures ClearAbove(m, -1) <==> m == 0
  {
    if m != 0 {
      var i := SomeBit(m);
    } else {
      forall j: nat ensures !Bit(m, j) { ZeroBit(j); }
    }
  }

  lemma NothingAbove(half: seq<byte>)
    requires |half| == 8
    ensures ClearAbove(DoubleOf(half).man, 51)
  {
    var m := DoubleOf(half).man;
    MantissaIsSmall(Value(half, Big));
    forall j: nat | j >= 52 ensures !Bit(m, j) { SmallHasNoHighBits(m, 52, j); }
  }

  /** What looking at bit `i` adds. */
  lemma ScanBit(m: nat, i: nat)
    ensures ClearBetween(m, i - 1, i)
    ensures !Bit(m, i) && ClearAbove(m, i) ==> ClearAbove(m, i - 1)
    ensures forall hi {:trigger ClearBetween(m, i, hi)} :: !Bit(m, i) && ClearBetween(m, i, hi) ==>
      ClearBetween(m, i - 1, hi)
    ensures forall hi {:trigger ClearBetween(m, i, hi)} :: Bit(m, i) && i < hi ==> !ClearBetween(m, -1, hi)
  {
    if Bit(m, i) {
      forall hi | i < hi ensures !ClearBetween(m, -1, hi) {
        assert ClearBetween(m, -1, hi) ==> !Bit(m, i);
      }
    }
  }

  method MantissaBitSet(half: seq<byte>, k: nat) returns (on: bool)
    requires |half| == 8 && k < 52
    ensures on == Bit(DoubleOf(half).man, 51 - k)
  {
    var bit := GetField(half, Big, 12 + k, 1);
    MantissaBit(Value(half, Big), k);
    on := bit != 0;
  }

  /** The scan for the two highest set bits of the bottom mantissa; -1 for none. */
  method HighestMantissaBits(half: seq<byte>) returns (first: int, second: int)
    requires |half| == 8
    ensures -1 <= first < 52
    ensures first == -1 ==> DoubleOf(half).man == 0 && second == -1
    ensures first >= 0 ==> Bit(DoubleOf(half).man, 51 - first) && ClearAbove(DoubleOf(half).man, 51 - first)
    ensures first >= 0 ==> (second == -1 <==> DoubleOf(half).man == Exp2(51 - first))
  {
    hide *;
    ghost var m := DoubleOf(half).man;
    NothingAbove(half);
    first, second := -1, -1;
    var cur: nat := 0;
    while cur < 52
      invariant cur <= 52 && -1 <= first < cur && second == -1
      invariant first == -1 ==> ClearAbove(m, 51 - cur)
      invariant first >= 0 ==> Bit(m, 51 - first) && ClearAbove(m, 51 - first)
      invariant first >= 0 ==> ClearBetween(m, 51 - cur, 51 - first)
    {
      var bit := MantissaBitSet(half, cur);
      ScanBit(m, 51 - cur);
      if bit {
        if first == -1 {
          first := cur;
        } else {
          second := cur;
          OnlyBitSet(m, 51 - first);
          return;
        }
      }
      cur := cur + 1;
    }
    if first == -1 {
      NoBitSet(m);
    } else {
      OnlyBitSet(m, 51 - first);
    }
  }

  /** floatformat_ibm_long_double_is_valid */
  method IbmLongDoubleIsValid(from: seq<byte>) returns (valid: bool)
    requires |from| == 16
    ensures valid == ValidPair(DoubleOf(from[..8]), DoubleOf(from[8..]))
  {
    hide Magnitude, HalfUlp, Exp2, FieldOf, Value;
    var hfmt, high, low := IEEE_DOUBLE_BIG, from[..8], from[8..];
    ghost var top, bottom := DoubleOf(high), DoubleOf(low);
    MantissaIsSmall(Value(high, Big));
    MantissaIsSmall(Value(low, Big));
    var topExp: int := GetField(high, hfmt.order, hfmt.expStart, hfmt.expLen);
    var botExp: int := GetField(low, hfmt.order, hfmt.expStart, hfmt.expLen);
    var topNan := false;
    if topExp == hfmt.expNan {
      topNan := MantBitsSet(hfmt, high);
    }
    if topNan {
      return true;
    }
    if topExp == hfmt.expNan || topExp == 0 {
      if botExp != 0 {
        return false;
      }
      var any := MantBitsSet(hfmt, low);
      return !any;
    }
    if botExp > 0 { NormalBottom(top, bottom); } else if topExp > 53 { NoBottom(top, bottom); }
    if botExp < topExp - 53 {
      return true;
    }
    if botExp > topExp - 53 && botExp != 0 {
      return false;
    }
    var lastBit := GetField(high, hfmt.order, hfmt.manStart + hfmt.manLen - 1, 1);
    MantissaBit(Value(high, Big), 51);
    LastBit(top.man);
    if botExp == 0 {
      var first, second := HighestMantissaBits(low);
      if first == -1 {
        NoBottom(top, bottom);
        return true;
      }
      DenormalBottom(top, bottom, first);
      if -first < topExp - 53 {
        return true;
      }
      if -first > topExp - 53 {
        return false;
      }
      if second != -1 {
        return false;
      }
      return lastBit == 0;
    } else {
      if lastBit != 0 {
        return false;
      }
      var any := MantBitsSet(hfmt, low);
      return !any;
    }
  }
}
