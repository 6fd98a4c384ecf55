/**
 Numbers as text: the printers of `boot-axf/wlibc.c` and the parameter parser of
 `boot-axf/script.c`, which reads them back.
 */
module NumberText {
  import opened BinaryArithmetic

  const NUL: char := '\0'

  function Digit(d: nat): (c: char)
    requires d < 10
    ensures '0' <= c <= '9'
  {
    ('0' as int + d) as char
  }

  /** The decimal digits of a positive number, none for 0. */
  function Digits(n: nat): string {
    if n == 0 then "" else Digits(n / 10) + [Digit(n % 10)]
  }

  function DecText(n: nat): string {
    if n == 0 then "0" else Digits(n)
  }

  function SignedText(n: int): string {
    if n < 0 then "-" + DecText(-n) else DecText(n)
  }

  /** What int_to_string_dec prints: negating the smallest number overflows, so that only its
      sign comes out. */
  function PrintedText(n: int32): string {
    if n == -0x8000_0000 then "-" else SignedText(n)
  }

  lemma {:induction false} DigitCount(n: nat, limit: nat, k: nat)
    requires n < limit && limit == Pow10(k)
    ensures |Digits(n)| <= k
  {
    if n > 0 { DigitCount(n / 10, Pow10(k - 1), k - 1); }
  }

  function Pow16(k: nat): nat {
    if k == 0 then 1 else 16 * Pow16(k - 1)
  }

  function Pow10(k: nat): nat {
    if k == 0 then 1 else 10 * Pow10(k - 1)
  }

  lemma TenDigits(n: nat)
    requires n <= 0xFFFF_FFFF
    ensures |Digits(n)| <= 10
  {
    assert Pow10(2) == 100 && Pow10(4) == 10000 && Pow10(6) == 1000000 && Pow10(8) == 100000000;
    assert Pow10(10) == 10000000000;
    DigitCount(n, Pow10(10), 10);
  }

  /** A NUL-terminated string in a buffer. */
  predicate Holds(buf: seq<char>, text: string) {
    |text| < |buf| && buf[..|text|] == text && buf[|text|] == NUL
  }

  // ----- printing

  /** `digits` holds `text` backwards. */
  ghost predicate Backwards(digits: seq<char>, text: string) {
    |text| <= |digits| && forall j :: 0 <= j < |text| ==> digits[j] == text[|text| - 1 - j]
  }

  /** Copies `k` characters in reverse to `out` behind the first `at`, and ends the string. */
  method CopyReversed(digits: array<char>, k: nat, out: array<char>, at: nat, ghost text: string)
    requires digits != out && |text| == k && Backwards(digits[..], text) && at + k < out.Length
    modifies out
    ensures Holds(out[..], old(out[..at]) + text)
  {
    var to: nat, left := at, k - 1;
    while left >= 0
      invariant -1 <= left < k && to + left + 1 == at + k
      invariant forall i :: 0 <= i < at ==> out[i] == old(out[i])
      invariant forall i :: at <= i < to ==> out[i] == text[i - at]
    {
      out[to] := digits[..][left];
      to := to + 1;
      left := left - 1;
    }
    out[to] := NUL;
    assert out[..to] == old(out[..at]) + text;
  }

  /** The digit loop: the last digit comes first. */
  method LastDigitFirst(num0: nat, digits: array<char>) returns (k: nat)
    requires |Digits(num0)| <= digits.Length
    modifies digits
    ensures k == |Digits(num0)| && Backwards(digits[..], Digits(num0))
  {
    var num := num0;
    k := 0;
    ghost var done := "";
    while num > 0
      invariant Digits(num0) == Digits(num) + done && |done| == k && Backwards(digits[..], done)
    {
      assert Digits(num) == Digits(num / 10) + [Digit(num % 10)];
      digits[k] := Digit(num % 10);
      done := [digits[k]] + done;
      num := num / 10;
      k := k + 1;
    }
    assert Digits(num0) == done;
  }

  /** The common part of int_to_string_dec and Uint_to_string_dec: digits are produced from the
      last one, then copied in reverse. */
  method PrintDigits(num0: nat, negative: bool, out: array<char>)
    requires 0 < num0 <= 0xFFFF_FFFF && out.Length >= 12
    modifies out
    ensures Holds(out[..], (if negative then "-" else "") + Digits(num0))
  {
    TenDigits(num0);
    var digits := new char[12];
    var k := LastDigitFirst(num0, digits);
    var at: nat := 0;
    if negative {
      out[at] := '-';
      at := at + 1;
    }
    CopyReversed(digits, k, out, at, Digits(num0));
  }

  /** int_to_string_dec */
  method IntToStringDec(num: int32, out: array<char>)
    requires out.Length >= 12
    modifies out
    ensures Holds(out[..], PrintedText(num))
  {
    if num == 0 {
      out[0] := '0';
      out[1] := NUL;
      assert out[..1] == "0";
      return;
    }
    var value, negative := num, false;
    if num < 0 {
      negative := true;
      value := if num == -0x8000_0000 then num else -num;
    }
    if value > 0 {
      PrintDigits(value, negative, out);
    } else {
      out[0] := '-';
      out[1] := NUL;
      assert out[..1] == "-";
    }
  }

  /** Uint_to_string_dec */
  method UintToStringDec(num: word, out: array<char>)
    requires out.Length >= 12
    modifies out
    ensures Holds(out[..], DecText(num))
  {
    if num == 0 {
      out[0] := '0';
      out[1] := NUL;
      assert out[..1] == "0";
      return;
    }
    PrintDigits(num, false, out);
    assert "" + Digits(num) == Digits(num);
  }

  function HexDigit(d: nat, upper: bool): char
    requires d < 16
  {
    if d < 10 then Digit(d) else ((if upper then 'A' else 'a') as int + d - 10) as char
  }

  /** The low `k` hexadecimal digits. */
  function HexDigits(n: nat, k: nat, upper: bool): (s: string)
    ensures |s| == k
  {
    if k == 0 then "" else HexDigits(n / 16, k - 1, upper) + [HexDigit(n % 16, upper)]
  }

  function HexText(n: nat, x: char): string {
    ['0', x] + HexDigits(n, 8, x == 'X')
  }

  /** int_to_string_hex: always eight digits, behind '0' and the letter asked for. */
  method IntToStringHex(num: word, out: array<char>, x: char)
    requires out.Length >= 11
    modifies out
    ensures Holds(out[..], HexText(num, x))
  {
    var digits := new char[8];
    var n, k: nat := num, 0;
    ghost var done := "";
    while k < 8
      invariant k <= 8 && |done| == k && Backwards(digits[..], done)
      invariant HexDigits(num, 8, x == 'X') == HexDigits(n, 8 - k, x == 'X') + done
    {
      assert HexDigits(n, 8 - k, x == 'X') == HexDigits(n / 16, 8 - k - 1, x == 'X') + [HexDigit(n % 16, x == 'X')];
      digits[k] := HexDigit(n % 16, x == 'X');
      done := [digits[k]] + done;
      n := n / 16;
      k := k + 1;
    }
    out[0] := '0';
    out[1] := x;
    CopyReversed(digits, 8, out, 2, done);
  }

  // ----- parsing

  /** The character at `i` of a NUL-terminated string. */
  function At(s: string, i: nat): char {
    if i < |s| then s[i] else NUL
  }

  predicate IsDigit(c: char) {
    '0' <= c <= '9'
  }

  /** The value of a digit, -1 for another character. */
  function DigitValue(c: char, base: nat): int {
    if IsDigit(c) then c as int - '0' as int
    else if base == 16 && 'A' <= c <= 'F' then c as int - 'A' as int + 10
    else if base == 16 && 'a' <= c <= 'f' then c as int - 'a' as int + 10
    else -1
  }

  /** A parameter: a text (its size in words), or a number with the signs before and behind it. */
  datatype Param = Text(words: nat) | Number(value: word, sign: int, tail: int) | Invalid

  /** Digits up to the end, a sign, or a character that makes the number invalid; the value is
      kept modulo 2^32. */
  function Scan(s: string, base: nat, value: word, sign: int): Param {
    if s == [] then Number(value, sign, 1)
    else if DigitValue(s[0], base) >= 0 then
      Scan(s[1..], base, (DigitValue(s[0], base) + base * value) % 0x1_0000_0000, sign)
    else if s[0] == '+' then Number(value, sign, 1)
    else if s[0] == '-' then Number(value, sign, -1)
    else Invalid
  }

  function TextParam(s: string): Param {
    Text(((if |s| > 128 then 128 else |s|) + 3) / 4)
  }

  predicate IsX(c: char) {
    c == 'x' || c == 'X'
  }

  function ParamOf(s: string): Param {
    if At(s, 0) == '-' then
      if At(s, 1) == '0' then if IsX(At(s, 2)) then Scan(s[3..], 16, 0, -1) else TextParam(s)
      else if IsDigit(At(s, 1)) then Scan(s[1..], 10, 0, -1)
      else TextParam(s)
    else if At(s, 0) == '0' && IsX(At(s, 1)) then Scan(s[2..], 16, 0, 1)
    else if IsDigit(At(s, 0)) then Scan(s, 10, 0, 1)
    else TextParam(s)
  }

  /** ParseParamVal on a string without NUL characters. */
  method ParseParamVal(s: string) returns (p: Param)
    requires forall i :: 0 <= i < |s| ==> s[i] != NUL
    ensures p == ParamOf(s)
  {
    var at: nat, base, sign := 0, 0, 1;
    if At(s, 0) == '-' {
      sign := -1;
      if At(s, 1) == '0' {
        if At(s, 2) == 'x' || At(s, 2) == 'X' {
          at, base := 3, 16;
        }
      } else if '0' <= At(s, 1) <= '9' {
        at, base := 1, 10;
      }
    } else if At(s, 0) == '0' && (At(s, 1) == 'x' || At(s, 1) == 'X') {
      at, base := 2, 16;
    } else if '0' <= At(s, 0) <= '9' {
      base := 10;
    }
    if base == 0 {
      var len: nat := 0;
      while At(s, len) != NUL
        invariant len <= |s| && len <= 127
        decreases |s| - len
      {
        len := len + 1;
        if len > 127 {
          break;
        }
      }
      if len % 4 != 0 {
        len := len / 4 * 4 + 4;
      }
      return Text(len / 4);
    }
    p := ScanNumber(s, at, base, sign);
  }

  /** The digit loops of ParseParamVal. */
  method ScanNumber(s: string, start: nat, base: nat, sign: int) returns (p: Param)
    requires start <= |s| && (base == 10 || base == 16)
    requires forall i :: 0 <= i < |s| ==> s[i] != NUL
    ensures p == Scan(s[start..], base, 0, sign)
  {
    var at: nat, value: word := start, 0;
    while At(s, at) != NUL
      decreases |s| - at
      invariant start <= at <= |s| && Scan(s[start..], base, 0, sign) == Scan(s[at..], base, value, sign)
    {
      var d := DigitValue(s[at], base);
      assert s[at..][0] == s[at] && s[at..][1..] == s[at + 1..];
      if d >= 0 {
        value := (d + base * value) % 0x1_0000_0000;
        at := at + 1;
      } else if s[at] == '+' || s[at] == '-' {
        return Number(value, sign, if s[at] == '-' then -1 else 1);
      } else {
        return Invalid;
      }
    }
    p := Number(value, sign, 1);
  }

  // ----- what the texts mean

  /** The number that has these digits, the highest one first. */
  function InBase(base: nat, ds: seq<nat>): nat {
    if ds == [] then 0 else base * InBase(base, ds[..|ds| - 1]) + ds[|ds| - 1]
  }

  /** `text` has these digits, in letters of either case. */
  predicate Reads(text: string, ds: seq<nat>, base: nat) {
    && |text| == |ds| && base <= 16
    && forall i :: 0 <= i < |ds| ==> ds[i] < base && text[i] in ["0123456789abcdef"[ds[i]], "0123456789ABCDEF"[ds[i]]]
  }

  /** Decimal prints have the digits of the number, and no zero in front. */
  lemma {:induction false} DecimalText(n: nat) returns (ds: seq<nat>)
    ensures Reads(DecText(n), ds, 10) && InBase(10, ds) == n && ds != [] && (ds[0] == 0 ==> n == 0)
  {
    DigitIs(n % 10);
    if n < 10 {
      ds := [n];
      OneDigit(n);
    } else {
      hide Digit;
      var front := DecimalText(n / 10);
      ds := front + [n % 10];
      assert ds[..|front|] == front;
    }
  }

  lemma DigitIs(d: nat)
    requires d < 10
    ensures Digit(d) == "0123456789abcdef"[d]
  {
  }

  lemma OneDigit(n: nat)
    requires n < 10
    ensures DecText(n) == [Digit(n)] && InBase(10, [n]) == n
  {
    assert n > 0 ==> Digits(n) == Digits(0) + [Digit(n)];
    assert [n][..0] == [] && InBase(10, []) == 0;
  }

  /** Hexadecimal prints have eight digits, in the case of their letter. */
  lemma HexadecimalText(n: word, x: char) returns (ds: seq<nat>)
    ensures |ds| == 8 && InBase(16, ds) == n && HexText(n, x)[..2] == ['0', x] && |HexText(n, x)| == 10
    ensures forall i :: 0 <= i < 8 ==>
      ds[i] < 16 && HexText(n, x)[2 + i] == (if x == 'X' then "0123456789ABCDEF" else "0123456789abcdef")[ds[i]]
  {
    assert Pow16(2) == 0x100 && Pow16(4) == 0x1_0000 && Pow16(6) == 0x100_0000 && Pow16(8) == 0x1_0000_0000;
    ds := HexDigitsRead(n, 8, x == 'X');
  }

  lemma {:induction false} HexDigitsRead(n: nat, k: nat, upper: bool) returns (ds: seq<nat>)
    requires n < Pow16(k)
    ensures |ds| == k && InBase(16, ds) == n
    ensures forall i :: 0 <= i < k ==>
      ds[i] < 16 && HexDigits(n, k, upper)[i] == (if upper then "0123456789ABCDEF" else "0123456789abcdef")[ds[i]]
  {
    ds := [];
    if k > 0 {
      var front := HexDigitsRead(n / 16, k - 1, upper);
      ds := front + [n % 16];
      assert ds[..|front|] == front;
    }
  }

  /** The text of a number: perhaps a minus, "0x" before hexadecimal digits, the digits, and what is
      behind them. A negative decimal number does not start with a zero. */
  predicate IsNumber(s: string, minus: bool, hex: string, digits: string, ds: seq<nat>, rest: string) {
    && s == (if minus then "-" else "") + hex + digits + rest
    && hex in ["", "0x", "0X"] && Reads(digits, ds, if hex == "" then 10 else 16)
    && (hex == "" ==> digits != "" && (minus ==> ds[0] != 0))
  }

  /** A number is read in its base, modulo 2^32, up to the end or a sign, which is noted as the sign
      in front is. */
  lemma NumberRead(s: string, minus: bool, hex: string, digits: string, ds: seq<nat>, rest: string)
    requires IsNumber(s, minus, hex, digits, ds, rest) && (rest == "" || rest[0] == '+' || rest[0] == '-')
    ensures ParamOf(s) == Number(InBase(if hex == "" then 10 else 16, ds) % 0x1_0000_0000, if minus then -1 else 1,
                                 if rest != "" && rest[0] == '-' then -1 else 1)
  {
    hide Scan, InBase;
    ScansFrom(s, minus, hex, digits, ds, rest);
    RestScanned(rest, if hex == "" then 10 else 16, InBase(if hex == "" then 10 else 16, ds) % 0x1_0000_0000,
                if minus then -1 else 1);
  }

  /** Any other character behind the digits makes the number invalid. */
  lemma OtherCharacterBehind(s: string, minus: bool, hex: string, digits: string, ds: seq<nat>, rest: string)
    requires IsNumber(s, minus, hex, digits, ds, rest) && rest != "" && rest[0] != '+' && rest[0] != '-'
    requires DigitValue(rest[0], if hex == "" then 10 else 16) < 0
    requires !minus && hex == "" && digits == "0" ==> rest[0] != 'x' && rest[0] != 'X'
    ensures ParamOf(s) == Invalid
  {
    hide InBase;
    ScansFrom(s, minus, hex, digits, ds, rest);
  }

  lemma ScansFrom(s: string, minus: bool, hex: string, digits: string, ds: seq<nat>, rest: string)
    requires IsNumber(s, minus, hex, digits, ds, rest)
    requires rest != "" ==> DigitValue(rest[0], if hex == "" then 10 else 16) < 0
    requires !minus && hex == "" && digits == "0" && rest != "" ==> rest[0] != 'x' && rest[0] != 'X'
    ensures var base := if hex == "" then 10 else 16;
            ParamOf(s) == Scan(rest, base, InBase(base, ds) % 0x1_0000_0000, if minus then -1 else 1)
  {
    hide Scan, InBase, Reads;
    var base, sign := if hex == "" then 10 else 16, if minus then -1 else 1;
    DigitsScanned(digits, ds, rest, base, sign);
    ReadsAt(digits, ds, base, 0);
    ReadsAt(digits, ds, base, 1);
    var front := (if minus then 1 else 0) + |hex|;
    assert s[front..] == digits + rest;
    if hex == "" {
      assert s[front] == digits[0];
      if !minus && |s| > 1 { assert s[1] == if |digits| > 1 then digits[1] else rest[0]; }
    } else {
      assert s[front - 2] == hex[0] && s[front - 1] == hex[1];
    }
  }

  lemma RestScanned(rest: string, base: nat, value: word, sign: int)
    requires rest == "" || rest[0] == '+' || rest[0] == '-'
    ensures Scan(rest, base, value, sign) == Number(value, sign, if rest != "" && rest[0] == '-' then -1 else 1)
  {
  }

  lemma {:induction false} DigitsScanned(digits: string, ds: seq<nat>, rest: string, base: nat, sign: int)
    requires (base == 10 || base == 16) && Reads(digits, ds, base)
    ensures Scan(digits + rest, base, 0, sign) == Scan(rest, base, InBase(base, ds) % 0x1_0000_0000, sign)
    decreases |ds|
  {
    hide Reads, DigitValue;
    if ds == [] {
      ReadsSplit(digits, ds, base);
      assert digits + rest == rest;
    } else {
      ReadsSplit(digits, ds, base);
      var n := |ds| - 1;
      var more := [digits[n]] + rest;
      assert digits + rest == digits[..n] + more && more[1..] == rest;
      DigitsScanned(digits[..n], ds[..n], more, base, sign);
      NextDigit(InBase(base, ds[..n]), base, ds[n]);
    }
  }

  lemma ReadsAt(digits: string, ds: seq<nat>, base: nat, i: nat)
    requires (base == 10 || base == 16) && Reads(digits, ds, base)
    ensures |digits| == |ds| && (i < |ds| ==> DigitValue(digits[i], base) == ds[i])
  {
    hide DigitValue;
    if i < |ds| { DigitRead(digits[i], ds[i], base); }
  }

  lemma ReadsSplit(digits: string, ds: seq<nat>, base: nat)
    requires (base == 10 || base == 16) && Reads(digits, ds, base)
    ensures |digits| == |ds|
    ensures ds != [] ==>
      Reads(digits[..|ds| - 1], ds[..|ds| - 1], base) && DigitValue(digits[|ds| - 1], base) == ds[|ds| - 1]
  {
    hide DigitValue;
    if ds != [] { DigitRead(digits[|ds| - 1], ds[|ds| - 1], base); }
  }

  lemma DigitRead(c: char, d: nat, base: nat)
    requires (base == 10 || base == 16) && d < base
    requires c in ["0123456789abcdef"[d], "0123456789ABCDEF"[d]]
    ensures DigitValue(c, base) == d
  {
  }

  lemma NextDigit(v: nat, base: nat, d: nat)
    requires base == 10 || base == 16
    ensures (d + base * (v % 0x1_0000_0000)) % 0x1_0000_0000 == (base * v + d) % 0x1_0000_0000
  {
    var k, r := v / 0x1_0000_0000, v % 0x1_0000_0000;
    assert v == 0x1_0000_0000 * k + r;
    if base == 10 {
      AddMultiple(d + 10 * r, 10 * k);
    } else {
      AddMultiple(d + 16 * r, 16 * k);
    }
  }

  lemma AddMultiple(x: nat, k: nat)
    ensures (0x1_0000_0000 * k + x) % 0x1_0000_0000 == x % 0x1_0000_0000
  {
    RemainderIs(0x1_0000_0000 * k + x, 0x1_0000_0000, k + x / 0x1_0000_0000, x % 0x1_0000_0000);
  }

  /** What does not start like a number is a text, and counts in words of four characters. */
  lemma TextRead(s: string)
    requires s == "" || s[0] < '0' || s[0] > '9'
    requires |s| > 1 && s[0] == '-' ==> s[1] < '1' || s[1] > '9'
    requires |s| > 2 && s[..2] == "-0" ==> s[2] != 'x' && s[2] != 'X'
    ensures ParamOf(s) == Text(((if |s| > 128 then 128 else |s|) + 3) / 4)
  {
  }

  // ----- reading back

  /** Every unsigned number printed in decimal is parsed back. */
  lemma UnsignedRoundTrip(n: word)
    ensures ParamOf(DecText(n)) == Number(n, 1, 1)
  {
    hide ParamOf, DecText, InBase;
    var ds := DecimalText(n);
    assert DecText(n) == "" + "" + DecText(n) + "";
    NumberRead(DecText(n), false, "", DecText(n), ds, "");
  }

  /** A signed number is parsed back from its print exactly when it is not the smallest one. */
  lemma SignedRoundTrip(n: int32)
    ensures var p := ParamOf(PrintedText(n));
            (p.Number? && p.value * p.sign == n && p.tail == 1) <==> n != -0x8000_0000
  {
    if n >= 0 {
      UnsignedRoundTrip(n);
    } else if n != -0x8000_0000 {
      NegativeRead(-n);
    } else {
      TextRead("-");
    }
  }

  lemma NegativeRead(n: word)
    requires n > 0
    ensures ParamOf("-" + DecText(n)) == Number(n, -1, 1)
  {
    hide ParamOf, DecText, InBase;
    var ds := DecimalText(n);
    assert "-" + DecText(n) == "-" + "" + DecText(n) + "";
    NumberRead("-" + DecText(n), true, "", DecText(n), ds, "");
  }

  /** Every number printed in hexadecimal, with either letter, is parsed back. */
  lemma HexRoundTrip(n: word, x: char)
    requires IsX(x)
    ensures ParamOf(HexText(n, x)) == Number(n, 1, 1)
  {
    hide ParamOf, InBase;
    var ds := HexadecimalText(n, x);
    var digits := HexDigits(n, 8, x == 'X');
    assert HexText(n, x) == "" + ['0', x] + digits + "";
    assert forall i :: 0 <= i < 8 ==> digits[i] == HexText(n, x)[2 + i];
    NumberRead(HexText(n, x), false, ['0', x], digits, ds, "");
  }
}
