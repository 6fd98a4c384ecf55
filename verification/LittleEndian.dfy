/** Little-endian integers in byte strings, as packed structures lay them out. */
module LittleEndian {
  import opened BinaryArithmetic

  function Pow256(n: nat): nat {
    if n == 0 then 1 else 0x100 * Pow256(n - 1)
  }

  function Encode(v: nat, n: nat): (s: seq<byte>)
    ensures |s| == n
  {
    if n == 0 then [] else [v % 0x100] + Encode(v / 0x100, n - 1)
  }

  function Decode(s: seq<byte>): (v: nat)
    ensures v < Pow256(|s|)
  {
    if s == [] then 0 else s[0] + 0x100 * Decode(s[1..])
  }

  lemma {:induction false} DecodeEncode(v: nat, n: nat)
    requires v < Pow256(n)
    ensures Decode(Encode(v, n)) == v
  {
    if n > 0 {
      assert Encode(v, n)[1..] == Encode(v / 0x100, n - 1);
      DecodeEncode(v / 0x100, n - 1);
    }
  }

  lemma {:induction false} EncodeDecode(s: seq<byte>)
    ensures Encode(Decode(s), |s|) == s
  {
    if s != [] {
      EncodeDecode(s[1..]);
      assert Decode(s) % 0x100 == s[0] && Decode(s) / 0x100 == Decode(s[1..]);
      assert s == [s[0]] + s[1..];
    }
  }

  lemma NothingEncoded(v: nat)
    ensures Encode(v, 0) == []
  {
  }

  lemma EncodeHead(v: nat, n: nat)
    requires n > 0
    ensures Encode(v, n) == [v % 0x100] + Encode(v / 0x100, n - 1)
  {
  }

  lemma {:induction false} EncodeJoined(low: nat, high: nat, m: nat, n: nat)
    requires low < Pow256(m)
    ensures Encode(low + Pow256(m) * high, m + n) == Encode(low, m) + Encode(high, n)
  {
    hide Encode;
    if m == 0 {
      NothingEncoded(low);
    } else {
      var p := Pow256(m - 1);
      var q := p * high;
      MulAssociates(0x100, p, high);
      RemainderIs(low + 0x100 * q, 0x100, low / 0x100 + q, low % 0x100);
      EncodeJoined(low / 0x100, high, m - 1, n);
      EncodeHead(low + 0x100 * q, m + n);
      EncodeHead(low, m);
    }
  }

  /** A 16-, 32- or 64-bit field of a structure. */
  function Field(s: seq<byte>, at: nat, size: nat): (v: nat)
    requires at + size <= |s|
    ensures v < Pow256(size)
  {
    Decode(s[at..at + size])
  }

  lemma FieldWidths()
    ensures Pow256(2) == 0x1_0000 && Pow256(4) == 0x1_0000_0000 && Pow256(8) == 0x1_0000_0000_0000_0000
  {
    assert Pow256(1) == 0x100 && Pow256(2) == 0x1_0000 && Pow256(3) == 0x100_0000;
    assert Pow256(4) == 0x1_0000_0000 && Pow256(5) == 0x100_0000_0000;
    assert Pow256(6) == 0x1_0000_0000_0000 && Pow256(7) == 0x100_0000_0000_0000;
  }

  lemma WordRoundTrip(v: word)
    ensures Decode(Encode(v, 4)) == v
  {
    FieldWidths();
    DecodeEncode(v, 4);
  }

  function Le32(s: seq<byte>, at: nat): word
    requires at + 4 <= |s|
  {
    FieldWidths();
    Field(s, at, 4)
  }
}
