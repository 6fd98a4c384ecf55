/**
 The command block wrapper and the command status wrapper as a host lays them out: USB Mass Storage
 Class Bulk-Only Transport 1.0, sections 5.1 and 5.2.
 */
module CommandWrapper {
  import opened BinaryArithmetic
  import opened LittleEndian

  /** Least significant byte first. */
  function Le(v: word): (s: seq<byte>)
    ensures |s| == 4
  {
    [v % 0x100, v / 0x100 % 0x100, v / 0x1_0000 % 0x100, v / 0x100_0000]
  }

  /** Most significant byte first. */
  function Be(v: word): (s: seq<byte>)
    ensures |s| == 4
  {
    [v / 0x100_0000, v / 0x1_0000 % 0x100, v / 0x100 % 0x100, v % 0x100]
  }

  /** "USBC", tag, length, flags, unit, the length of the command block, and the block. */
  function CommandBytes(tag: word, length: word, flags: byte, unit: byte, cbLength: byte, cb: seq<byte>): (s: seq<byte>)
    requires |cb| == 16
    ensures |s| == 31
  {
    [0x55, 0x53, 0x42, 0x43] + Le(tag) + Le(length) + [flags, unit, cbLength] + cb
  }

  /** "USBS", tag, residue, status. */
  function StatusBytes(tag: word, residue: word, status: byte): (s: seq<byte>)
    ensures |s| == 13
  {
    [0x55, 0x53, 0x42, 0x53] + Le(tag) + Le(residue) + [status]
  }

  lemma LeDecodes(v: word)
    ensures Decode(Le(v)) == v && Le(v) == Encode(v, 4)
  {
    LeEncodes(v);
    WordRoundTrip(v);
  }

  lemma LeEncodes(v: word)
    ensures Le(v) == Encode(v, 4)
  {
    var v1, v2, v3 := v / 0x100, v / 0x100 / 0x100, v / 0x100 / 0x100 / 0x100;
    assert Encode(v3, 1) == [v3 % 0x100] + Encode(v3 / 0x100, 0);
    assert Encode(v2, 2) == [v2 % 0x100] + Encode(v3, 1);
    assert Encode(v1, 3) == [v1 % 0x100] + Encode(v2, 2);
    assert v2 == v / 0x1_0000 && v3 == v / 0x100_0000;
  }

  /** Where the fields of the command wrapper lie. */
  lemma CommandFields(tag: word, length: word, flags: byte, unit: byte, cbLength: byte, cb: seq<byte>)
    requires |cb| == 16
    ensures var w := CommandBytes(tag, length, flags, unit, cbLength, cb);
            && Le32(w, 0) == 0x43425355 && Le32(w, 4) == tag && Le32(w, 8) == length
            && w[4..8] == Le(tag) && w[12] == flags && w[13] == unit && w[14] == cbLength && w[15..31] == cb
  {
    hide Le, Decode, Encode;
    var w := CommandBytes(tag, length, flags, unit, cbLength, cb);
    LeDecodes(0x43425355);
    LeDecodes(tag);
    LeDecodes(length);
    Signature();
    assert w[0..4] == [0x55, 0x53, 0x42, 0x43] && w[4..8] == Le(tag) && w[8..12] == Le(length);
  }

  lemma Signature()
    ensures Le(0x43425355) == [0x55, 0x53, 0x42, 0x43] && Le(0x53425355) == [0x55, 0x53, 0x42, 0x53]
  {
  }
}
