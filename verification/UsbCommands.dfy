/**
 The commands and answers of `UsbExchange` byte by byte, for wrappers as a host lays them out.
 */
module UsbCommands {
  import opened BinaryArithmetic
  import opened CommandWrapper
  import opened LittleEndian
  import opened Options
  import opened Sequences
  import opened UsbExchange

  /** The command block asks for `count` sectors from `s` on, as READ(10) and WRITE(10) do. */
  predicate Asks(w: Cbw, s: word, count: nat) {
    count < 0x1_0000 && w[17..21] == Be(s) && w[22..24] == [count / 0x100, count % 0x100]
  }

  /** A machine that transfers at most 16 MB at once. */
  function Portion(count: nat): nat {
    if count < 0x8000 then count * 512 else 0x100_0000
  }

  /** `d` with `data` put at byte `at`, and behind it `more` bytes of the memory behind the buffer. */
  function Stored(d: seq<byte>, at: nat, data: seq<byte>, more: nat, behind: nat -> byte): (r: seq<byte>)
    requires at + |data| + more <= |d|
    ensures |r| == |d|
  {
    d[..at] + data + seq<byte>(more, i requires 0 <= i < more => behind(i)) + d[at + |data| + more..]
  }

  lemma StoredInOnePiece(d: seq<byte>, at: nat, data: seq<byte>, more: nat, behind: nat -> byte)
    requires at + |data| + more <= |d|
    ensures var tail := seq<byte>(more, i requires 0 <= i < more => behind(i));
            Patch(d, at, data + tail) == Stored(d, at, data, more, behind)
  {
  }

  /** Every command block asks for some sectors. */
  lemma SomethingAsked(w: Cbw) returns (s: word, count: nat)
    ensures Asks(w, s, count)
  {
    hide Be;
    s, count := Lba(w), w[22] as nat * 0x100 + w[23];
    Digits(w[17], w[18], w[19], w[20]);
    assert w[17..21] == [w[17], w[18], w[19], w[20]];
    assert count / 0x100 == w[22] && count % 0x100 == w[23];
  }

  lemma Digits(a: byte, b: byte, c: byte, d: byte)
    ensures Be(((a * 0x100 + b) * 0x100 + c) * 0x100 + d) == [a, b, c, d]
  {
    var v := ((a * 0x100 + b) * 0x100 + c) * 0x100 + d;
    RemainderIs(v, 0x100, (a * 0x100 + b) * 0x100 + c, d);
    RemainderIs(v, 0x1_0000, a * 0x100 + b, c * 0x100 + d);
    RemainderIs(v, 0x100_0000, a, (b * 0x100 + c) * 0x100 + d);
    RemainderIs(v / 0x100, 0x100, a * 0x100 + b, c);
    RemainderIs(v / 0x1_0000, 0x100, a, b);
  }

  lemma FromDigits(s: word)
    ensures var b := Be(s); ((b[0] as nat * 0x100 + b[1]) * 0x100 + b[2]) * 0x100 + b[3] == s
  {
    assert s / 0x100 / 0x100 == s / 0x1_0000 && s / 0x1_0000 / 0x100 == s / 0x100_0000;
  }

  lemma AskedSector(w: Cbw, s: word, count: nat)
    requires Asks(w, s, count)
    ensures Lba(w) == s && AllBytes(w) == count * 512 && BlockBytes(w) == Portion(count)
  {
    hide Be;
    FromDigits(s);
    assert w[17] == w[17..21][0] && w[18] == w[17..21][1] && w[19] == w[17..21][2] && w[20] == w[17..21][3];
    assert w[22] == w[22..24][0] && w[23] == w[22..24][1];
  }

  /** READ(10) reads the sector asked for, counted from the first one of the unit's partition.
      WRITE(10) forgets all but the lower 23 bits of it. */
  lemma Places(w: Cbw, s: word, count: nat, parts: Partitions)
    requires Asks(w, s, count)
    ensures ReadAt(w, parts) == (s + parts(w[13] % 16)) % 0x1_0000_0000 * 512
    ensures WriteAt(w, parts) == (parts(w[13] % 16) + s % 0x80_0000) % 0x1_0000_0000 * 512
  {
    AskedSector(w, s, count);
    ShiftedSector(s);
  }

  /** How the machine understands what a host sends. */
  lemma WrapperUnderstood(tag: word, length: word, flags: byte, unit: byte, cbLength: byte, cb: seq<byte>)
    requires |cb| == 16
    ensures var w := CommandBytes(tag, length, flags, unit, cbLength, cb);
            && Signed(w) && Tag(w) == Le(tag) && Announced(w) == length && Op(w) == cb[0]
            && w[13] == unit && w[17..21] == cb[2..6] && w[22..24] == cb[7..9]
  {
    hide Le, Le32;
    CommandFields(tag, length, flags, unit, cbLength, cb);
    var w := CommandBytes(tag, length, flags, unit, cbLength, cb);
    assert w[15..31][0] == w[15] && w[15..31][2..6] == w[17..21] && w[15..31][7..9] == w[22..24];
  }

  /** Only wrappers that start with "USBC" are signed. */
  lemma SignedExactly(w: Cbw)
    ensures Signed(w) <==> w[..4] == [0x55, 0x53, 0x42, 0x43]
  {
    Signature();
    EncodeDecode(w[0..4]);
    LeDecodes(0x43425355);
  }

  /** Status wrappers as the standard lays them out. */
  lemma StatusLaidOut(tag: word, residue: word, status: byte)
    ensures Csw(Le(tag), residue, status) == StatusBytes(tag, residue, status)
  {
    hide Le;
    Signature();
    LeDecodes(0x53425355);
    LeDecodes(residue);
  }

  /** What of the announced length is left, as the target computes it. */
  function Rest(length: word, n: nat): word {
    (length - n) % 0x1_0000_0000
  }

  /** The whole answer to a command other than READ(10) and WRITE(10), by its first byte. */
  lemma AnswersToCommands(e: Exchange, tag: word, length: word, flags: byte, unit: byte, cbLength: byte, cb: seq<byte>)
    requires |cb| == 16 && e.wrapper == CommandBytes(tag, length, flags, unit, cbLength, cb) && Complete(e)
    requires cb[0] != 0x28 && cb[0] != 0x2a
    ensures cb[0] in {0x00, 0x1e, 0x2f} ==> e.data == [] && e.status == [StatusBytes(tag, 0, 0)]
    ensures cb[0] == 0x12 ==> FixedReply(e, tag, length, 36)
    ensures cb[0] == 0x23 ==> FixedReply(e, tag, length, 12)
    ensures cb[0] == 0x25 ==> FixedReply(e, tag, length, 8)
    ensures cb[0] == 0x1a ==> FixedReply(e, tag, length, 4)
    ensures cb[0] == 0x03 ==> FixedReply(e, tag, length, 18)
    ensures cb[0] !in {0x00, 0x1e, 0x2f, 0x12, 0x23, 0x25, 0x1a, 0x03} ==> e.data == [] && e.status == []
    ensures e.received.None?
  {
    hide Csw, StatusBytes, CommandBytes, Le, Le32;
    WrapperUnderstood(tag, length, flags, unit, cbLength, cb);
    StatusLaidOut(tag, 0, 0);
    if |e.data| == 1 { StatusLaidOut(tag, Rest(length, |e.data[0]|), 0); }
  }

  /** The whole answer to READ(10) or WRITE(10). */
  lemma AnswersToTransfers(e: Exchange, tag: word, length: word, flags: byte, unit: byte, cbLength: byte, cb: seq<byte>,
                           s: word, count: nat)
    requires |cb| == 16 && e.wrapper == CommandBytes(tag, length, flags, unit, cbLength, cb) && Complete(e)
    requires Asks(e.wrapper, s, count) && (cb[0] == 0x28 || cb[0] == 0x2a)
    ensures cb[0] == 0x28 ==> e.received.None? && (e.data == [] ==> e.status == [StatusBytes(tag, length, 1)])
    ensures cb[0] == 0x28 && e.data != [] ==>
      |e.data| == 1 && |e.data[0]| == Portion(count) && e.status == [StatusBytes(tag, Rest(length, Portion(count)), 0)]
    ensures cb[0] == 0x2a ==> e.data == [] && (e.givenUp ==> e.received.None? && e.status == [])
    ensures cb[0] == 0x2a && !e.givenUp ==>
      && e.received.Some? && |e.received.value| == Portion(count)
      && (e.status == [StatusBytes(tag, length, 1)] || e.status == [StatusBytes(tag, Rest(length, Portion(count)), 0)])
  {
    hide Csw, StatusBytes, CommandBytes, Asks, Le, Le32, BlockBytes, AllBytes, Portion;
    WrapperUnderstood(tag, length, flags, unit, cbLength, cb);
    AskedSector(e.wrapper, s, count);
    StatusLaidOut(tag, length, 1);
    StatusLaidOut(tag, Rest(length, Portion(count)), 0);
  }

  /** A reply of `size` bytes, or as many as were announced, and its status. */
  predicate FixedReply(e: Exchange, tag: word, length: word, size: nat) {
    && |e.data| == 1 && |e.data[0]| == (if length < size then length else size)
    && e.status == [StatusBytes(tag, length - |e.data[0]|, 0)]
  }

  /** What a write changes on the disk, by the last byte of its status. */
  lemma WriteStored(d: seq<byte>, e: Exchange, s: word, count: nat, parts: Partitions, behind: nat -> byte)
    requires Complete(e) && e.wrapper[15] == 0x2a && Asks(e.wrapper, s, count)
    requires |e.status| == 1 && |e.status[0]| == 13
    ensures e.status[0][12] != 0 ==> Applied(d, e, parts, behind) == d
    ensures var at := (parts(e.wrapper[13] % 16) + s % 0x80_0000) % 0x1_0000_0000 * 512;
            e.status[0][12] == 0 && at + count * 512 <= |d| ==>
              var r := Applied(d, e, parts, behind);
              && e.received.Some? && r[at..at + Portion(count)] == e.received.value
              && r[..at] == d[..at] && r[at + count * 512..] == d[at + count * 512..]
  {
    hide Asks, BlockBytes, AllBytes, WriteAt, ReadAt, Csw, Patch, Portion;
    AskedSector(e.wrapper, s, count);
    Places(e.wrapper, s, count, parts);
    LastBytes(e.wrapper);
    var at := WriteAt(e.wrapper, parts);
    if e.status[0][12] == 0 && at + count * 512 <= |d| {
      var data := Written(e, behind);
      assert |data| == count * 512 && data[..Portion(count)] == e.received.value;
      PatchedStretch(d, at, data, Portion(count));
      Outside(d, at, data);
    }
  }

  lemma LastBytes(w: Cbw)
    ensures StatusAfter(w, BlockBytes(w))[0][12] == 0 && FailureStatus(w)[0][12] == 1
  {
    hide BlockBytes, AllBytes;
  }

  lemma Outside(d: seq<byte>, at: nat, data: seq<byte>)
    requires at + |data| <= |d|
    ensures Patch(d, at, data)[..at] == d[..at] && Patch(d, at, data)[at + |data|..] == d[at + |data|..]
  {
  }

  /** What a read sends, if it sends anything. */
  lemma ReadSends(d: seq<byte>, e: Exchange, s: word, count: nat, parts: Partitions)
    requires Complete(e) && e.wrapper[15] == 0x28 && e.data != [] && Asks(e.wrapper, s, count) && ReadsTrue(d, e, parts)
    ensures var at := (s + parts(e.wrapper[13] % 16)) % 0x1_0000_0000 * 512;
            at + Portion(count) <= |d| && e.data == [d[at..at + Portion(count)]]
  {
    hide Asks, BlockBytes, AllBytes, WriteAt, ReadAt, Csw, Portion;
    AskedSector(e.wrapper, s, count);
    Places(e.wrapper, s, count, parts);
  }

  /** What WRITE(10) has received for a sector below 2^23, READ(10) of that sector sends. */
  lemma WriteThenReadSector(d: seq<byte>, w: Exchange, r: Exchange, s: word, count: nat, parts: Partitions,
                            behind: nat -> byte)
    requires Complete(w) && w.wrapper[15] == 0x2a && |w.status| == 1 && |w.status[0]| == 13 && w.status[0][12] == 0
    requires Complete(r) && r.wrapper[15] == 0x28 && r.data != []
    requires Asks(w.wrapper, s, count) && Asks(r.wrapper, s, count) && w.wrapper[13] == r.wrapper[13] && s < 0x80_0000
    requires (parts(w.wrapper[13] % 16) + s) % 0x1_0000_0000 * 512 + count * 512 <= |d|
    requires ReadsTrue(Applied(d, w, parts, behind), r, parts)
    ensures w.received.Some? && r.data == [w.received.value]
  {
    hide Asks, Applied, Complete, ReadsTrue, Portion;
    assert parts(w.wrapper[13] % 16) + s % 0x80_0000 == s + parts(w.wrapper[13] % 16);
    WriteStored(d, w, s, count, parts, behind);
    ReadSends(Applied(d, w, parts, behind), r, s, count, parts);
  }
}
