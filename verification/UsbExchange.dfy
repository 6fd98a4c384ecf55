/**
 What the bulk endpoints of `boot-axf/usb_device.c` put on the wire: transfers cut into packets,
 and the commands and answers of the mass-storage protocol made up of transfers.
 */
module UsbExchange {
  import opened BinaryArithmetic
  import opened LittleEndian
  import opened Options
  import opened Sequences

  // ----- packets

  /** Full packets of `m` bytes and a last one with the rest. */
  function Split(data: seq<byte>, m: nat): seq<seq<byte>>
    requires m > 0
  {
    if data == [] then []
    else if |data| <= m then [data]
    else [data[..m]] + Split(data[m..], m)
  }

  lemma SplitHead(data: seq<byte>, m: nat, k: nat)
    requires m > 0 && data != [] && k == if |data| < m then |data| else m
    ensures Split(data, m) == [data[..k]] + Split(data[k..], m)
  {
    if |data| <= m {
      assert data[..k] == data && data[k..] == [];
      assert Split(data, m) == [data] + [];
    }
  }

  /** Pushing the next packet moves it from what is left to what is pushed. */
  lemma NextPacket(pushed: seq<seq<byte>>, rest: seq<byte>, m: nat, k: nat)
    requires m > 0 && rest != [] && k == if |rest| < m then |rest| else m
    ensures (pushed + [rest[..k]]) + Split(rest[k..], m) == pushed + Split(rest, m)
  {
    SplitHead(rest, m, k);
    hide Split;
  }

  lemma NothingLeft(pushed: seq<seq<byte>>, rest: seq<byte>, m: nat)
    requires m > 0 && rest == []
    ensures pushed + Split(rest, m) == pushed
  {
  }

  /** The packets of one transfer: an empty one is a single empty packet. */
  function Packets(data: seq<byte>, m: nat): seq<seq<byte>>
    requires m > 0
  {
    if data == [] then [[]] else Split(data, m)
  }

  /** The packets carry the data in order. */
  lemma {:induction false} PacketsCarryData(data: seq<byte>, m: nat)
    requires m > 0
    ensures Flatten(Packets(data, m)) == data
    decreases |data|
  {
    var ps := Packets(data, m);
    if |data| <= m {
      assert Flatten(ps[1..]) == [];
    } else {
      assert ps[1..] == Packets(data[m..], m);
      PacketsCarryData(data[m..], m);
    }
  }

  /** All packets but the last are full, and the last is empty only if there is no data. */
  lemma {:induction false} PacketsAreFull(data: seq<byte>, m: nat)
    requires m > 0
    ensures var ps := Packets(data, m);
            ps != [] && |ps[|ps| - 1]| <= m && forall i :: 0 <= i < |ps| - 1 ==> |ps[i]| == m
    ensures if data == [] then Packets(data, m) == [[]] else [] !in Packets(data, m)
    decreases |data|
  {
    var ps := Packets(data, m);
    if |data| > m {
      var rest := Packets(data[m..], m);
      assert ps == [data[..m]] + rest;
      PacketsAreFull(data[m..], m);
    }
  }

  /** The packets of transfers sent one after the other. */
  function AllPackets(transfers: seq<seq<byte>>, m: nat): seq<seq<byte>>
    requires m > 0
  {
    if transfers == [] then []
    else AllPackets(transfers[..|transfers| - 1], m) + Packets(transfers[|transfers| - 1], m)
  }

  // ----- command wrappers

  const CBW_SIZE: nat := 31
  const CSW_SIZE: nat := 13
  const CBW_SIGNATURE: nat := 0x43425355
  const CSW_SIGNATURE: nat := 0x53425355
  const READ_10: byte := 0x28
  const WRITE_10: byte := 0x2a

  type Cbw = w: seq<byte> | |w| == 31 witness seq(31, _ => 0)

  predicate Signed(w: Cbw) {
    Le32(w, 0) == CBW_SIGNATURE
  }

  function Tag(w: Cbw): (t: seq<byte>)
    ensures |t| == 4
  {
    w[4..8]
  }

  /** The length the host announces for the data phase. */
  function Announced(w: Cbw): word {
    Le32(w, 8)
  }

  function Op(w: Cbw): byte {
    w[15]
  }

  /** The bytes that the command block of READ(10) or WRITE(10) asks for. */
  function AllBytes(w: Cbw): nat {
    (w[15 + 7] as nat * 0x100 + w[15 + 8]) * 512
  }

  /** ... and how many of them are transferred, at most 16 MB. */
  function BlockBytes(w: Cbw): (n: nat)
    ensures n <= 0x100_0000 && n <= AllBytes(w) && (n < 0x100_0000 ==> n == AllBytes(w))
  {
    Min(AllBytes(w), 0x100_0000)
  }

  /** The sector number in the command block. */
  function Lba(w: Cbw): word {
    ((w[15 + 2] as nat * 0x100 + w[15 + 3]) * 0x100 + w[15 + 4]) * 0x100 + w[15 + 5]
  }

  /** The size of a fixed reply. */
  function FixedSize(op: byte): nat {
    if op == 0x12 then 36 else if op == 0x23 then 12 else if op == 0x25 then 8
    else if op == 0x1a then 4 else if op == 0x03 then 18 else 0
  }

  /** Commands that are answered with a status alone. */
  predicate StatusOnly(op: byte) {
    op == 0x00 || op == 0x1e || op == 0x2f
  }

  /** The commands that are answered. Any other gets nothing at all, not even a status. */
  predicate Known(op: byte) {
    StatusOnly(op) || FixedSize(op) > 0 || op == READ_10 || op == WRITE_10
  }

  // ----- exchanges

  /** A command that was taken up: the data and the status sent for it, the data received for it,
      and whether it was given up because its data did not come. */
  datatype Exchange = Exchange(wrapper: Cbw, data: seq<seq<byte>>, received: Option<seq<byte>>, givenUp: bool,
                               status: seq<seq<byte>>)

  function Taken(w: Cbw): Exchange {
    Exchange(w, [], None, false, [])
  }

  function Csw(tag: seq<byte>, residue: word, status: byte): seq<byte> {
    Encode(CSW_SIGNATURE, 4) + tag + Encode(residue, 4) + [status]
  }

  /** What is left of the announced length after `n` bytes, as the 32-bit target computes it. */
  function Residue(w: Cbw, n: nat): word {
    (Announced(w) - n) % 0x1_0000_0000
  }

  function StatusAfter(w: Cbw, n: nat): seq<seq<byte>> {
    [Csw(Tag(w), Residue(w, n), 0)]
  }

  function FailureStatus(w: Cbw): seq<seq<byte>> {
    [Csw(Tag(w), Announced(w), 1)]
  }

  function WriteStatus(w: Cbw, failed: bool): (s: seq<seq<byte>>)
    ensures |s| == 1
  {
    if failed then FailureStatus(w) else StatusAfter(w, BlockBytes(w))
  }

  /** The right amount of data has been sent, and nothing else. */
  predicate DataPhase(e: Exchange) {
    var op := Op(e.wrapper);
    && e.received.None? && !e.givenUp && |e.data| == 1
    && (op == READ_10 || FixedSize(op) > 0)
    && |e.data[0]| == if op == READ_10 then BlockBytes(e.wrapper) else Min(Announced(e.wrapper), FixedSize(op))
  }

  function Min(a: nat, b: nat): nat {
    if a < b then a else b
  }

  /** The whole answer to a command. */
  predicate Complete(e: Exchange) {
    var w := e.wrapper;
    var op := Op(w);
    if !Known(op) then e == Taken(w)
    else if StatusOnly(op) then e == Taken(w).(status := [Csw(Tag(w), 0, 0)])
    else if op == WRITE_10 then
      if e.givenUp then e == Taken(w).(givenUp := true)
      else
        && e.data == [] && e.received.Some? && |e.received.value| == BlockBytes(w)
        && (e.status == StatusAfter(w, BlockBytes(w)) || e.status == FailureStatus(w))
    else if op == READ_10 && e.data == [] then e == Taken(w).(status := FailureStatus(w))
    else DataPhase(e) && e.status == StatusAfter(w, |e.data[0]|)
  }

  ghost predicate AllComplete(es: seq<Exchange>) {
    forall i :: 0 <= i < |es| ==> Complete(es[i])
  }

  /** Only an unknown command, or a write whose data did not come, ends without a status. */
  lemma NoStatus(e: Exchange)
    requires Complete(e)
    ensures e.status == [] <==> !Known(Op(e.wrapper)) || e.givenUp
    ensures e.givenUp ==> Op(e.wrapper) == WRITE_10 && e.received.None?
    ensures |e.data| <= 1 && |e.status| <= 1
  {
  }

  /** The bytes that were moved for a command, in either direction. */
  function Moved(e: Exchange): nat {
    if e.data != [] then |e.data[0]| else if e.received.Some? then |e.received.value| else 0
  }

  /** What a host can check before it sends a command: blocks do not exceed the announced length,
      and none is announced where no data follows. */
  predicate WellAnnounced(w: Cbw) {
    var op := Op(w);
    && (StatusOnly(op) ==> Announced(w) == 0)
    && (op == READ_10 || op == WRITE_10 ==> BlockBytes(w) <= Announced(w))
  }

  /** After a command that succeeded, residue and moved bytes add up to the announced length
      exactly if the command was well announced. */
  lemma ResidueAddsUp(e: Exchange)
    requires Complete(e) && e.status != [] && e.status != FailureStatus(e.wrapper)
    ensures |e.status[0]| == CSW_SIZE
    ensures Le32(e.status[0], 8) + Moved(e) == Announced(e.wrapper) <==> WellAnnounced(e.wrapper)
  {
    hide Csw, BlockBytes, Le32, Tag;
    var w := e.wrapper;
    if StatusOnly(Op(w)) {
      CswResidue(Tag(w), 0, 0);
    } else {
      CswResidue(Tag(w), Residue(w, Moved(e)), 0);
    }
  }

  /** A command that failed reports the whole length as residue. */
  lemma FailureResidue(w: Cbw)
    ensures |FailureStatus(w)[0]| == CSW_SIZE && Le32(FailureStatus(w)[0], 8) == Announced(w)
  {
    CswResidue(Tag(w), Announced(w), 1);
  }

  lemma CswResidue(tag: seq<byte>, residue: word, status: byte)
    requires |tag| == 4
    ensures |Csw(tag, residue, status)| == CSW_SIZE && Le32(Csw(tag, residue, status), 8) == residue
  {
    FieldWidths();
    DecodeEncode(residue, 4);
    assert Csw(tag, residue, status)[8..12] == Encode(residue, 4);
  }

  /** READ(10) or WRITE(10) of two blocks, announced as 512 bytes. */
  function TooShort(op: byte): Cbw {
    Encode(CBW_SIGNATURE, 4) + [1, 2, 3, 4] + [0, 2, 0, 0] + [0x80, 0, 10] + [op, 0, 0, 0, 0, 0, 0, 0, 2, 0]
    + [0, 0, 0, 0, 0, 0]
  }

  /** The residue of such a command wraps. */
  lemma TooShortWraps(e: Exchange, op: byte)
    requires (op == READ_10 || op == WRITE_10) && e.wrapper == TooShort(op)
    requires Complete(e) && e.status != [] && e.status != FailureStatus(e.wrapper)
    ensures !WellAnnounced(e.wrapper) && Moved(e) == 1024 && Announced(e.wrapper) == 512
    ensures |e.status[0]| == CSW_SIZE && Le32(e.status[0], 8) == 0xFFFF_FE00
  {
    hide Csw, Le32, BlockBytes, Encode;
    TooShortFields(op);
    var w := e.wrapper;
    CswResidue(Tag(w), Residue(w, Moved(e)), 0);
  }

  lemma TooShortFields(op: byte)
    ensures Announced(TooShort(op)) == 512 && Op(TooShort(op)) == op && BlockBytes(TooShort(op)) == 1024
  {
    hide Encode;
    var w := TooShort(op);
    assert w[8..12] == [0, 2, 0, 0] && w[15] == op && w[22] == 0 && w[23] == 2;
    assert Decode([0, 2, 0, 0]) == 512;
  }

  // ----- the disk

  /** The first sectors of the partitions, by unit number. */
  type Partitions = nat -> word

  function FirstSector(w: Cbw, parts: Partitions): word {
    parts(w[13] % 0x10)
  }

  /** Where READ(10) reads, in bytes. */
  function ReadAt(w: Cbw, parts: Partitions): nat {
    (Lba(w) + FirstSector(w, parts)) % 0x1_0000_0000 * 512
  }

  /** Where WRITE(10) writes. The sector number has been shifted left by 9 bits, in 32 bits, and
      back. */
  function WriteAt(w: Cbw, parts: Partitions): nat {
    (FirstSector(w, parts) + Lba(w) * 512 % 0x1_0000_0000 / 512) % 0x1_0000_0000 * 512
  }

  /** A write goes where a read of the same sector looks exactly below 2^23 sectors (4 GB). */
  lemma WritesWhereItReads(w: Cbw, parts: Partitions)
    ensures WriteAt(w, parts) == ReadAt(w, parts) <==> Lba(w) < 0x80_0000
  {
    ShiftedSector(Lba(w));
    SameSum(FirstSector(w, parts), Lba(w) % 0x80_0000, Lba(w));
  }

  lemma ShiftedSector(lba: word)
    ensures lba * 512 % 0x1_0000_0000 / 512 == lba % 0x80_0000
  {
    var q, r := lba / 0x80_0000, lba % 0x80_0000;
    assert lba * 512 == 0x1_0000_0000 * q + 512 * r;
    RemainderIs(lba * 512, 0x1_0000_0000, q, 512 * r);
  }

  lemma SameSum(p: word, a: word, b: word)
    ensures (p + a) % 0x1_0000_0000 == (b + p) % 0x1_0000_0000 <==> a == b
  {
  }

  /** Sector 2^23 of a partition is its sector 0 for a write. */
  lemma WriteToFarSectorHitsTheFirst(w: Cbw, v: Cbw, parts: Partitions)
    requires Lba(w) == 0x80_0000 && Lba(v) == 0 && w[13] == v[13]
    ensures WriteAt(w, parts) == ReadAt(v, parts)
  {
    ShiftedSector(Lba(w));
  }

  /** What a write stores: what was received and, above 16 MB, the memory behind the buffer. */
  function Written(e: Exchange, behind: nat -> byte): (s: seq<byte>)
    requires e.received.Some?
  {
    var rest := AllBytes(e.wrapper) - BlockBytes(e.wrapper);
    e.received.value + seq<byte>(rest, i requires 0 <= i < rest => behind(i))
  }

  /** The disk after `e`. */
  function Applied(d: seq<byte>, e: Exchange, parts: Partitions, behind: nat -> byte): (r: seq<byte>)
    ensures |r| == |d|
  {
    if Op(e.wrapper) == WRITE_10 && e.received.Some? && e.status == StatusAfter(e.wrapper, BlockBytes(e.wrapper))
      && WriteAt(e.wrapper, parts) + |Written(e, behind)| <= |d|
    then Patch(d, WriteAt(e.wrapper, parts), Written(e, behind)) else d
  }

  /** What `e` sent, if it is a read, is what the disk holds. */
  predicate ReadsTrue(d: seq<byte>, e: Exchange, parts: Partitions) {
    Op(e.wrapper) == READ_10 && e.data != [] ==>
      var at, n := ReadAt(e.wrapper, parts), BlockBytes(e.wrapper);
      at + n <= |d| && e.data[0] == d[at..at + n]
  }

  /** The disk after a sequence of exchanges. */
  function DiskAfter(d: seq<byte>, es: seq<Exchange>, parts: Partitions, behind: nat -> byte): (r: seq<byte>)
    ensures |r| == |d|
  {
    if es == [] then d else Applied(DiskAfter(d, es[..|es| - 1], parts, behind), es[|es| - 1], parts, behind)
  }

  /** Every read sent what the writes before it had left on the disk. */
  ghost predicate ReadsAllTrue(d: seq<byte>, es: seq<Exchange>, parts: Partitions, behind: nat -> byte) {
    forall i :: 0 <= i < |es| ==> ReadsTrue(DiskAfter(d, es[..i], parts, behind), es[i], parts)
  }

  lemma OneMore(d: seq<byte>, es: seq<Exchange>, e: Exchange, parts: Partitions, behind: nat -> byte)
    requires ReadsAllTrue(d, es, parts, behind) && ReadsTrue(DiskAfter(d, es, parts, behind), e, parts)
    ensures ReadsAllTrue(d, es + [e], parts, behind)
    ensures DiskAfter(d, es + [e], parts, behind) == Applied(DiskAfter(d, es, parts, behind), e, parts, behind)
  {
    hide ReadsTrue, Applied;
    var fs := es + [e];
    assert fs[..|es|] == es;
    forall i | 0 <= i < |fs| ensures ReadsTrue(DiskAfter(d, fs[..i], parts, behind), fs[i], parts) {
      if i < |es| { assert fs[..i] == es[..i]; }
    }
  }

  /** What one command wrote, another reads back. */
  lemma WriteThenRead(d: seq<byte>, w: Exchange, r: Exchange, parts: Partitions, behind: nat -> byte)
    requires Complete(w) && Op(w.wrapper) == WRITE_10 && w.status == StatusAfter(w.wrapper, BlockBytes(w.wrapper))
    requires WriteAt(w.wrapper, parts) + AllBytes(w.wrapper) <= |d|
    requires Op(r.wrapper) == READ_10 && r.data != [] && ReadsTrue(Applied(d, w, parts, behind), r, parts)
    requires ReadAt(r.wrapper, parts) == WriteAt(w.wrapper, parts) && BlockBytes(r.wrapper) == BlockBytes(w.wrapper)
    ensures w.received.Some? && r.data[0] == w.received.value
  {
    hide Csw, ReadAt, WriteAt, BlockBytes, AllBytes;
    var at, n := WriteAt(w.wrapper, parts), BlockBytes(w.wrapper);
    StatusesDiffer(w.wrapper);
    var stored := Written(w, behind);
    PatchedStretch(d, at, stored, n);
    assert stored[..n] == w.received.value;
  }

  lemma StatusesDiffer(w: Cbw)
    ensures StatusAfter(w, BlockBytes(w)) != FailureStatus(w)
  {
    assert StatusAfter(w, BlockBytes(w))[0][12] != FailureStatus(w)[0][12];
  }

  /** The transfers to the host of all exchanges, in order. */
  function Sent(es: seq<Exchange>): seq<seq<byte>> {
    if es == [] then [] else Sent(es[..|es| - 1]) + es[|es| - 1].data + es[|es| - 1].status
  }

  lemma SentLast(es: seq<Exchange>, e: Exchange)
    ensures Sent(es + [e]) == Sent(es) + e.data + e.status
  {
    assert (es + [e])[..|es|] == es;
  }
}
