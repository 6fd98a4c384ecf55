/**
 What the SCSI commands of `allwindisk/arm/masstorage.c` mean, byte by byte: when each of them is
 accepted, and what it does and answers then. Everything here is said in literal bytes, without the
 command table and the replies of `ScsiTarget`.
 */
module ScsiCommands {
  import opened BinaryArithmetic
  import opened ScsiTarget
  import opened BulkOnlyDevice

  predicate Zeros(cb: seq<byte>, from: nat, to: nat) {
    forall i :: from <= i < to && i < |cb| ==> cb[i] == 0
  }

  function Big16(a: byte, b: byte): word {
    a as int * 0x100 + b
  }

  function Big32(a: byte, b: byte, c: byte, d: byte): word {
    a as int * 0x100_0000 + b as int * 0x1_0000 + c as int * 0x100 + d
  }

  // ----- when a command is accepted

  /** check_command lets the command go ahead. */
  predicate Passes(c: Cbw, lun: Lun)
    requires WellFormedCbw(c)
  {
    && !Mismatch(c) && !AttentionStops(lun, c.cb[0])
    && Refusal(c, Cleared(lun, c.cb[0])) == SS_NO_SENSE
  }

  /** Data of `wanted` bytes may come from the host, or go to it. */
  predicate MayReceive(c: Cbw, wanted: nat) {
    wanted == 0 || c.length == 0 || c.flags < 0x80
  }

  predicate MaySend(c: Cbw, wanted: nat) {
    wanted == 0 || c.length == 0 || c.flags >= 0x80
  }

  /** The bytes of the command block that are looked at, but for those in `used`, are zero; the
      upper bits of byte 1 are a unit number and not looked at. */
  predicate OnlyBytes(c: Cbw, used: set<nat>)
    requires WellFormedCbw(c)
  {
    && (1 < c.cbLength && 1 !in used ==> c.cb[1] % 32 == 0)
    && forall i :: 2 <= i < c.cbLength && i !in used ==> c.cb[i] == 0
  }

  lemma NothingStray(c: Cbw)
    requires WellFormedCbw(c)
    ensures !StrayBytes(c) <==> OnlyBytes(c, RuleOf(c).mask)
  {
    hide RuleOf;
    var cb, mask := WithoutLun(c.cb), RuleOf(c).mask;
    if OnlyBytes(c, mask) {
      assert !Stray(cb, c.cbLength, mask);
    } else if 1 < c.cbLength && 1 !in mask && c.cb[1] % 32 != 0 {
      assert cb[1] != 0;
    } else {
      var i :| 2 <= i < c.cbLength && i !in mask && c.cb[i] != 0;
      assert cb[i] != 0;
    }
  }

  /** check_command, for a command with the literal rule given. */
  lemma PassesByRule(c: Cbw, lun: Lun, rule: Rule)
    requires WellFormedCbw(c) && RuleOf(c) == rule
    ensures Passes(c, lun) <==>
      && c.cbLength >= rule.size
      && (lun.attention == 0 || c.cb[0] == 0x12 || c.cb[0] == 0x03)
      && (rule.wanted == 0 || c.length == 0 || rule.dir == (if c.flags >= 0x80 then ToHost else FromHost))
      && OnlyBytes(c, rule.mask) && (rule.medium ==> lun.isOpen)
    ensures PhaseError(c) <==>
      || c.length < rule.wanted || c.cbLength < rule.size
      || (rule.wanted > 0 && c.length > 0 && rule.dir != (if c.flags >= 0x80 then ToHost else FromHost))
  {
    hide RuleOf;
    NothingStray(c);
  }

  /** INQUIRY, REQUEST SENSE, MODE SENSE (in two sizes): they send, and need no medium. */
  lemma SendersPass(c: Cbw, lun: Lun)
    requires WellFormedCbw(c)
    ensures c.cb[0] == 0x12 || c.cb[0] == 0x03 ==>
      (Passes(c, lun) <==> c.cbLength >= 6 && MaySend(c, c.cb[4]) && OnlyBytes(c, {4}))
    ensures c.cb[0] == 0x1a ==>
      (Passes(c, lun) <==> lun.attention == 0 && c.cbLength >= 6 && MaySend(c, c.cb[4]) && OnlyBytes(c, {1, 2, 4}))
    ensures c.cb[0] == 0x5a ==>
      (Passes(c, lun) <==> lun.attention == 0 && c.cbLength >= 10 && MaySend(c, Big16(c.cb[7], c.cb[8]))
                           && OnlyBytes(c, {1, 2, 7, 8}))
  {
    hide Passes, OnlyBytes, PhaseError;
    var cb, op := c.cb, c.cb[0];
    if op == 0x12 || op == 0x03 {
      PassesByRule(c, lun, Rule(6, ToHost, {4}, false, cb[4]));
    } else if op == 0x1a {
      PassesByRule(c, lun, Rule(6, ToHost, {1, 2, 4}, false, cb[4]));
    } else if op == 0x5a {
      PassesByRule(c, lun, Rule(10, ToHost, {1, 2, 7, 8}, false, Big16(cb[7], cb[8])));
    }
  }

  /** PREVENT ALLOW MEDIUM REMOVAL, START STOP UNIT and MODE SELECT (in two sizes): they send
      nothing, and need no medium. Any other opcode passes as well. */
  lemma ControlsPass(c: Cbw, lun: Lun)
    requires WellFormedCbw(c)
    ensures c.cb[0] == 0x1e ==>
      (Passes(c, lun) <==> lun.attention == 0 && c.cbLength >= 6 && OnlyBytes(c, {4}))
    ensures c.cb[0] == 0x1b ==>
      (Passes(c, lun) <==> lun.attention == 0 && c.cbLength >= 6 && OnlyBytes(c, {1, 4}))
    ensures c.cb[0] == 0x15 ==>
      (Passes(c, lun) <==> lun.attention == 0 && c.cbLength >= 6 && MayReceive(c, c.cb[4]) && OnlyBytes(c, {1, 4}))
    ensures c.cb[0] == 0x55 ==>
      (Passes(c, lun) <==> lun.attention == 0 && c.cbLength >= 10 && MayReceive(c, Big16(c.cb[7], c.cb[8]))
                           && OnlyBytes(c, {1, 7, 8}))
    ensures UnknownOp(c.cb[0]) ==> (Passes(c, lun) <==> lun.attention == 0)
  {
    hide Passes, PhaseError;
    var cb, op := c.cb, c.cb[0];
    if op == 0x1e {
      PassesByRule(c, lun, Rule(6, NoData, {4}, false, 0));
    } else if op == 0x1b {
      PassesByRule(c, lun, Rule(6, NoData, {1, 4}, false, 0));
    } else if op == 0x15 {
      PassesByRule(c, lun, Rule(6, FromHost, {1, 4}, false, cb[4]));
    } else if op == 0x55 {
      PassesByRule(c, lun, Rule(10, FromHost, {1, 7, 8}, false, Big16(cb[7], cb[8])));
    } else if UnknownOp(op) {
      PassesByRule(c, lun, Rule(c.cbLength, Direction.Unknown, AllBytes(), false, 0));
    }
  }

  /** The opcodes that the device does not know. */
  predicate UnknownOp(op: byte) {
    op !in {0x00, 0x03, 0x08, 0x0a, 0x12, 0x15, 0x1a, 0x1b, 0x1e, 0x23, 0x25, 0x28, 0x2a, 0x2f, 0x35, 0x55, 0x5a,
            0xa8, 0xaa}
  }

  /** TEST UNIT READY, SYNCHRONIZE CACHE, VERIFY and the two capacity commands need the medium. */
  lemma MediumCommandsPass(c: Cbw, lun: Lun)
    requires WellFormedCbw(c)
    ensures c.cb[0] == 0x00 ==>
      (Passes(c, lun) <==> lun.attention == 0 && lun.isOpen && c.cbLength >= 6 && OnlyBytes(c, {}))
    ensures c.cb[0] == 0x35 ==>
      (Passes(c, lun) <==> lun.attention == 0 && lun.isOpen && c.cbLength >= 10 && OnlyBytes(c, {2, 3, 4, 5, 7, 8}))
    ensures c.cb[0] == 0x2f ==>
      (Passes(c, lun) <==> lun.attention == 0 && lun.isOpen && c.cbLength >= 10 && OnlyBytes(c, {1, 2, 3, 4, 5, 7, 8}))
    ensures c.cb[0] == 0x25 ==>
      (Passes(c, lun) <==> lun.attention == 0 && lun.isOpen && c.cbLength >= 10 && MaySend(c, 8)
                           && OnlyBytes(c, {2, 3, 4, 5, 8}))
    ensures c.cb[0] == 0x23 ==>
      (Passes(c, lun) <==> lun.attention == 0 && lun.isOpen && c.cbLength >= 10
                           && MaySend(c, Big16(c.cb[7], c.cb[8])) && OnlyBytes(c, {7, 8}))
  {
    hide Passes, OnlyBytes, PhaseError;
    var cb, op := c.cb, c.cb[0];
    if op == 0x00 {
      PassesByRule(c, lun, Rule(6, NoData, {}, true, 0));
    } else if op == 0x35 {
      PassesByRule(c, lun, Rule(10, NoData, {2, 3, 4, 5, 7, 8}, true, 0));
    } else if op == 0x2f {
      PassesByRule(c, lun, Rule(10, NoData, {1, 2, 3, 4, 5, 7, 8}, true, 0));
    } else if op == 0x25 {
      PassesByRule(c, lun, Rule(10, ToHost, {2, 3, 4, 5, 8}, true, 8));
    } else if op == 0x23 {
      PassesByRule(c, lun, Rule(10, ToHost, {7, 8}, true, Big16(cb[7], cb[8])));
    }
  }

  /** The reads and writes, in three sizes each. The last size counts in 32 bits, and its number of
      bytes wraps. */
  lemma TransfersPass(c: Cbw, lun: Lun)
    requires WellFormedCbw(c)
    ensures c.cb[0] == 0x08 || c.cb[0] == 0x0a ==>
      (Passes(c, lun) <==> lun.attention == 0 && lun.isOpen && c.cbLength >= 6
                           && OnlyBytes(c, {1, 2, 3, 4}) && MayTransfer(c, 1))
    ensures c.cb[0] == 0x28 || c.cb[0] == 0x2a ==>
      (Passes(c, lun) <==> lun.attention == 0 && lun.isOpen && c.cbLength >= 10
                           && OnlyBytes(c, {1, 2, 3, 4, 5, 7, 8}) && MayTransfer(c, Big16(c.cb[7], c.cb[8])))
    ensures c.cb[0] == 0xa8 || c.cb[0] == 0xaa ==>
      (Passes(c, lun) <==> lun.attention == 0 && lun.isOpen && c.cbLength >= 12
                           && OnlyBytes(c, {1, 2, 3, 4, 5, 6, 7, 8, 9})
                           && MayTransfer(c, Big32(c.cb[6], c.cb[7], c.cb[8], c.cb[9]) * 512 % 0x1_0000_0000))
  {
    hide Passes, OnlyBytes, PhaseError;
    var cb, op := c.cb, c.cb[0];
    var dir := if op == 0x08 || op == 0x28 || op == 0xa8 then ToHost else FromHost;
    if op == 0x08 || op == 0x0a {
      var short: word := if cb[4] == 0 then 256 else cb[4];
      PassesByRule(c, lun, Rule(6, dir, {1, 2, 3, 4}, true, short * 512));
    } else if op == 0x28 || op == 0x2a {
      PassesByRule(c, lun, Rule(10, dir, {1, 2, 3, 4, 5, 7, 8}, true, Big16(cb[7], cb[8]) * 512));
    } else if op == 0xa8 || op == 0xaa {
      PassesByRule(c, lun, Rule(12, dir, {1, 2, 3, 4, 5, 6, 7, 8, 9}, true,
                                Big32(cb[6], cb[7], cb[8], cb[9]) * 512 % 0x1_0000_0000));
    }
  }

  predicate MayTransfer(c: Cbw, wanted: nat)
    requires |c.cb| == 16
  {
    if c.cb[0] == 0x08 || c.cb[0] == 0x28 || c.cb[0] == 0xa8 then MaySend(c, wanted) else MayReceive(c, wanted)
  }

  /** How many bytes a command asks for. */
  function Wanted(c: Cbw): nat
    requires |c.cb| == 16
  {
    var cb, op := c.cb, c.cb[0];
    if op == 0x03 || op == 0x12 || op == 0x15 || op == 0x1a then cb[4]
    else if op == 0x23 || op == 0x55 || op == 0x5a then Big16(cb[7], cb[8])
    else if op == 0x25 then 8
    else if op == 0x08 || op == 0x0a then (if cb[4] == 0 then 256 else cb[4] as nat) * 512
    else if op == 0x28 || op == 0x2a then Big16(cb[7], cb[8]) * 512
    else if op == 0xa8 || op == 0xaa then Big32(cb[6], cb[7], cb[8], cb[9]) * 512 % 0x1_0000_0000
    else 0
  }

  lemma WantedByRule(c: Cbw)
    requires WellFormedCbw(c)
    ensures RuleOf(c).wanted == Wanted(c)
  {
    hide Be16, Be32, Big16, Big32, SectorBytes;
    SameNumbers(c.cb);
    SmallTransfer(c.cb[4]);
    SmallTransfer(256);
    SmallTransfer(Be16(c.cb, 7));
    LargeTransfer(Be32(c.cb, 6));
  }

  lemma SameNumbers(cb: seq<byte>)
    requires |cb| == 16
    ensures Be16(cb, 7) == Big16(cb[7], cb[8]) < 0x1_0000 && Be32(cb, 6) == Big32(cb[6], cb[7], cb[8], cb[9])
  {
  }

  lemma SmallTransfer(count: nat)
    requires count < 0x1_0000
    ensures SectorBytes(count) == count * 512
  {
  }

  lemma LargeTransfer(count: word)
    ensures SectorBytes(count) == count * 512 % 0x1_0000_0000
  {
  }

  /** A command that passes is a phase error exactly if the host takes or gives less than it asks. */
  lemma PassedPhase(c: Cbw, lun: Lun)
    requires WellFormedCbw(c) && Passes(c, lun)
    ensures PhaseError(c) <==> c.length < Wanted(c)
    ensures DataSize(c) == if c.length < Wanted(c) then c.length else Wanted(c)
  {
    hide RuleOf, Wanted;
    WantedByRule(c);
    PassesByRule(c, lun, RuleOf(c));
  }

  /** A command that passes is performed. */
  lemma PassedPerforms(c: Cbw, m: Medium, faults: Faults)
    requires WellFormedCbw(c) && Passes(c, m.lun) && |m.buffer| == BUFFER_SIZE
    ensures Attempt(c, m, faults)
         == Perform(WithoutLun(c.cb), m.(lun := Cleared(m.lun, c.cb[0])), DataSize(c), c.length, faults)
  {
    hide Perform, RuleOf;
  }

  // ----- reading and writing

  /** The sector number and count in the bytes of a read or write, whose opcode is one of three. */
  predicate Names(c: Cbw, short: byte, ten: byte, twelve: byte, lba: nat, count: nat)
    requires |c.cb| == 16
  {
    var cb := c.cb;
    || (cb[0] == short && c.cbLength >= 6 && Zeros(cb, 5, c.cbLength)
        && lba == cb[1] as int % 32 * 0x1_0000 + cb[2] as int * 0x100 + cb[3]
        && count == if cb[4] == 0 then 256 else cb[4])
    || (cb[0] == ten && c.cbLength >= 10 && cb[6] == 0 && Zeros(cb, 9, c.cbLength)
        && lba == Big32(cb[2], cb[3], cb[4], cb[5]) && count == Big16(cb[7], cb[8]))
    || (cb[0] == twelve && c.cbLength >= 12 && Zeros(cb, 10, c.cbLength)
        && lba == Big32(cb[2], cb[3], cb[4], cb[5]) && count == Big32(cb[6], cb[7], cb[8], cb[9]))
  }

  /** In the longer forms, of byte 1 only the unit number, DPO and FUA may be set. */
  predicate GoodFlags(c: Cbw)
    requires |c.cb| == 16
  {
    c.cb[0] == 0x08 || c.cb[0] == 0x0a || c.cb[1] % 8 == 0
  }

  predicate IsReadOf(c: Cbw, lba: nat, count: nat) {
    && WellFormedCbw(c) && Names(c, 0x08, 0x28, 0xa8, lba, count)
    && c.length == count * 512 && (count > 0 ==> c.flags >= 0x80)
  }

  predicate IsWriteOf(c: Cbw, lba: nat, count: nat) {
    && WellFormedCbw(c) && Names(c, 0x0a, 0x2a, 0xaa, lba, count)
    && c.length == count * 512 && (count > 0 ==> c.flags < 0x80)
  }

  lemma TransferPasses(c: Cbw, lun: Lun, lba: nat, count: nat)
    requires IsReadOf(c, lba, count) || IsWriteOf(c, lba, count)
    ensures Passes(c, lun) <==> lun.attention == 0 && lun.isOpen
    ensures Wanted(c) == c.length && DataSize(c) == c.length
    ensures lun.attention == 0 && lun.isOpen ==> !PhaseError(c)
  {
    hide Passes, PhaseError, DataSize, Names, MayTransfer, Zeros, OnlyBytes, Wanted;
    OpcodeOf(c, lba, count);
    TransferWanted(c, lba, count);
    BytesUsed(c, lba, count);
    DirectionFits(c, lba, count);
    var open := lun.(attention := 0, isOpen := true);
    TransfersPass(c, lun);
    TransfersPass(c, open);
    PassedPhase(c, open);
  }

  lemma OpcodeOf(c: Cbw, lba: nat, count: nat)
    requires IsReadOf(c, lba, count) || IsWriteOf(c, lba, count)
    ensures WellFormedCbw(c)
    ensures IsReadOf(c, lba, count) ==> c.cb[0] in {0x08, 0x28, 0xa8}
    ensures IsWriteOf(c, lba, count) ==> c.cb[0] in {0x0a, 0x2a, 0xaa}
    ensures c.cbLength >= if c.cb[0] in {0x08, 0x0a} then 6 else if c.cb[0] in {0x28, 0x2a} then 10 else 12
  {
    hide Zeros;
  }

  lemma TransferWanted(c: Cbw, lba: nat, count: nat)
    requires IsReadOf(c, lba, count) || IsWriteOf(c, lba, count)
    ensures Wanted(c) == c.length
  {
    hide Zeros;
  }

  lemma BytesUsed(c: Cbw, lba: nat, count: nat)
    requires IsReadOf(c, lba, count) || IsWriteOf(c, lba, count)
    ensures c.cb[0] in {0x08, 0x0a} ==> OnlyBytes(c, {1, 2, 3, 4})
    ensures c.cb[0] in {0x28, 0x2a} ==> OnlyBytes(c, {1, 2, 3, 4, 5, 7, 8})
    ensures c.cb[0] in {0xa8, 0xaa} ==> OnlyBytes(c, {1, 2, 3, 4, 5, 6, 7, 8, 9})
  {
    hide Big16, Big32;
  }

  lemma DirectionFits(c: Cbw, lba: nat, count: nat)
    requires IsReadOf(c, lba, count) || IsWriteOf(c, lba, count)
    ensures forall wanted :: MayTransfer(c, wanted)
  {
    hide Big16, Big32, Zeros;
  }

  lemma TransferAddress(c: Cbw, lba: nat, count: nat)
    requires IsReadOf(c, lba, count) || IsWriteOf(c, lba, count)
    ensures Lba(WithoutLun(c.cb)) == lba
    ensures BadTransferFlags(WithoutLun(c.cb)) <==> !GoodFlags(c)
  {
    hide Zeros;
    UnitMasked(c.cb[1]);
  }

  lemma UnitMasked(b: byte)
    ensures b % 32 % 8 == b % 8 && b % 32 / 32 == 0
  {
  }

  /** A read of sectors inside the mounted window, of which no driver call fails, sends exactly these
      sectors and succeeds. */
  lemma ReadSectors(c: Cbw, m: Medium, faults: Faults, lba: nat, count: nat)
    requires IsReadOf(c, lba, count) && GoodFlags(c) && Safe(m) && |m.buffer| == BUFFER_SIZE
    requires m.lun.isOpen && m.lun.attention == 0 && lba < m.lun.sectorCount && lba + count <= m.lun.sectorCount
    requires !faults(0)
    ensures var (after, sent) := Execute(c, m, faults); var at := (m.lun.firstSector + lba) * 512;
            && at + c.length <= |m.disk| && after.disk == m.disk && SameWindow(after.lun, m.lun)
            && sent == (if count > 0 then [Data(m.disk[at..at + c.length])] else []) + [Csw(c.tag, 0, 0)]
  {
    hide Passes, PhaseError, DataSize, WithoutLun, RuleOf, Execute;
    Clean(c, m, faults, lba, count);
    CleanRead(c, m, faults);
  }

  lemma Clean(c: Cbw, m: Medium, faults: Faults, lba: nat, count: nat)
    requires (IsReadOf(c, lba, count) || IsWriteOf(c, lba, count)) && GoodFlags(c) && Safe(m)
    requires m.lun.isOpen && m.lun.attention == 0 && lba < m.lun.sectorCount && lba + count <= m.lun.sectorCount
    requires !faults(0)
    ensures CleanTransfer(c, m, faults) && DiskOffset(c, m.lun) == (m.lun.firstSector + lba) * 512
    ensures IsReadOf(c, lba, count) ==> IsRead(c)
    ensures IsWriteOf(c, lba, count) ==> IsWrite(c)
  {
    hide Passes, PhaseError, DataSize, WithoutLun, RuleOf, BadTransferFlags, Lba, GoodFlags, Wanted, Names, StrayBytes;
    PassedNothingStray(c, m.lun, lba, count);
    OpcodeOf(c, lba, count);
    TransferPasses(c, m.lun, lba, count);
    TransferAddress(c, lba, count);
  }

  lemma PassedNothingStray(c: Cbw, lun: Lun, lba: nat, count: nat)
    requires (IsReadOf(c, lba, count) || IsWriteOf(c, lba, count)) && lun.attention == 0 && lun.isOpen
    ensures !StrayBytes(c)
  {
    hide PhaseError, DataSize, RuleOf, Names, StrayBytes, Mismatch;
    TransferPasses(c, lun, lba, count);
  }

  /** A write inside a window mounted read-write, of which no driver call fails, replaces exactly
      these sectors by the buffer and succeeds. */
  lemma WriteSectors(c: Cbw, m: Medium, faults: Faults, lba: nat, count: nat)
    requires IsWriteOf(c, lba, count) && GoodFlags(c) && Safe(m) && |m.buffer| == BUFFER_SIZE
    requires m.lun.isOpen && m.lun.attention == 0 && lba < m.lun.sectorCount && lba + count <= m.lun.sectorCount
    requires !faults(0) && !m.lun.ro
    ensures var (after, sent) := Execute(c, m, faults); var at := (m.lun.firstSector + lba) * 512;
            && at + c.length <= |m.disk| && SameWindow(after.lun, m.lun)
            && after.disk == m.disk[..at] + m.buffer[..c.length] + m.disk[at + c.length..]
            && sent == [Csw(c.tag, 0, 0)]
  {
    hide Passes, PhaseError, DataSize, WithoutLun, RuleOf, Execute;
    Clean(c, m, faults, lba, count);
    CleanWrite(c, m, faults);
  }

  /** What one command wrote, another reads back. */
  lemma WriteThenRead(w: Cbw, r: Cbw, m: Medium, between: seq<byte>, faults: Faults, lba: nat, count: nat)
    requires IsWriteOf(w, lba, count) && IsReadOf(r, lba, count) && GoodFlags(w) && GoodFlags(r) && count > 0
    requires Safe(m) && |m.buffer| == BUFFER_SIZE == |between|
    requires m.lun.isOpen && m.lun.attention == 0 && lba < m.lun.sectorCount && lba + count <= m.lun.sectorCount
    requires !faults(0) && !m.lun.ro
    ensures Execute(r, Execute(w, m, faults).0.(buffer := between), faults).1
         == [Data(m.buffer[..w.length]), Csw(r.tag, 0, 0)]
  {
    hide Execute, IsWriteOf, IsReadOf, GoodFlags;
    SameLength(w, r, lba, count);
    WriteSectors(w, m, faults, lba, count);
    ExecuteSafe(w, m, faults);
    ReadSectors(r, Execute(w, m, faults).0.(buffer := between), faults, lba, count);
  }

  lemma SameLength(w: Cbw, r: Cbw, lba: nat, count: nat)
    requires IsWriteOf(w, lba, count) && IsReadOf(r, lba, count)
    ensures w.length == r.length && WellFormedCbw(w) && WellFormedCbw(r)
  {
  }

  /** The command fails with `sense` and touches nothing. */
  predicate FailsAs(c: Cbw, m: Medium, faults: Faults, sense: word)
    requires WellFormedCbw(c) && |m.buffer| == BUFFER_SIZE
  {
    var (after, sent) := Execute(c, m, faults);
    after.lun.sense == sense && StatusOf(sent) == 1 && after.disk == m.disk && after.accesses == m.accesses
  }

  /** A read or write fails as: write protected, invalid field in the command block, or out of
      range, by the first of these that holds. */
  lemma TransferRefused(c: Cbw, m: Medium, faults: Faults, lba: nat, count: nat)
    requires IsReadOf(c, lba, count) || IsWriteOf(c, lba, count)
    requires Safe(m) && |m.buffer| == BUFFER_SIZE && m.lun.isOpen && m.lun.attention == 0
    ensures IsWriteOf(c, lba, count) && m.lun.ro ==> FailsAs(c, m, faults, 0x072700)
    ensures !(IsWriteOf(c, lba, count) && m.lun.ro) && !GoodFlags(c) ==> FailsAs(c, m, faults, 0x052400)
    ensures
      var outside := lba >= m.lun.sectorCount || lba + count > m.lun.sectorCount;
      !(IsWriteOf(c, lba, count) && m.lun.ro) && GoodFlags(c) && outside ==> FailsAs(c, m, faults, 0x052100)
  {
    hide IsReadOf, IsWriteOf, GoodFlags, Execute;
    OpcodeOf(c, lba, count);
    var wrong := !GoodFlags(c) || lba >= m.lun.sectorCount || lba + count > m.lun.sectorCount;
    if IsReadOf(c, lba, count) {
      if wrong { ReadRefused(c, m, faults, lba, count); }
    } else if wrong || m.lun.ro {
      WriteRefused(c, m, faults, lba, count);
    }
  }

  lemma ReadRefused(c: Cbw, m: Medium, faults: Faults, lba: nat, count: nat)
    requires IsReadOf(c, lba, count)
    requires Safe(m) && |m.buffer| == BUFFER_SIZE && m.lun.isOpen && m.lun.attention == 0
    requires !GoodFlags(c) || lba >= m.lun.sectorCount || lba + count > m.lun.sectorCount
    ensures FailsAs(c, m, faults, if GoodFlags(c) then 0x052100 else 0x052400)
  {
    hide Passes, PhaseError, DataSize, WithoutLun, RuleOf, BadTransferFlags, Lba, GoodFlags, Wanted, NandRead,
         NandWrite, Attempt, Write;
    TransferPasses(c, m.lun, lba, count);
    TransferAddress(c, lba, count);
    PassedPerforms(c, m, faults);
    TransferPerformed(WithoutLun(c.cb), m.(lun := Cleared(m.lun, c.cb[0])), c.length, faults);
  }

  lemma WriteRefused(c: Cbw, m: Medium, faults: Faults, lba: nat, count: nat)
    requires IsWriteOf(c, lba, count)
    requires Safe(m) && |m.buffer| == BUFFER_SIZE && m.lun.isOpen && m.lun.attention == 0
    requires m.lun.ro || !GoodFlags(c) || lba >= m.lun.sectorCount || lba + count > m.lun.sectorCount
    ensures FailsAs(c, m, faults, if m.lun.ro then 0x072700 else if GoodFlags(c) then 0x052100 else 0x052400)
  {
    hide Passes, PhaseError, DataSize, WithoutLun, RuleOf, BadTransferFlags, Lba, GoodFlags, Wanted, NandRead,
         NandWrite, Attempt, Read;
    TransferPasses(c, m.lun, lba, count);
    TransferAddress(c, lba, count);
    PassedPerforms(c, m, faults);
    TransferPerformed(WithoutLun(c.cb), m.(lun := Cleared(m.lun, c.cb[0])), c.length, faults);
  }

  /** A driver call that fails is reported with the sector number, and the disk stays as it was. */
  lemma TransferBroken(c: Cbw, m: Medium, faults: Faults, lba: nat, count: nat)
    requires (IsReadOf(c, lba, count) || (IsWriteOf(c, lba, count) && !m.lun.ro)) && GoodFlags(c)
    requires Safe(m) && |m.buffer| == BUFFER_SIZE && m.lun.isOpen && m.lun.attention == 0
    requires lba < m.lun.sectorCount && lba + count <= m.lun.sectorCount && faults(0)
    ensures var (after, sent) := Execute(c, m, faults);
            && after.lun.sense == (if IsReadOf(c, lba, count) then 0x031100 else 0x030c02)
            && after.lun.info == lba && after.lun.infoValid
            && StatusOf(sent) == 1 && after.disk == m.disk
  {
    hide Passes, PhaseError, DataSize, WithoutLun, RuleOf, BadTransferFlags, Lba, GoodFlags, Wanted, Attempt;
    TransferPasses(c, m.lun, lba, count);
    TransferAddress(c, lba, count);
    PassedPerforms(c, m, faults);
    TransferPerformed(WithoutLun(c.cb), m.(lun := Cleared(m.lun, c.cb[0])), c.length, faults);
  }
}
