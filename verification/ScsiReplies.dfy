/**
 What the SCSI commands of `allwindisk/arm/masstorage.c` other than reads and writes do and answer,
 byte by byte, once they pass; and why they fail if they do not.
 */
module ScsiReplies {
  import opened BinaryArithmetic
  import opened CommandWrapper
  import opened ScsiTarget
  import opened BulkOnlyDevice
  import opened ScsiCommands

  function Min(a: nat, b: nat): nat {
    if a < b then a else b
  }

  function Ascii(s: string): seq<byte> {
    seq<byte>(|s|, i requires 0 <= i < |s| => s[i] as int % 0x100)
  }

  /** The command passes the checks and its host takes all that it asks for. */
  predicate Good(c: Cbw, op: byte, m: Medium) {
    && WellFormedCbw(c) && c.cb[0] == op && |m.buffer| == BUFFER_SIZE
    && Passes(c, m.lun) && c.length >= Wanted(c)
  }

  /** The command sends `reply`, as much of it as was asked for, reports the rest of the announced
      length as residue, succeeds, and touches nothing. */
  predicate Replies(c: Cbw, m: Medium, faults: Faults, reply: seq<byte>)
    requires WellFormedCbw(c) && |m.buffer| == BUFFER_SIZE
  {
    var (after, sent) := Execute(c, m, faults);
    && after.disk == m.disk && after.accesses == m.accesses && SameWindow(after.lun, m.lun)
    && if c.length > 0 && c.flags >= 0x80 then
         && |sent| == 2 && sent[0].Data? && |sent[0].bytes| == c.length
         && sent[0].bytes[..Min(c.length, |reply|)] == reply[..Min(c.length, |reply|)]
         && sent[1] == Csw(c.tag, c.length - Min(Wanted(c), |reply|), 0)
       else sent == [Csw(c.tag, c.length, 0)]
  }

  /** The command succeeds and leaves the unit as `lun`, but for the sense data, which is cleared. */
  predicate Leaves(c: Cbw, m: Medium, faults: Faults, lun: Lun)
    requires WellFormedCbw(c) && |m.buffer| == BUFFER_SIZE
  {
    var (after, sent) := Execute(c, m, faults);
    && after.lun == lun.(sense := 0, info := 0, infoValid := false)
    && after.disk == m.disk && after.accesses == m.accesses && StatusOf(sent) == 0
  }

  lemma GoodPerforms(c: Cbw, op: byte, m: Medium, faults: Faults)
    requires Good(c, op, m)
    ensures !PhaseError(c) && DataSize(c) == Wanted(c)
    ensures Attempt(c, m, faults)
         == Perform(WithoutLun(c.cb), m.(lun := Cleared(m.lun, c.cb[0])), Wanted(c), c.length, faults)
  {
    hide Perform, RuleOf, Passes, PhaseError, DataSize, Wanted;
    PassedPhase(c, m.lun);
    PassedPerforms(c, m, faults);
  }

  lemma AnswerSent(c: Cbw, m: Medium, faults: Faults, k: Medium, data: seq<byte>)
    requires WellFormedCbw(c) && |m.buffer| == BUFFER_SIZE == |k.buffer| && |data| <= BUFFER_SIZE
    requires !PhaseError(c) && DataSize(c) == Wanted(c) <= c.length
    requires Attempt(c, m, faults) == Answer(k, data, c.length)
    requires k.disk == m.disk && k.accesses == m.accesses && SameWindow(k.lun, m.lun) && k.lun.sense == 0
    ensures Replies(c, m, faults, data)
  {
    hide RuleOf, PhaseError, DataSize, Wanted, Attempt;
    var buffer := data + k.buffer[|data|..];
    var n := Min(c.length, |data|);
    assert buffer[..c.length][..n] == data[..n];
  }

  lemma RefusalSent(c: Cbw, m: Medium, faults: Faults, sense: word)
    requires WellFormedCbw(c) && |m.buffer| == BUFFER_SIZE && !PhaseError(c) && sense != 0
    requires var r := Attempt(c, m, faults);
             r.medium.lun.sense == sense && r.medium.disk == m.disk && r.medium.accesses == m.accesses
    ensures FailsAs(c, m, faults, sense)
  {
    hide RuleOf, PhaseError, DataSize, Attempt;
  }

  /** INQUIRY */
  lemma InquiryReplies(c: Cbw, m: Medium, faults: Faults)
    requires Good(c, 0x12, m)
    ensures Replies(c, m, faults,
                    [0, if m.lun.removable then 0x80 else 0, 2, 2, 31, 0, 0, 0] + Ascii("Generic AllwinDisk      0.01"))
  {
    hide RuleOf, Passes, PhaseError, DataSize, Wanted, WithoutLun, Attempt;
    GoodPerforms(c, 0x12, m, faults);
    var text := Ascii("Generic AllwinDisk      0.01");
    assert INQUIRY_TEXT[..28] == text;
  }

  /** REQUEST SENSE; it clears what it reports. */
  lemma RequestSenseReplies(c: Cbw, m: Medium, faults: Faults)
    requires Good(c, 0x03, m)
    ensures var i, v := Be(m.lun.info), m.lun.sense;
            Replies(c, m, faults,
                    [if m.lun.infoValid then 0xf0 else 0x70, 0, v / 0x1_0000 % 0x100, i[0], i[1], i[2], i[3], 10,
                     0, 0, 0, 0, v / 0x100 % 0x100, v % 0x100, 0, 0, 0, 0])
    ensures Leaves(c, m, faults, m.lun)
  {
    hide RuleOf, Passes, PhaseError, DataSize, Wanted, WithoutLun, Attempt;
    GoodPerforms(c, 0x03, m, faults);
  }

  /** READ CAPACITY: the last sector, of the medium or, with PMI, behind any sector. */
  lemma CapacityReplies(c: Cbw, m: Medium, faults: Faults)
    requires Good(c, 0x25, m)
    ensures
      var last: word := if m.lun.sectorCount == 0 then 0xFFFF_FFFF else m.lun.sectorCount - 1;
      if c.cb[8] == 1 || (c.cb[8] == 0 && Zeros(c.cb, 2, 6)) then Replies(c, m, faults, Be(last) + [0, 0, 2, 0])
      else FailsAs(c, m, faults, 0x052400)
  {
    hide RuleOf, Passes, PhaseError, DataSize, Wanted, Attempt, Zeros, Be32, PutBe32, WithoutLun;
    GoodPerforms(c, 0x25, m, faults);
    var cb, k := WithoutLun(c.cb), m.(lun := Cleared(m.lun, c.cb[0]));
    MaskedTail(c.cb);
    ZeroSector(cb, c.cb);
    CapacityBytes(m.lun);
    if c.cb[8] == 1 || (c.cb[8] == 0 && Zeros(c.cb, 2, 6)) {
      AnswerSent(c, m, faults, k, CapacityData(k.lun));
    } else {
      RefusalSent(c, m, faults, 0x052400);
    }
  }

  lemma MaskedTail(cb: seq<byte>)
    requires |cb| == 16
    ensures WithoutLun(cb)[1] == cb[1] % 32 && WithoutLun(cb)[2..] == cb[2..]
  {
  }

  lemma CapacityBytes(lun: Lun)
    ensures
      var last: word := if lun.sectorCount == 0 then 0xFFFF_FFFF else lun.sectorCount - 1;
      CapacityData(lun) == Be(last) + [0, 0, 2, 0]
    ensures |CapacityData(lun)| == 8
  {
    assert (lun.sectorCount + 0x1_0000_0000 - 1) % 0x1_0000_0000
        == if lun.sectorCount == 0 then 0xFFFF_FFFF else lun.sectorCount - 1;
    assert PutBe32(512) == [0, 0, 2, 0];
  }

  lemma ZeroSector(cb: seq<byte>, was: seq<byte>)
    requires |cb| == 16 == |was| && cb[2..] == was[2..]
    ensures Be32(cb, 2) == 0 <==> Zeros(was, 2, 6)
    ensures cb[8] == was[8]
  {
    assert forall i :: 2 <= i < 16 ==> cb[i] == cb[2..][i - 2] == was[2..][i - 2] == was[i];
  }

  /** READ FORMAT CAPACITIES */
  lemma FormatCapacitiesReply(c: Cbw, m: Medium, faults: Faults)
    requires Good(c, 0x23, m)
    ensures Replies(c, m, faults, [0, 0, 0, 8] + Be(m.lun.sectorCount) + [2, 0, 2, 0])
  {
    hide RuleOf, Passes, PhaseError, DataSize, Wanted, WithoutLun, Attempt, Be32;
    GoodPerforms(c, 0x23, m, faults);
    var k := m.(lun := Cleared(m.lun, c.cb[0]));
    assert FormatData(k.lun) == [0, 0, 0, 8] + Be(m.lun.sectorCount) + [2, 0, 2, 0];
    AnswerSent(c, m, faults, k, FormatData(k.lun));
  }

  /** The caching page, its values or (all zero) which of them can be changed. */
  function Page(changeable: bool): seq<byte> {
    if changeable then [8, 10, 0, 0, 0, 0, 0, 0, 0, 0, 0, 0] else [8, 10, 4, 0, 255, 255, 0, 0, 255, 255, 255, 255]
  }

  /** MODE SENSE, in both sizes: the write protection and the caching page. */
  lemma ModeSenseReplies(c: Cbw, m: Medium, faults: Faults)
    requires Good(c, 0x1a, m) || Good(c, 0x5a, m)
    ensures
      var flags, control, page := c.cb[1] % 32, c.cb[2] / 64, c.cb[2] % 64;
      var protect: byte := if m.lun.ro then 0x80 else 0;
      if flags != 0 && flags != 8 then FailsAs(c, m, faults, 0x052400)
      else if control == 3 then FailsAs(c, m, faults, 0x053900)
      else if page != 8 && page != 63 then FailsAs(c, m, faults, 0x052400)
      else if c.cb[0] == 0x1a then Replies(c, m, faults, [15, 0, protect, 0] + Page(control == 1))
      else Replies(c, m, faults, [0, 18, 0, protect, 0, 0, 0, 0] + Page(control == 1))
  {
    hide RuleOf, Passes, PhaseError, DataSize, Wanted, Attempt, ModeSense, WithoutLun, ModeHeader, CachingPage, Page,
      FailsAs, Replies;
    GoodPerforms(c, c.cb[0], m, faults);
    var cb, k := WithoutLun(c.cb), m.(lun := Cleared(m.lun, c.cb[0]));
    MaskedTail(c.cb);
    assert cb[2] == cb[2..][0] == c.cb[2];
    ModeSenseCases(cb, c.cb[1], k, c.length);
    var sense := Attempt(c, m, faults).medium.lun.sense;
    if sense != 0 {
      RefusalSent(c, m, faults, sense);
    } else {
      ModeBytes(c.cb[0], k.lun, cb[2] / 64 == 1);
      AnswerSent(c, m, faults, k, ModeHeader(c.cb[0], k.lun) + CachingPage(cb[2] / 64 == 1));
    }
  }

  lemma ModeBytes(op: byte, lun: Lun, changeable: bool)
    ensures
      var protect: byte := if lun.ro then 0x80 else 0;
      ModeHeader(op, lun) + CachingPage(changeable)
      == (if op == 0x1a then [15, 0, protect, 0] else [0, 18, 0, protect, 0, 0, 0, 0]) + Page(changeable)
    ensures |ModeHeader(op, lun) + CachingPage(changeable)| <= 20
  {
  }

  lemma ModeSenseCases(cb: seq<byte>, b: byte, m: Medium, residue: int)
    requires |cb| == 16 && cb[1] == b % 32 && |m.buffer| == BUFFER_SIZE
    ensures
      var r, control, page := ModeSense(cb, m, residue), cb[2] / 64, cb[2] % 64;
      if b % 32 != 0 && b % 32 != 8 then
        r.reply.Invalid? && r.residue == residue && r.medium == m.(lun := m.lun.(sense := 0x052400))
      else if control == 3 then
        r.reply.Invalid? && r.residue == residue && r.medium == m.(lun := m.lun.(sense := 0x053900))
      else if page != 8 && page != 63 then
        r.reply.Invalid? && r.residue == residue && r.medium.lun == m.lun.(sense := 0x052400)
        && r.medium.disk == m.disk && r.medium.accesses == m.accesses
      else
        r == Answer(m, ModeHeader(cb[0], m.lun) + CachingPage(control == 1), residue)
  {
    hide ModeHeader, BareModeHeader, CachingPage, Overlay;
  }

  /** START STOP UNIT: only Immed, LoEj and Start may be set; starting needs the medium, stopping an
      unlocked one, and LoEj ejects it. */
  lemma StartStopActs(c: Cbw, m: Medium, faults: Faults)
    requires Good(c, 0x1b, m)
    ensures
      var how := c.cb[4];
      if !m.lun.removable then FailsAs(c, m, faults, 0x052000)
      else if c.cb[1] % 32 > 1 || how > 3 then FailsAs(c, m, faults, 0x052400)
      else if how == 1 || how == 3 then
        if m.lun.isOpen then Leaves(c, m, faults, m.lun) else FailsAs(c, m, faults, 0x023a00)
      else if m.lun.prevent then FailsAs(c, m, faults, 0x055302)
      else Leaves(c, m, faults, m.lun.(isOpen := m.lun.isOpen && how != 2))
  {
    hide RuleOf, Passes, PhaseError, DataSize, Wanted, Attempt;
    GoodPerforms(c, 0x1b, m, faults);
  }

  /** PREVENT ALLOW MEDIUM REMOVAL sets the lock, or clears it. */
  lemma PreventAllowActs(c: Cbw, m: Medium, faults: Faults)
    requires Good(c, 0x1e, m)
    ensures
      if !m.lun.removable then FailsAs(c, m, faults, 0x052000)
      else if c.cb[4] > 1 then FailsAs(c, m, faults, 0x052400)
      else Leaves(c, m, faults, m.lun.(prevent := c.cb[4] == 1))
  {
    hide RuleOf, Passes, PhaseError, DataSize, Wanted, Attempt;
    GoodPerforms(c, 0x1e, m, faults);
  }

  /** TEST UNIT READY and SYNCHRONIZE CACHE do nothing; MODE SELECT and unknown commands fail. */
  lemma TheOthers(c: Cbw, m: Medium, faults: Faults)
    requires |c.cb| == 16 && Good(c, c.cb[0], m)
    ensures c.cb[0] == 0x00 || c.cb[0] == 0x35 ==> Leaves(c, m, faults, m.lun)
    ensures c.cb[0] == 0x15 || c.cb[0] == 0x55 || UnknownOp(c.cb[0]) ==> FailsAs(c, m, faults, 0x052000)
  {
    hide RuleOf, Passes, PhaseError, DataSize, Wanted, Attempt;
    GoodPerforms(c, c.cb[0], m, faults);
  }

  // ----- VERIFY

  /** Reads, one behind the other, of `count` sectors from `first` on. */
  predicate Covers(accesses: seq<Access>, first: nat, count: nat)
    decreases |accesses|
  {
    if accesses == [] then count == 0
    else
      && !accesses[0].write && accesses[0].first == first && 0 < accesses[0].count <= count
      && Covers(accesses[1..], first + accesses[0].count, count - accesses[0].count)
  }

  /** VERIFY of a range inside the window reads all of it, if no driver call fails. */
  lemma VerifyReadsAll(c: Cbw, m: Medium, faults: Faults)
    requires Good(c, 0x2f, m) && Safe(m) && c.cb[1] % 32 in {0, 16} && forall k :: !faults(k)
    requires
      var lba, count := Big32(c.cb[2], c.cb[3], c.cb[4], c.cb[5]), Big16(c.cb[7], c.cb[8]);
      lba < m.lun.sectorCount && lba + count <= m.lun.sectorCount
    ensures
      var lba, count := Big32(c.cb[2], c.cb[3], c.cb[4], c.cb[5]), Big16(c.cb[7], c.cb[8]);
      var (after, sent) := Execute(c, m, faults);
      && StatusOf(sent) == 0 && after.disk == m.disk && SameWindow(after.lun, m.lun)
      && m.accesses <= after.accesses
      && Covers(after.accesses[|m.accesses|..], m.lun.firstSector + lba, count)
  {
    hide RuleOf, Passes, PhaseError, DataSize, Wanted, Attempt, VerifyBlocks, Covers, WithoutLun, Perform, Be16, Be32;
    var lba, count := Big32(c.cb[2], c.cb[3], c.cb[4], c.cb[5]), Big16(c.cb[7], c.cb[8]);
    VerifyOpen(c, m);
    GoodPerforms(c, 0x2f, m, faults);
    var cb, k := WithoutLun(c.cb), m.(lun := Cleared(m.lun, c.cb[0]));
    VerifyRuns(c.cb, k, lba, count, Wanted(c), c.length, faults);
    BlocksCover(k, lba, count, faults, 0);
  }

  lemma VerifyRuns(was: seq<byte>, m: Medium, lba: word, count: nat, size: nat, residue: int, faults: Faults)
    requires |was| == 16 && was[0] == 0x2f && was[1] % 32 in {0, 16}
    requires |m.buffer| == BUFFER_SIZE && size <= BUFFER_SIZE && Safe(m) && m.lun.isOpen
    requires lba == Big32(was[2], was[3], was[4], was[5]) && count == Big16(was[7], was[8])
    requires lba < m.lun.sectorCount && lba + count <= m.lun.sectorCount
    ensures Perform(WithoutLun(was), m, size, residue, faults).medium == VerifyBlocks(m, lba, count, faults, 0)
  {
    hide VerifyBlocks, WithoutLun, Perform, Verify;
    var cb := WithoutLun(was);
    MaskedTail(was);
    assert forall i :: 2 <= i < 16 ==> cb[i] == cb[2..][i - 2] == was[2..][i - 2] == was[i];
    VerifyFlags(cb[1]);
    PerformsVerify(cb, m, size, residue, faults);
    VerifyInside(cb, m, lba, count, residue, faults);
  }

  lemma VerifyFlags(b: byte)
    ensures b in {0, 16} ==> b % 16 == 0 && b / 32 == 0
  {
  }

  lemma PerformsVerify(cb: seq<byte>, m: Medium, size: nat, residue: int, faults: Faults)
    requires |cb| == 16 && cb[0] == 0x2f && |m.buffer| == BUFFER_SIZE && size <= BUFFER_SIZE
    ensures Perform(cb, m, size, residue, faults) == Verify(cb, m, residue, faults)
  {
    hide Verify;
  }

  lemma VerifyInside(cb: seq<byte>, m: Medium, lba: word, count: nat, residue: int, faults: Faults)
    requires |cb| == 16 && cb[1] % 16 == 0 && cb[1] / 32 == 0 && |m.buffer| == BUFFER_SIZE
    requires lba == Be32(cb, 2) && count == Be16(cb, 7)
    requires lba < m.lun.sectorCount && lba + count <= m.lun.sectorCount
    ensures Verify(cb, m, residue, faults).medium == VerifyBlocks(m, lba, count, faults, 0)
  {
    hide VerifyBlocks, Be32, Be16;
    NoBlocks(m, lba, faults, 0);
    NoWrap(lba, count);
  }

  lemma NoWrap(a: nat, b: nat)
    requires a + b < 0x1_0000_0000
    ensures (a + b) % 0x1_0000_0000 == a + b
  {
  }

  lemma VerifyOpen(c: Cbw, m: Medium)
    requires Good(c, 0x2f, m)
    ensures m.lun.isOpen
  {
    hide RuleOf, Passes;
    MediumCommandsPass(c, m.lun);
  }

  lemma NothingCovered(accesses: seq<Access>, first: nat)
    ensures Covers(accesses[|accesses|..], first, 0)
  {
  }

  lemma {:induction false} BlocksCover(m: Medium, lba: word, left: nat, faults: Faults, call: nat)
    requires Safe(m) && m.lun.isOpen && |m.buffer| >= 4096 * 512 && forall k :: !faults(k)
    requires lba as int + left <= m.lun.sectorCount && m.lun.sense == 0
    ensures var v := VerifyBlocks(m, lba, left, faults, call);
            && v.lun == m.lun && m.accesses <= v.accesses
            && Covers(v.accesses[|m.accesses|..], m.lun.firstSector + lba, left)
    decreases left
  {
    hide VerifyBlocks, NandRead, Covers;
    if left > 0 {
      var amount, k := BlockStep(m, lba, left, faults, call);
      BlocksCover(k, lba + amount, left - amount, faults, call + 1);
      MoreCovered(m.accesses, VerifyBlocks(m, lba, left, faults, call).accesses, m.lun.firstSector + lba, amount, left);
    } else {
      NoBlocks(m, lba, faults, call);
      NothingCovered(m.accesses, m.lun.firstSector + lba);
    }
  }

  lemma NoBlocks(m: Medium, lba: word, faults: Faults, call: nat)
    requires |m.buffer| >= 4096 * 512
    ensures VerifyBlocks(m, lba, 0, faults, call) == m
  {
  }

  lemma BlockStep(m: Medium, lba: word, left: nat, faults: Faults, call: nat) returns (amount: nat, k: Medium)
    requires Safe(m) && m.lun.isOpen && |m.buffer| >= 4096 * 512 && forall k :: !faults(k)
    requires lba as int + left <= m.lun.sectorCount && left > 0
    ensures 0 < amount <= left && k.lun == m.lun && k.disk == m.disk && |k.buffer| == |m.buffer|
    ensures k.accesses == m.accesses + [Access(false, m.lun.firstSector + lba, amount)]
    ensures lba + amount < 0x1_0000_0000
    ensures VerifyBlocks(m, lba, left, faults, call) == VerifyBlocks(k, lba + amount, left - amount, faults, call + 1)
  {
    amount := if left < 4096 then left else 4096;
    var first := m.lun.firstSector + lba;
    assert first % 0x1_0000_0000 == first && (first + amount) * 512 <= |m.disk|;
    k := NandRead(m, first, amount, faults(call)).0;
    hide NandRead;
    assert (lba + amount) % 0x1_0000_0000 == lba + amount;
  }

  lemma MoreCovered(before: seq<Access>, after: seq<Access>, first: nat, amount: nat, left: nat)
    requires first < 0x1_0000_0000 && 0 < amount <= left && before + [Access(false, first, amount)] <= after
    requires Covers(after[|before| + 1..], first + amount, left - amount)
    ensures before <= after && Covers(after[|before|..], first, left)
  {
    assert after[|before|..][0] == Access(false, first, amount);
    assert after[|before|..][1..] == after[|before| + 1..];
  }

  // ----- commands that do not pass

  /** Without unit attention and phase error, a command that does not pass fails for a stray byte, or
      else because the medium is missing. */
  lemma WhyItFails(c: Cbw, m: Medium, faults: Faults)
    requires WellFormedCbw(c) && |m.buffer| == BUFFER_SIZE && !PhaseError(c) && m.lun.attention == 0
    requires !Passes(c, m.lun)
    ensures FailsAs(c, m, faults, if Passes(c, m.lun.(isOpen := true)) then 0x023a00 else 0x052400)
  {
    hide Perform, RuleOf;
  }
}
