/**
 The SCSI target of `allwindisk/arm/masstorage.c` on values: what one Bulk-Only Transport
 command does to the logical unit, the disk and the transfer buffer, and what is sent back.
 USB Mass Storage Class Bulk-Only Transport 1.0, sections 5.1, 5.2 and 6.7; SCSI-2, section 7.9.
 */
module ScsiTarget {
  import opened BinaryArithmetic

  // ----- constants

  const TEST_UNIT_READY: byte := 0x00
  const REQUEST_SENSE: byte := 0x03
  const READ_6: byte := 0x08
  const WRITE_6: byte := 0x0a
  const INQUIRY: byte := 0x12
  const MODE_SELECT: byte := 0x15
  const MODE_SENSE: byte := 0x1a
  const START_STOP: byte := 0x1b
  const ALLOW_MEDIUM_REMOVAL: byte := 0x1e
  const READ_FORMAT_CAPACITIES: byte := 0x23
  const READ_CAPACITY: byte := 0x25
  const READ_10: byte := 0x28
  const WRITE_10: byte := 0x2a
  const VERIFY: byte := 0x2f
  const SYNCHRONIZE_CACHE: byte := 0x35
  const MODE_SELECT_10: byte := 0x55
  const MODE_SENSE_10: byte := 0x5a
  const READ_12: byte := 0xa8
  const WRITE_12: byte := 0xaa

  const SS_NO_SENSE: word := 0
  const SS_INVALID_COMMAND: word := 0x052000
  const SS_INVALID_FIELD_IN_CDB: word := 0x052400
  const SS_LOGICAL_BLOCK_ADDRESS_OUT_OF_RANGE: word := 0x052100
  const SS_LOGICAL_UNIT_NOT_SUPPORTED: word := 0x052500
  const SS_MEDIUM_NOT_PRESENT: word := 0x023a00
  const SS_MEDIUM_REMOVAL_PREVENTED: word := 0x055302
  const SS_SAVING_PARAMETERS_NOT_SUPPORTED: word := 0x053900
  const SS_UNRECOVERED_READ_ERROR: word := 0x031100
  const SS_WRITE_ERROR: word := 0x030c02
  const SS_WRITE_PROTECTED: word := 0x072700

  const BUFFER_SIZE: nat := 0x100_0000

  // ----- data

  datatype Cbw = Cbw(tag: word, length: word, flags: byte, cbLength: byte, cb: seq<byte>)

  datatype Direction = Unknown | FromHost | ToHost | NoData

  datatype Lun = Lun(isOpen: bool, firstSector: word, sectorCount: word, ro: bool, removable: bool,
                     prevent: bool, infoValid: bool, sense: word, info: word, attention: word)

  /** One call of the NAND driver. */
  datatype Access = Access(write: bool, first: word, count: nat)

  /** The logical unit, the disk as bytes and the transfer buffer. */
  datatype Medium = Medium(lun: Lun, disk: seq<byte>, buffer: seq<byte>, accesses: seq<Access>)

  /** `Reply(n)`: n bytes are ready; `NoReply`: residue already set (`-ERR_EIO`);
      `Invalid`: the command was refused (`-ERR_EINVAL`). */
  datatype Reply = Reply(n: nat) | NoReply | Invalid

  datatype Result = Result(medium: Medium, reply: Reply, residue: int)

  datatype Message = Data(bytes: seq<byte>) | Csw(tag: word, residue: int, status: byte)

  /** The answers of the NAND driver: whether the i-th call of this command fails. */
  type Faults = nat -> bool

  predicate WellFormedCbw(c: Cbw) {
    c.length <= BUFFER_SIZE && c.cbLength <= 16 && |c.cb| == 16
  }

  predicate ToHostFlag(c: Cbw) {
    c.flags >= 0x80
  }

  // ----- big-endian fields

  function Be16(s: seq<byte>, i: nat): word
    requires i + 2 <= |s|
  {
    s[i] as int * 0x100 + s[i + 1]
  }

  function Be24(s: seq<byte>, i: nat): word
    requires i + 3 <= |s|
  {
    s[i] as int * 0x1_0000 + s[i + 1] as int * 0x100 + s[i + 2]
  }

  function Be32(s: seq<byte>, i: nat): word
    requires i + 4 <= |s|
  {
    s[i] as int * 0x100_0000 + s[i + 1] as int * 0x1_0000 + s[i + 2] as int * 0x100 + s[i + 3]
  }

  function PutBe16(v: word): seq<byte> {
    [v / 0x100 % 0x100, v % 0x100]
  }

  function PutBe32(v: word): (s: seq<byte>)
    ensures |s| == 4
  {
    [v / 0x100_0000, v / 0x1_0000 % 0x100, v / 0x100 % 0x100, v % 0x100]
  }

  /** Writing a 32-bit value and reading it back. */
  lemma Be32RoundTrip(v: word)
    ensures Be32(PutBe32(v), 0) == v
  {
    assert v / 0x100_0000 == v / 0x1_0000 / 0x100 && v / 0x1_0000 == v / 0x100 / 0x100;
    assert v / 0x1_0000 == v / 0x100_0000 * 0x100 + v / 0x1_0000 % 0x100;
    assert v / 0x100 == v / 0x1_0000 * 0x100 + v / 0x100 % 0x100;
  }

  lemma Be32Inside(s: seq<byte>, i: nat, v: word)
    requires i + 4 <= |s| && s[i..i + 4] == PutBe32(v)
    ensures Be32(s, i) == v
  {
    Be32RoundTrip(v);
    hide PutBe32;
    var p := s[i..i + 4];
    assert p[0] == s[i] && p[1] == s[i + 1] && p[2] == s[i + 2] && p[3] == s[i + 3];
  }

  // ----- the command table

  /** Command length, data direction, the command bytes that may be non-zero, whether a
      medium is needed, and how much data the command itself asks for. */
  datatype Rule = Rule(size: nat, dir: Direction, mask: set<nat>, medium: bool, wanted: word)

  /** Sector counts given in 32 bits are shifted by 9 in 32-bit arithmetic. */
  function SectorBytes(count: word): word {
    count * 512 % 0x1_0000_0000
  }

  function RuleOf(c: Cbw): Rule
    requires |c.cb| == 16
  {
    var op, cb := c.cb[0], c.cb;
    var short: word := if cb[4] == 0 then 256 else cb[4];
    if op == INQUIRY then Rule(6, ToHost, {4}, false, cb[4])
    else if op == MODE_SELECT then Rule(6, FromHost, {1, 4}, false, cb[4])
    else if op == MODE_SELECT_10 then Rule(10, FromHost, {1, 7, 8}, false, Be16(cb, 7))
    else if op == MODE_SENSE then Rule(6, ToHost, {1, 2, 4}, false, cb[4])
    else if op == MODE_SENSE_10 then Rule(10, ToHost, {1, 2, 7, 8}, false, Be16(cb, 7))
    else if op == ALLOW_MEDIUM_REMOVAL then Rule(6, NoData, {4}, false, 0)
    else if op == READ_6 then Rule(6, ToHost, {1, 2, 3, 4}, true, SectorBytes(short))
    else if op == READ_10 then Rule(10, ToHost, {1, 2, 3, 4, 5, 7, 8}, true, SectorBytes(Be16(cb, 7)))
    else if op == READ_12 then Rule(12, ToHost, {1, 2, 3, 4, 5, 6, 7, 8, 9}, true, SectorBytes(Be32(cb, 6)))
    else if op == READ_CAPACITY then Rule(10, ToHost, {2, 3, 4, 5, 8}, true, 8)
    else if op == READ_FORMAT_CAPACITIES then Rule(10, ToHost, {7, 8}, true, Be16(cb, 7))
    else if op == REQUEST_SENSE then Rule(6, ToHost, {4}, false, cb[4])
    else if op == START_STOP then Rule(6, NoData, {1, 4}, false, 0)
    else if op == SYNCHRONIZE_CACHE then Rule(10, NoData, {2, 3, 4, 5, 7, 8}, true, 0)
    else if op == TEST_UNIT_READY then Rule(6, NoData, {}, true, 0)
    else if op == VERIFY then Rule(10, NoData, {1, 2, 3, 4, 5, 7, 8}, true, 0)
    else if op == WRITE_6 then Rule(6, FromHost, {1, 2, 3, 4}, true, SectorBytes(short))
    else if op == WRITE_10 then Rule(10, FromHost, {1, 2, 3, 4, 5, 7, 8}, true, SectorBytes(Be16(cb, 7)))
    else if op == WRITE_12 then Rule(12, FromHost, {1, 2, 3, 4, 5, 6, 7, 8, 9}, true, SectorBytes(Be32(cb, 6)))
    else Rule(c.cbLength, Unknown, AllBytes(), false, 0)
  }

  function AllBytes(): set<nat> {
    {0, 1, 2, 3, 4, 5, 6, 7, 8, 9, 10, 11, 12, 13, 14, 15}
  }

  /** The data size agreed on: never more than the host allows. */
  function DataSize(c: Cbw): word
    requires |c.cb| == 16
  {
    var wanted := RuleOf(c).wanted;
    if c.length < wanted then c.length else wanted
  }

  function HostDirection(c: Cbw): Direction {
    if c.length == 0 then NoData else if ToHostFlag(c) then ToHost else FromHost
  }

  /** Host and device disagree on the direction, or the command block is too short. */
  predicate Mismatch(c: Cbw)
    requires |c.cb| == 16
  {
    var rule := RuleOf(c);
    || (DataSize(c) > 0 && HostDirection(c) != rule.dir)
    || c.cbLength < rule.size
  }

  predicate PhaseError(c: Cbw)
    requires |c.cb| == 16
  {
    c.length < RuleOf(c).wanted || Mismatch(c)
  }

  /** The command block with the LUN bits of byte 1 masked away. */
  function WithoutLun(cb: seq<byte>): (r: seq<byte>)
    requires |cb| == 16
    ensures |r| == 16 && r[0] == cb[0] && r[1] < 32
  {
    cb[1 := cb[1] % 32]
  }

  predicate StrayBytes(c: Cbw)
    requires WellFormedCbw(c)
  {
    Stray(WithoutLun(c.cb), c.cbLength, RuleOf(c).mask)
  }

  /** Some command byte outside the mask is not zero. */
  predicate Stray(cb: seq<byte>, n: nat, mask: set<nat>)
    requires n <= |cb|
  {
    exists i :: 1 <= i < n && cb[i] != 0 && i !in mask
  }

  /** Every command but REQUEST SENSE starts with the sense data cleared. */
  function Cleared(lun: Lun, op: byte): Lun {
    if op == REQUEST_SENSE then lun else lun.(sense := SS_NO_SENSE, info := 0, infoValid := false)
  }

  predicate AttentionStops(lun: Lun, op: byte) {
    lun.attention != SS_NO_SENSE && op != INQUIRY && op != REQUEST_SENSE
  }

  /** What check_command leaves in the logical unit when the host's request makes sense:
      nothing if the command may go ahead. */
  function Refusal(c: Cbw, lun: Lun): (sense: word)
    requires WellFormedCbw(c)
  {
    if AttentionStops(lun, c.cb[0]) then lun.attention
    else if StrayBytes(c) then SS_INVALID_FIELD_IN_CDB
    else if !lun.isOpen && RuleOf(c).medium then SS_MEDIUM_NOT_PRESENT
    else SS_NO_SENSE
  }

  // ----- replies

  /** "Generic ", "AllwinDisk      ", "0.01" and the terminating NUL. */
  const INQUIRY_TEXT: seq<byte> := [
    0x47, 0x65, 0x6e, 0x65, 0x72, 0x69, 0x63, 0x20,
    0x41, 0x6c, 0x6c, 0x77, 0x69, 0x6e, 0x44, 0x69, 0x73, 0x6b, 0x20, 0x20, 0x20, 0x20, 0x20, 0x20,
    0x30, 0x2e, 0x30, 0x31, 0]

  function InquiryData(lun: Lun): seq<byte> {
    [0, if lun.removable then 0x80 else 0, 2, 2, 31, 0, 0, 0] + INQUIRY_TEXT
  }

  /** Fixed-format sense data: sense key, information, ASC and ASCQ. */
  function SenseData(lun: Lun): (s: seq<byte>)
    ensures |s| == 18
  {
    var i := PutBe32(lun.info);
    [if lun.infoValid then 0xf0 else 0x70, 0, lun.sense / 0x1_0000 % 0x100,
     i[0], i[1], i[2], i[3], 10, 0, 0, 0, 0, lun.sense / 0x100 % 0x100, lun.sense % 0x100, 0, 0, 0, 0]
  }

  function CapacityData(lun: Lun): seq<byte> {
    PutBe32((lun.sectorCount + 0x1_0000_0000 - 1) % 0x1_0000_0000) + PutBe32(512)
  }

  function FormatData(lun: Lun): (s: seq<byte>)
    ensures |s| == 12
  {
    var n := PutBe32(lun.sectorCount);
    [0, 0, 0, 8, n[0], n[1], n[2], n[3], 2, 0, 2, 0]
  }

  /** The host gets the last sector's number from READ CAPACITY, the number of sectors from READ
      FORMAT CAPACITIES, and a sector size of 512 bytes from both. */
  lemma CapacityReported(lun: Lun)
    ensures |CapacityData(lun)| == 8
    ensures Be32(CapacityData(lun), 0) == if lun.sectorCount == 0 then 0xFFFF_FFFF else lun.sectorCount - 1
    ensures Be32(FormatData(lun), 4) == lun.sectorCount
    ensures Be32(CapacityData(lun), 4) == Be24(FormatData(lun), 9) == 512
  {
    hide Be32;
    var last: word := if lun.sectorCount == 0 then 0xFFFF_FFFF else lun.sectorCount - 1;
    assert CapacityData(lun) == PutBe32(last) + PutBe32(512);
    Be32Inside(CapacityData(lun), 0, last);
    Be32Inside(CapacityData(lun), 4, 512);
    Be32Inside(FormatData(lun), 4, lun.sectorCount);
  }

  function ModeHeader(op: byte, lun: Lun): seq<byte> {
    var protect: byte := if lun.ro then 0x80 else 0;
    if op == MODE_SENSE then [15, 0, protect, 0] else [0, 18, 0, protect, 0, 0, 0, 0]
  }

  /** The header without its length, left in the buffer when the page turns out unknown. */
  function BareModeHeader(op: byte, lun: Lun): seq<byte> {
    var protect: byte := if lun.ro then 0x80 else 0;
    if op == MODE_SENSE then [0, 0, protect, 0, 0, 0, 0, 0] else [0, 0, 0, protect, 0, 0, 0, 0]
  }

  /** The caching page; asked for its changeable values it reports none. */
  function CachingPage(changeable: bool): seq<byte> {
    if changeable then [8, 10, 0, 0, 0, 0, 0, 0, 0, 0, 0, 0]
    else [8, 10, 4, 0, 0xff, 0xff, 0, 0, 0xff, 0xff, 0xff, 0xff]
  }

  // ----- the commands

  function Overlay(buffer: seq<byte>, data: seq<byte>): seq<byte>
    requires |data| <= |buffer|
  {
    data + buffer[|data|..]
  }

  function Refuse(m: Medium, sense: word, residue: int): (r: Result)
    ensures |r.medium.buffer| == |m.buffer| && |r.medium.disk| == |m.disk|
  {
    Result(m.(lun := m.lun.(sense := sense)), Invalid, residue)
  }

  function Answer(m: Medium, data: seq<byte>, residue: int): (r: Result)
    requires |data| <= |m.buffer|
    ensures |r.medium.buffer| == |m.buffer| && |r.medium.disk| == |m.disk|
  {
    Result(m.(buffer := Overlay(m.buffer, data)), Reply(|data|), residue)
  }

  function Lba(cb: seq<byte>): word
    requires |cb| == 16
  {
    if cb[0] == READ_6 || cb[0] == WRITE_6 then Be24(cb, 1) else Be32(cb, 2)
  }

  /** Bits other than DPO and FUA in byte 1 of a 10- or 12-byte read or write. */
  predicate BadTransferFlags(cb: seq<byte>)
    requires |cb| == 16
  {
    cb[0] != READ_6 && cb[0] != WRITE_6 && (cb[1] % 8 != 0 || cb[1] / 32 != 0)
  }

  /** The range check, in 32-bit arithmetic as in the source. */
  predicate OutOfRange(lba: word, count: nat, lun: Lun) {
    lba >= lun.sectorCount || (lba + count) % 0x1_0000_0000 > lun.sectorCount
  }

  /** The sectors `[first, first + count)` of the disk lie on the disk. */
  predicate OnDisk(disk: seq<byte>, first: nat, count: nat) {
    (first + count) * 512 <= |disk|
  }

  /** The NAND driver: reading. A failing call, or one beyond the disk, reads nothing. */
  function NandRead(m: Medium, first: word, count: nat, fault: bool): (r: (Medium, bool))
    requires count * 512 <= |m.buffer|
    ensures |r.0.buffer| == |m.buffer| && r.0.disk == m.disk && r.0.lun == m.lun
  {
    var logged := m.(accesses := m.accesses + [Access(false, first, count)]);
    if fault || !OnDisk(m.disk, first, count) then (logged, true)
    else (logged.(buffer := Overlay(m.buffer, m.disk[first * 512..(first + count) * 512])), false)
  }

  /** The NAND driver: writing. A failing call, or one beyond the disk, writes nothing. */
  function NandWrite(m: Medium, first: word, count: nat, fault: bool): (r: (Medium, bool))
    requires count * 512 <= |m.buffer|
    ensures r.0.buffer == m.buffer && |r.0.disk| == |m.disk| && r.0.lun == m.lun
  {
    var logged := m.(accesses := m.accesses + [Access(true, first, count)]);
    if fault || !OnDisk(m.disk, first, count) then (logged, true)
    else (logged.(disk := m.disk[..first * 512] + m.buffer[..count * 512] + m.disk[(first + count) * 512..]), false)
  }

  function Flagged(m: Medium, sense: word, info: word): Medium {
    m.(lun := m.lun.(sense := sense, info := info, infoValid := true))
  }

  function Read(cb: seq<byte>, m: Medium, size: nat, residue: int, faults: Faults): (r: Result)
    requires |cb| == 16 && size <= |m.buffer|
    ensures |r.medium.buffer| == |m.buffer| && |r.medium.disk| == |m.disk|
  {
    var lba, count := Lba(cb), size / 512;
    if BadTransferFlags(cb) then Refuse(m, SS_INVALID_FIELD_IN_CDB, residue)
    else if OutOfRange(lba, count, m.lun) then Refuse(m, SS_LOGICAL_BLOCK_ADDRESS_OUT_OF_RANGE, residue)
    else
      var (m', failed) := NandRead(m, (m.lun.firstSector + lba) % 0x1_0000_0000, count, faults(0));
      Result(if failed then Flagged(m', SS_UNRECOVERED_READ_ERROR, lba) else m', NoReply, residue - count * 512)
  }

  function Write(cb: seq<byte>, m: Medium, size: nat, residue: int, faults: Faults): (r: Result)
    requires |cb| == 16 && size <= |m.buffer|
    ensures |r.medium.buffer| == |m.buffer| && |r.medium.disk| == |m.disk|
  {
    var lba, count := Lba(cb), size / 512;
    if m.lun.ro then Refuse(m, SS_WRITE_PROTECTED, residue)
    else if BadTransferFlags(cb) then Refuse(m, SS_INVALID_FIELD_IN_CDB, residue)
    else if OutOfRange(lba, count, m.lun) then Refuse(m, SS_LOGICAL_BLOCK_ADDRESS_OUT_OF_RANGE, residue)
    else
      var (m', failed) := NandWrite(m, (m.lun.firstSector + lba) % 0x1_0000_0000, count, faults(0));
      if failed then Result(Flagged(m', SS_WRITE_ERROR, lba), NoReply, residue)
      else Result(m', NoReply, residue - count * 512)
  }

  /** Reads `left` sectors from `lba` on, at most 4096 at a time, until one read fails. */
  function VerifyBlocks(m: Medium, lba: word, left: nat, faults: Faults, call: nat): (r: Medium)
    requires |m.buffer| >= 4096 * 512
    ensures |r.buffer| == |m.buffer| && r.disk == m.disk
    decreases left
  {
    if left == 0 then m
    else
      var amount := if left < 4096 then left else 4096;
      var (m', failed) := NandRead(m, (m.lun.firstSector + lba) % 0x1_0000_0000, amount, faults(call));
      if failed then Flagged(m', SS_UNRECOVERED_READ_ERROR, lba)
      else VerifyBlocks(m', (lba + amount) % 0x1_0000_0000, left - amount, faults, call + 1)
  }

  function Verify(cb: seq<byte>, m: Medium, residue: int, faults: Faults): (r: Result)
    requires |cb| == 16 && |m.buffer| == BUFFER_SIZE
    ensures |r.medium.buffer| == |m.buffer| && |r.medium.disk| == |m.disk|
  {
    var lba, length := Be32(cb, 2), Be16(cb, 7);
    if lba >= m.lun.sectorCount then Refuse(m, SS_LOGICAL_BLOCK_ADDRESS_OUT_OF_RANGE, residue)
    else if cb[1] % 16 != 0 || cb[1] / 32 != 0 then Refuse(m, SS_INVALID_FIELD_IN_CDB, residue)
    else if length == 0 then Result(m, NoReply, residue)
    else if (lba + length) % 0x1_0000_0000 > m.lun.sectorCount then
      Result(Flagged(m, SS_LOGICAL_BLOCK_ADDRESS_OUT_OF_RANGE, (lba + length - 1) % 0x1_0000_0000), Invalid, residue)
    else Result(VerifyBlocks(m, lba, length, faults, 0), Reply(0), residue)
  }

  function ModeSense(cb: seq<byte>, m: Medium, residue: int): (r: Result)
    requires |cb| == 16 && |m.buffer| == BUFFER_SIZE
    ensures |r.medium.buffer| == |m.buffer| && |r.medium.disk| == |m.disk|
  {
    var control, page := cb[2] / 64, cb[2] % 64;
    if cb[1] % 8 != 0 || cb[1] / 16 != 0 then Refuse(m, SS_INVALID_FIELD_IN_CDB, residue)
    else if control == 3 then Refuse(m, SS_SAVING_PARAMETERS_NOT_SUPPORTED, residue)
    else if page == 8 || page == 0x3f then
      Answer(m, ModeHeader(cb[0], m.lun) + CachingPage(control == 1), residue)
    else
      Refuse(m.(buffer := Overlay(m.buffer, BareModeHeader(cb[0], m.lun))), SS_INVALID_FIELD_IN_CDB, residue)
  }

  function StartStop(cb: seq<byte>, m: Medium, residue: int): (r: Result)
    requires |cb| == 16
    ensures |r.medium.buffer| == |m.buffer| && |r.medium.disk| == |m.disk|
  {
    var start, eject := cb[4] % 2 == 1, cb[4] / 2 % 2 == 1;
    if !m.lun.removable then Refuse(m, SS_INVALID_COMMAND, residue)
    else if cb[1] / 2 != 0 || cb[4] / 4 != 0 then Refuse(m, SS_INVALID_FIELD_IN_CDB, residue)
    else if start then
      if m.lun.isOpen then Result(m, Reply(0), residue) else Refuse(m, SS_MEDIUM_NOT_PRESENT, residue)
    else if m.lun.prevent then Refuse(m, SS_MEDIUM_REMOVAL_PREVENTED, residue)
    else Result(if eject then m.(lun := m.lun.(isOpen := false)) else m, Reply(0), residue)
  }

  function PreventAllow(cb: seq<byte>, m: Medium, residue: int): (r: Result)
    requires |cb| == 16
    ensures |r.medium.buffer| == |m.buffer| && |r.medium.disk| == |m.disk|
  {
    if !m.lun.removable then Refuse(m, SS_INVALID_COMMAND, residue)
    else if cb[4] / 2 != 0 then Refuse(m, SS_INVALID_FIELD_IN_CDB, residue)
    else Result(m.(lun := m.lun.(prevent := cb[4] == 1)), Reply(0), residue)
  }

  /** The command proper, once check_command let it pass. */
  function Perform(cb: seq<byte>, m: Medium, size: nat, residue: int, faults: Faults): (r: Result)
    requires |cb| == 16 && |m.buffer| == BUFFER_SIZE && size <= BUFFER_SIZE
    ensures |r.medium.buffer| == |m.buffer| && |r.medium.disk| == |m.disk|
  {
    var op := cb[0];
    if op == INQUIRY then Answer(m, InquiryData(m.lun), residue).(reply := Reply(36))
    else if op == MODE_SELECT || op == MODE_SELECT_10 then Refuse(m, SS_INVALID_COMMAND, residue)
    else if op == MODE_SENSE || op == MODE_SENSE_10 then ModeSense(cb, m, residue)
    else if op == ALLOW_MEDIUM_REMOVAL then PreventAllow(cb, m, residue)
    else if op == READ_6 || op == READ_10 || op == READ_12 then Read(cb, m, size, residue, faults)
    else if op == READ_CAPACITY then
      if cb[8] > 1 || (cb[8] == 0 && Be32(cb, 2) != 0) then Refuse(m, SS_INVALID_FIELD_IN_CDB, residue)
      else Answer(m, CapacityData(m.lun), residue)
    else if op == READ_FORMAT_CAPACITIES then Answer(m, FormatData(m.lun), residue)
    else if op == REQUEST_SENSE then
      Answer(m.(lun := m.lun.(sense := SS_NO_SENSE, info := 0, infoValid := false)), SenseData(m.lun), residue)
    else if op == START_STOP then StartStop(cb, m, residue)
    else if op == SYNCHRONIZE_CACHE || op == TEST_UNIT_READY then Result(m, Reply(0), residue)
    else if op == VERIFY then Verify(cb, m, residue, faults)
    else if op == WRITE_6 || op == WRITE_10 || op == WRITE_12 then Write(cb, m, size, residue, faults)
    else Refuse(m, SS_INVALID_COMMAND, residue)
  }

  /** check_command and the command, up to the reply length. */
  function Attempt(c: Cbw, m: Medium, faults: Faults): (r: Result)
    requires WellFormedCbw(c) && |m.buffer| == BUFFER_SIZE
    ensures |r.medium.buffer| == |m.buffer| && |r.medium.disk| == |m.disk|
  {
    if Mismatch(c) then Result(m, Invalid, c.length)
    else
      var lun := Cleared(m.lun, c.cb[0]);
      var refusal := Refusal(c, lun);
      if AttentionStops(lun, c.cb[0]) then
        Refuse(m.(lun := lun.(attention := SS_NO_SENSE)), refusal, c.length)
      else if refusal != SS_NO_SENSE then Refuse(m.(lun := lun), refusal, c.length)
      else Perform(WithoutLun(c.cb), m.(lun := lun), DataSize(c), c.length, faults)
  }

  /** The residue after an IN command's reply has been cut to the agreed size. */
  function FinalResidue(c: Cbw, r: Result): int
    requires |c.cb| == 16
  {
    if r.reply.NoReply? || c.length == 0 || !ToHostFlag(c) || r.reply.Invalid? then r.residue
    else r.residue - (if r.reply.n > DataSize(c) then DataSize(c) else r.reply.n)
  }

  function Status(c: Cbw, lun: Lun): byte
    requires |c.cb| == 16
  {
    if PhaseError(c) then 2 else if lun.sense != SS_NO_SENSE then 1 else 0
  }

  /** The data phase, if any: always as long as the host asked. */
  function DataPhase(c: Cbw, buffer: seq<byte>): seq<Message>
    requires c.length <= |buffer|
  {
    if c.length != 0 && ToHostFlag(c) then [Data(buffer[..c.length])] else []
  }

  /** One whole command: the new medium and everything sent to the host. */
  function Execute(c: Cbw, m: Medium, faults: Faults): (Medium, seq<Message>)
    requires WellFormedCbw(c) && |m.buffer| == BUFFER_SIZE
  {
    var r := Attempt(c, m, faults);
    (r.medium, DataPhase(c, r.medium.buffer) + [Csw(c.tag, FinalResidue(c, r), Status(c, r.medium.lun))])
  }
}
