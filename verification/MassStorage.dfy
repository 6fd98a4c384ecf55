/**
 `allwindisk/arm/masstorage.c`: the handlers, which update the static command, unit and
 buffer in place. Each is proved to do what `ScsiTarget` and `BulkOnlyDevice` say.
 */
module MassStorage {
  import opened BinaryArithmetic
  import opened LittleEndian
  import opened ScsiTarget
  import opened BulkOnlyDevice

  class Gadget {
    var cmd: Cbw                  // cur_cmd
    var written: nat              // cur_cmd_bytes_written
    const buffer: array<byte>     // masstorage_buffer
    var lun: Lun
    var selected: bool            // curlun != NULL
    var dataSize: word            // data_size_from_cmnd
    var residue: word
    var phaseError: bool
    var disk: seq<byte>           // behind the NAND driver
    ghost var accesses: seq<Access>
    var sent: seq<Message>        // what usbdcomm_masstorage_tx was given

    ghost predicate Ready()
      reads this, buffer
    {
      BulkOnlyDevice.Valid(State())
    }

    ghost function Med(): Medium
      reads this, buffer
    {
      Medium(lun, disk, buffer[..], accesses)
    }

    ghost function State(): Device
      reads this, buffer
    {
      Device(cmd, written, Med())
    }

    constructor (memory: array<byte>, nand: seq<byte>)
      requires memory.Length == BUFFER_SIZE
      ensures buffer == memory && sent == [] && !selected
      ensures State() == PowerUp(nand, memory[..]) && Ready()
    {
      cmd := Cbw(0, 0, 0, 0, seq(16, _ => 0));
      written := 0;
      buffer := memory;
      lun := Lun(false, 0, 0, true, true, false, false, 0, 0, 0);
      selected := false;
      dataSize, residue, phaseError := 0, 0, false;
      disk, accesses, sent := nand, [], [];
    }

    // ----- the NAND driver

    method LogicRead(first: word, count: nat, fault: bool) returns (failed: bool)
      requires count * 512 <= buffer.Length
      modifies buffer, this`accesses
      ensures (Med(), failed) == NandRead(old(Med()), first, count, fault)
    {
      accesses := accesses + [Access(false, first, count)];
      if fault || !OnDisk(disk, first, count) {
        return true;
      }
      forall i | 0 <= i < count * 512 {
        buffer[i] := disk[first * 512 + i];
      }
      assert buffer[..] == Overlay(old(buffer[..]), disk[first * 512..(first + count) * 512]);
      return false;
    }

    method LogicWrite(first: word, count: nat, fault: bool) returns (failed: bool)
      requires count * 512 <= buffer.Length
      modifies this`disk, this`accesses
      ensures (Med(), failed) == NandWrite(old(Med()), first, count, fault)
    {
      accesses := accesses + [Access(true, first, count)];
      if fault || !OnDisk(disk, first, count) {
        return true;
      }
      disk := disk[..first * 512] + buffer[..count * 512] + disk[(first + count) * 512..];
      return false;
    }

    // ----- the commands

    /** The address of a transfer, and the flags of its longer forms. */
    method TransferStart(sixByteForm: byte) returns (ok: bool, lba: word)
      requires |cmd.cb| == 16 && (sixByteForm == READ_6 || sixByteForm == WRITE_6)
      requires cmd.cb[0] == sixByteForm || (cmd.cb[0] != READ_6 && cmd.cb[0] != WRITE_6)
      modifies this`lun
      ensures ok == !BadTransferFlags(cmd.cb) && lba == Lba(cmd.cb)
      ensures lun == if ok then old(lun) else old(lun).(sense := SS_INVALID_FIELD_IN_CDB)
    {
      ok := true;
      if cmd.cb[0] == sixByteForm {
        lba := Be24(cmd.cb, 1);
      } else {
        lba := Be32(cmd.cb, 2);
        if cmd.cb[1] % 8 != 0 || cmd.cb[1] / 32 != 0 {
          lun := lun.(sense := SS_INVALID_FIELD_IN_CDB);
          ok := false;
        }
      }
    }

    method DoRead(faults: Faults) returns (reply: Reply)
      requires |cmd.cb| == 16 && cmd.cb[0] in {READ_6, READ_10, READ_12}
      requires dataSize <= residue && dataSize <= buffer.Length == BUFFER_SIZE
      modifies buffer, this`lun, this`residue, this`accesses
      ensures Result(Med(), reply, residue) == Read(cmd.cb, old(Med()), dataSize, old(residue), faults)
    {
      hide NandRead, Lba, BadTransferFlags;
      var ok, lba := TransferStart(READ_6);
      if !ok {
        return Invalid;
      }
      var sectorCount := dataSize / 512;
      if lba >= lun.sectorCount || (lba + sectorCount) % 0x1_0000_0000 > lun.sectorCount {
        lun := lun.(sense := SS_LOGICAL_BLOCK_ADDRESS_OUT_OF_RANGE);
        return Invalid;
      }
      var failed := LogicRead((lun.firstSector + lba) % 0x1_0000_0000, sectorCount, faults(0));
      if failed {
        lun := lun.(sense := SS_UNRECOVERED_READ_ERROR);
        lun := lun.(info := lba);
        lun := lun.(infoValid := true);
      }
      residue := residue - sectorCount * 512;
      return NoReply;
    }

    method DoWrite(faults: Faults) returns (reply: Reply)
      requires |cmd.cb| == 16 && cmd.cb[0] in {WRITE_6, WRITE_10, WRITE_12}
      requires dataSize <= residue && dataSize <= buffer.Length == BUFFER_SIZE
      modifies this`lun, this`residue, this`disk, this`accesses
      ensures Result(Med(), reply, residue) == Write(cmd.cb, old(Med()), dataSize, old(residue), faults)
    {
      hide NandWrite, Lba, BadTransferFlags;
      if lun.ro {
        lun := lun.(sense := SS_WRITE_PROTECTED);
        return Invalid;
      }
      var ok, lba := TransferStart(WRITE_6);
      if !ok {
        return Invalid;
      }
      var sectorCount := dataSize / 512;
      if lba >= lun.sectorCount || (lba + sectorCount) % 0x1_0000_0000 > lun.sectorCount {
        lun := lun.(sense := SS_LOGICAL_BLOCK_ADDRESS_OUT_OF_RANGE);
        return Invalid;
      }
      var failed := LogicWrite((lun.firstSector + lba) % 0x1_0000_0000, sectorCount, faults(0));
      if failed {
        lun := lun.(sense := SS_WRITE_ERROR);
        lun := lun.(info := lba);
        lun := lun.(infoValid := true);
        return NoReply;
      }
      residue := residue - sectorCount * 512;
      return NoReply;
    }

    method DoVerify(faults: Faults) returns (reply: Reply)
      requires |cmd.cb| == 16 && buffer.Length == BUFFER_SIZE
      modifies buffer, this`lun, this`accesses
      ensures Result(Med(), reply, residue) == Verify(cmd.cb, old(Med()), residue, faults)
    {
      var lba := Be32(cmd.cb, 2);
      if lba >= lun.sectorCount {
        lun := lun.(sense := SS_LOGICAL_BLOCK_ADDRESS_OUT_OF_RANGE);
        return Invalid;
      }
      if cmd.cb[1] % 16 != 0 || cmd.cb[1] / 32 != 0 {
        lun := lun.(sense := SS_INVALID_FIELD_IN_CDB);
        return Invalid;
      }
      var length := Be16(cmd.cb, 7);
      if length == 0 {
        return NoReply;
      }
      if (lba + length) % 0x1_0000_0000 > lun.sectorCount {
        lun := lun.(sense := SS_LOGICAL_BLOCK_ADDRESS_OUT_OF_RANGE);
        lun := lun.(info := (lba + length - 1) % 0x1_0000_0000);
        lun := lun.(infoValid := true);
        return Invalid;
      }
      ReadBlocks(lba, length, faults);
      return Reply(0);
    }

    /** The read loop of do_verify: at most 4096 sectors at a time. */
    method ReadBlocks(start: word, length: nat, faults: Faults)
      requires buffer.Length == BUFFER_SIZE
      modifies buffer, this`lun, this`accesses
      ensures Med() == VerifyBlocks(old(Med()), start, length, faults, 0)
    {
      hide NandRead;
      var lba: word, left: nat, call: nat := start, length, 0;
      while left > 0
        invariant VerifyBlocks(Med(), lba, left, faults, call) == VerifyBlocks(old(Med()), start, length, faults, 0)
        decreases left
      {
        var amount := if left < 4096 then left else 4096;
        var failed := LogicRead((lun.firstSector + lba) % 0x1_0000_0000, amount, faults(call));
        if failed {
          lun := lun.(sense := SS_UNRECOVERED_READ_ERROR);
          lun := lun.(info := lba);
          lun := lun.(infoValid := true);
          return;
        }
        lba := (lba + amount) % 0x1_0000_0000;
        left := left - amount;
        call := call + 1;
      }
    }

    /** memset, memcpy and the put_unaligned helpers on the buffer. */
    method Put(at: nat, data: seq<byte>)
      requires at + |data| <= buffer.Length
      modifies buffer
      ensures forall i :: at <= i < at + |data| ==> buffer[i] == data[i - at]
      ensures forall i :: 0 <= i < buffer.Length && !(at <= i < at + |data|) ==> buffer[i] == old(buffer[i])
    {
      forall i | 0 <= i < |data| {
        buffer[at + i] := data[i];
      }
    }

    method DoInquiry() returns (reply: Reply)
      requires buffer.Length == BUFFER_SIZE
      modifies buffer
      ensures reply == Reply(36) && buffer[..] == Overlay(old(buffer[..]), InquiryData(lun))
    {
      buffer[0] := 0;
      buffer[1] := if lun.removable then 0x80 else 0;
      buffer[2] := 2;
      buffer[3] := 2;
      buffer[4] := 31;
      buffer[5] := 0;
      buffer[6] := 0;
      buffer[7] := 0;
      Put(8, INQUIRY_TEXT);
      OverlayByBytes(old(buffer[..]), buffer[..], InquiryData(lun));
      return Reply(36);
    }

    method DoRequestSense() returns (reply: Reply)
      requires buffer.Length == BUFFER_SIZE
      modifies buffer, this`lun
      ensures reply == Reply(18) && buffer[..] == Overlay(old(buffer[..]), SenseData(old(lun)))
      ensures lun == old(lun).(sense := SS_NO_SENSE, info := 0, infoValid := false)
    {
      var was := lun;
      lun := lun.(sense := SS_NO_SENSE);
      lun := lun.(info := 0);
      lun := lun.(infoValid := false);
      PutSense(was);
      return Reply(18);
    }

    method PutSense(was: Lun)
      requires buffer.Length == BUFFER_SIZE
      modifies buffer
      ensures buffer[..] == Overlay(old(buffer[..]), SenseData(was))
    {
      hide PutBe32, Overlay;
      Put(0, seq(18, _ => 0));
      buffer[0] := (if was.infoValid then 0x80 else 0) + 0x70;
      buffer[2] := was.sense / 0x1_0000 % 0x100;
      Put(3, PutBe32(was.info));
      buffer[7] := 18 - 8;
      buffer[12] := was.sense / 0x100 % 0x100;
      buffer[13] := was.sense % 0x100;
      OverlayByBytes(old(buffer[..]), buffer[..], SenseData(was));
    }

    method DoReadCapacity() returns (reply: Reply)
      requires |cmd.cb| == 16 && buffer.Length == BUFFER_SIZE
      modifies buffer, this`lun
      ensures Result(Med(), reply, residue) ==
        if cmd.cb[8] > 1 || (cmd.cb[8] == 0 && Be32(cmd.cb, 2) != 0)
        then Refuse(old(Med()), SS_INVALID_FIELD_IN_CDB, residue)
        else Answer(old(Med()), CapacityData(old(lun)), residue)
    {
      var lba, pmi := Be32(cmd.cb, 2), cmd.cb[8];
      if pmi > 1 || (pmi == 0 && lba != 0) {
        lun := lun.(sense := SS_INVALID_FIELD_IN_CDB);
        return Invalid;
      }
      Put(0, PutBe32((lun.sectorCount + 0x1_0000_0000 - 1) % 0x1_0000_0000));
      Put(4, PutBe32(512));
      OverlayByBytes(old(buffer[..]), buffer[..], CapacityData(lun));
      return Reply(8);
    }

    method DoModeSense() returns (reply: Reply)
      requires |cmd.cb| == 16 && cmd.cb[0] in {MODE_SENSE, MODE_SENSE_10} && buffer.Length == BUFFER_SIZE
      modifies buffer, this`lun
      ensures Result(Med(), reply, residue) == ModeSense(cmd.cb, old(Med()), residue)
    {
      if cmd.cb[1] % 8 != 0 || cmd.cb[1] / 16 != 0 {
        lun := lun.(sense := SS_INVALID_FIELD_IN_CDB);
        return Invalid;
      }
      var pc, page := cmd.cb[2] / 64, cmd.cb[2] % 64;
      if pc == 3 {
        lun := lun.(sense := SS_SAVING_PARAMETERS_NOT_SUPPORTED);
        return Invalid;
      }
      reply := PutModeData(pc == 1, page == 8 || page == 0x3f);
    }

    /** do_mode_sense, from the parameter header on. */
    method PutModeData(changeable: bool, withPage: bool) returns (reply: Reply)
      requires |cmd.cb| == 16 && cmd.cb[0] in {MODE_SENSE, MODE_SENSE_10} && buffer.Length == BUFFER_SIZE
      modifies buffer, this`lun
      ensures withPage ==>
        Result(Med(), reply, residue)
        == Answer(old(Med()), ModeHeader(cmd.cb[0], old(lun)) + CachingPage(changeable), residue)
      ensures !withPage ==>
        Result(Med(), reply, residue) ==
          Refuse(old(Med()).(buffer := Overlay(old(buffer[..]), BareModeHeader(cmd.cb[0], old(lun)))),
                 SS_INVALID_FIELD_IN_CDB, residue)
    {
      var at := PutModeHeader();
      var limit := if cmd.cb[0] == MODE_SENSE then 255 else 65535;
      if withPage {
        PutCachingPage(at, changeable);
        at := at + 12;
      }
      var len := at;
      if !withPage || len > limit {
        lun := lun.(sense := SS_INVALID_FIELD_IN_CDB);
        return Invalid;
      }
      if cmd.cb[0] == MODE_SENSE {
        buffer[0] := len - 1;
        OverlayByBytes(old(buffer[..]), buffer[..], ModeHeader(MODE_SENSE, lun) + CachingPage(changeable));
      } else {
        Put(0, PutBe16(len - 2));
        OverlayByBytes(old(buffer[..]), buffer[..], ModeHeader(MODE_SENSE_10, lun) + CachingPage(changeable));
      }
      return Reply(len);
    }

    /** Clears eight bytes and sets the write-protect bit; the page, if any, goes to `at`. */
    method PutModeHeader() returns (at: nat)
      requires |cmd.cb| == 16 && buffer.Length == BUFFER_SIZE
      modifies buffer
      ensures at == if cmd.cb[0] == MODE_SENSE then 4 else 8
      ensures buffer[..] == Overlay(old(buffer[..]), BareModeHeader(cmd.cb[0], lun))
    {
      Put(0, [0, 0, 0, 0, 0, 0, 0, 0]);
      if cmd.cb[0] == MODE_SENSE {
        buffer[2] := if lun.ro then 0x80 else 0;
        at := 4;
      } else {
        buffer[3] := if lun.ro then 0x80 else 0;
        at := 8;
      }
      OverlayByBytes(old(buffer[..]), buffer[..], BareModeHeader(cmd.cb[0], lun));
    }

    method PutCachingPage(at: nat, changeable: bool)
      requires at + 12 <= buffer.Length
      modifies buffer
      ensures forall i :: at <= i < at + 12 ==> buffer[i] == CachingPage(changeable)[i - at]
      ensures forall i :: 0 <= i < buffer.Length && !(at <= i < at + 12) ==> buffer[i] == old(buffer[i])
    {
      buffer[at] := 8;
      buffer[at + 1] := 10;
      Put(at + 2, [0, 0, 0, 0, 0, 0, 0, 0, 0, 0]);
      if !changeable {
        buffer[at + 2] := 4;
        Put(at + 4, PutBe16(0xffff));
        Put(at + 8, PutBe16(0xffff));
        Put(at + 10, PutBe16(0xffff));
      }
    }

    method DoStartStop() returns (reply: Reply)
      requires |cmd.cb| == 16
      modifies this`lun
      ensures Result(Med(), reply, residue) == StartStop(cmd.cb, old(Med()), residue)
    {
      if !lun.removable {
        lun := lun.(sense := SS_INVALID_COMMAND);
        return Invalid;
      } else if cmd.cb[1] / 2 != 0 || cmd.cb[4] / 4 != 0 {
        lun := lun.(sense := SS_INVALID_FIELD_IN_CDB);
        return Invalid;
      }
      var loej, start := cmd.cb[4] / 2 % 2 == 1, cmd.cb[4] % 2 == 1;
      if start {
        if !lun.isOpen {
          lun := lun.(sense := SS_MEDIUM_NOT_PRESENT);
          return Invalid;
        }
        return Reply(0);
      }
      if lun.prevent {
        lun := lun.(sense := SS_MEDIUM_REMOVAL_PREVENTED);
        return Invalid;
      }
      if !loej {
        return Reply(0);
      }
      lun := lun.(isOpen := false);
      return Reply(0);
    }

    method DoPreventAllow() returns (reply: Reply)
      requires |cmd.cb| == 16
      modifies this`lun
      ensures Result(Med(), reply, residue) == PreventAllow(cmd.cb, old(Med()), residue)
    {
      if !lun.removable {
        lun := lun.(sense := SS_INVALID_COMMAND);
        return Invalid;
      }
      var prevent := cmd.cb[4] % 2 == 1;
      if cmd.cb[4] / 2 != 0 {
        lun := lun.(sense := SS_INVALID_FIELD_IN_CDB);
        return Invalid;
      }
      lun := lun.(prevent := prevent);
      return Reply(0);
    }

    method DoReadFormatCapacities() returns (reply: Reply)
      requires buffer.Length == BUFFER_SIZE
      modifies buffer
      ensures reply == Reply(12) && buffer[..] == Overlay(old(buffer[..]), FormatData(lun))
    {
      buffer[0] := 0;
      buffer[1] := 0;
      buffer[2] := 0;
      buffer[3] := 8;
      Put(4, PutBe32(lun.sectorCount));
      Put(8, PutBe32(512));
      buffer[8] := 2;
      OverlayByBytes(old(buffer[..]), buffer[..], FormatData(lun));
      return Reply(12);
    }

    // ----- checking, dispatching and answering

    /** check_command; true if the command may go ahead. */
    method CheckCommand(size: nat, direction: Direction, mask: set<nat>, needsMedium: bool) returns (ok: bool)
      requires WellFormedCbw(cmd) && !phaseError
      requires Rule(size, direction, mask, needsMedium, dataSize) == RuleOf(cmd)
      modifies this`lun, this`selected, this`dataSize, this`residue, this`phaseError, this`cmd
      ensures dataSize == DataSize(old(cmd)) && residue == old(cmd).length
      ensures phaseError == PhaseError(old(cmd)) && cmd == Stored(old(cmd), old(lun))
      ensures Mismatch(old(cmd)) ==> !ok && lun == old(lun)
      ensures !Mismatch(old(cmd)) ==> selected && Checked(old(cmd), old(lun), ok, lun)
    {
      hide RuleOf;
      var agreed := CheckTransfer(size, direction);
      if !agreed {
        return false;
      }
      // a longer command block than necessary is accepted as it is
      var commandSize := if size != cmd.cbLength then cmd.cbLength else size;
      selected := true;
      ok := CheckUnit(commandSize, mask, needsMedium);
    }

    /** The first half of check_command: data size, direction and command length. */
    method CheckTransfer(size: nat, direction: Direction) returns (agreed: bool)
      requires WellFormedCbw(cmd) && !phaseError
      requires size == RuleOf(cmd).size && direction == RuleOf(cmd).dir && dataSize == RuleOf(cmd).wanted
      modifies this`dataSize, this`residue, this`phaseError
      ensures dataSize == DataSize(cmd) && residue == cmd.length
      ensures phaseError == PhaseError(cmd) && agreed == !Mismatch(cmd)
    {
      hide RuleOf;
      var hostDirection := if cmd.length == 0 then NoData else if ToHostFlag(cmd) then ToHost else FromHost;
      var dataDirection := if dataSize == 0 then NoData else direction;
      if cmd.length < dataSize {
        dataSize := cmd.length;
        phaseError := true;
      }
      residue := cmd.length;
      if hostDirection != dataDirection && dataSize > 0 {
        phaseError := true;
        return false;
      }
      if size != cmd.cbLength && size > cmd.cbLength {
        phaseError := true;
        return false;
      }
      return true;
    }

    /** The second half of check_command: sense data, unit attention, stray bytes, medium. */
    method CheckUnit(commandSize: nat, mask: set<nat>, needsMedium: bool) returns (ok: bool)
      requires WellFormedCbw(cmd) && !Mismatch(cmd) && commandSize == cmd.cbLength
      requires mask == RuleOf(cmd).mask && needsMedium == RuleOf(cmd).medium
      modifies this`lun, this`cmd
      ensures cmd == Stored(old(cmd), old(lun)) && Checked(old(cmd), old(lun), ok, lun)
    {
      hide RuleOf, Mismatch, Stray;
      var stopped := CheckAttention();
      if stopped {
        return false;
      }
      cmd := cmd.(cb := cmd.cb[1 := cmd.cb[1] % 32]);
      hide WithoutLun;
      var stray := FindStray(commandSize, mask);
      if stray {
        lun := lun.(sense := SS_INVALID_FIELD_IN_CDB);
        return false;
      }
      if !lun.isOpen && needsMedium {
        lun := lun.(sense := SS_MEDIUM_NOT_PRESENT);
        return false;
      }
      return true;
    }

    /** Clears the sense data, unless it was asked for, and reports a pending unit attention. */
    method CheckAttention() returns (stopped: bool)
      requires |cmd.cb| == 16
      modifies this`lun
      ensures stopped == AttentionStops(old(lun), cmd.cb[0])
      ensures lun == if stopped
                     then Cleared(old(lun), cmd.cb[0]).(sense := old(lun).attention, attention := SS_NO_SENSE)
                     else Cleared(old(lun), cmd.cb[0])
    {
      if cmd.cb[0] != REQUEST_SENSE {
        lun := lun.(sense := SS_NO_SENSE);
        lun := lun.(info := 0);
        lun := lun.(infoValid := false);
      }
      if lun.attention != SS_NO_SENSE && cmd.cb[0] != INQUIRY && cmd.cb[0] != REQUEST_SENSE {
        lun := lun.(sense := lun.attention);
        lun := lun.(attention := SS_NO_SENSE);
        return true;
      }
      return false;
    }

    /** The loop of check_command over the command bytes. */
    method FindStray(commandSize: nat, mask: set<nat>) returns (stray: bool)
      requires commandSize <= |cmd.cb|
      ensures stray == Stray(cmd.cb, commandSize, mask)
    {
      var i := 1;
      while i < commandSize
        invariant forall j :: 1 <= j < i && j < commandSize ==> cmd.cb[j] == 0 || j in mask
      {
        if cmd.cb[i] != 0 && i !in mask {
          return true;
        }
        i := i + 1;
      }
      return false;
    }

    /** do_scsi_command, the first part of each case: data size and check_command. */
    method Examine() returns (ok: bool)
      requires WellFormedCbw(cmd) && !phaseError
      modifies this`lun, this`selected, this`dataSize, this`residue, this`phaseError, this`cmd
      ensures dataSize == DataSize(old(cmd)) && residue == old(cmd).length
      ensures phaseError == PhaseError(old(cmd)) && cmd == Stored(old(cmd), old(lun))
      ensures Mismatch(old(cmd)) ==> !ok && lun == old(lun)
      ensures !Mismatch(old(cmd)) ==> selected && Checked(old(cmd), old(lun), ok, lun)
    {
      hide Mismatch, Checked, PhaseError, DataSize, Stored;
      var op, cb := cmd.cb[0], cmd.cb;
      if op == INQUIRY {
        dataSize := cb[4];
        ok := CheckCommand(6, ToHost, {4}, false);
      } else if op == MODE_SELECT {
        dataSize := cb[4];
        ok := CheckCommand(6, FromHost, {1, 4}, false);
      } else if op == MODE_SELECT_10 {
        dataSize := Be16(cb, 7);
        ok := CheckCommand(10, FromHost, {1, 7, 8}, false);
      } else if op == MODE_SENSE {
        dataSize := cb[4];
        ok := CheckCommand(6, ToHost, {1, 2, 4}, false);
      } else if op == MODE_SENSE_10 {
        dataSize := Be16(cb, 7);
        ok := CheckCommand(10, ToHost, {1, 2, 7, 8}, false);
      } else if op == ALLOW_MEDIUM_REMOVAL {
        dataSize := 0;
        ok := CheckCommand(6, NoData, {4}, false);
      } else if op == READ_6 {
        dataSize := SectorBytes(if cb[4] == 0 then 256 else cb[4]);
        ok := CheckCommand(6, ToHost, {1, 2, 3, 4}, true);
      } else if op == READ_10 {
        dataSize := SectorBytes(Be16(cb, 7));
        ok := CheckCommand(10, ToHost, {1, 2, 3, 4, 5, 7, 8}, true);
      } else if op == READ_12 {
        dataSize := SectorBytes(Be32(cb, 6));
        ok := CheckCommand(12, ToHost, {1, 2, 3, 4, 5, 6, 7, 8, 9}, true);
      } else if op == READ_CAPACITY {
        dataSize := 8;
        ok := CheckCommand(10, ToHost, {2, 3, 4, 5, 8}, true);
      } else if op == READ_FORMAT_CAPACITIES {
        dataSize := Be16(cb, 7);
        ok := CheckCommand(10, ToHost, {7, 8}, true);
      } else if op == REQUEST_SENSE {
        dataSize := cb[4];
        ok := CheckCommand(6, ToHost, {4}, false);
      } else if op == START_STOP {
        dataSize := 0;
        ok := CheckCommand(6, NoData, {1, 4}, false);
      } else if op == SYNCHRONIZE_CACHE {
        dataSize := 0;
        ok := CheckCommand(10, NoData, {2, 3, 4, 5, 7, 8}, true);
      } else if op == TEST_UNIT_READY {
        dataSize := 0;
        ok := CheckCommand(6, NoData, {}, true);
      } else if op == VERIFY {
        dataSize := 0;
        ok := CheckCommand(10, NoData, {1, 2, 3, 4, 5, 7, 8}, true);
      } else if op == WRITE_6 {
        dataSize := SectorBytes(if cb[4] == 0 then 256 else cb[4]);
        ok := CheckCommand(6, FromHost, {1, 2, 3, 4}, true);
      } else if op == WRITE_10 {
        dataSize := SectorBytes(Be16(cb, 7));
        ok := CheckCommand(10, FromHost, {1, 2, 3, 4, 5, 7, 8}, true);
      } else if op == WRITE_12 {
        dataSize := SectorBytes(Be32(cb, 6));
        ok := CheckCommand(12, FromHost, {1, 2, 3, 4, 5, 6, 7, 8, 9}, true);
      } else {
        dataSize := 0;
        ok := CheckCommand(cmd.cbLength, Unknown, AllBytes(), false);
      }
    }

    /** do_scsi_command, the second part of each case: the command itself. */
    method Dispatch(faults: Faults) returns (reply: Reply)
      requires |cmd.cb| == 16 && buffer.Length == BUFFER_SIZE && dataSize <= residue && dataSize <= BUFFER_SIZE
      modifies this`lun, this`residue, this`disk, this`accesses, buffer
      ensures Result(Med(), reply, residue) == Perform(cmd.cb, old(Med()), dataSize, old(residue), faults)
    {
      hide Read, Write, Verify, ModeSense, StartStop, PreventAllow, SenseData, FormatData, CapacityData, InquiryData;
      var op := cmd.cb[0];
      if op == INQUIRY {
        reply := DoInquiry();
      } else if op == MODE_SELECT || op == MODE_SELECT_10 {
        lun := lun.(sense := SS_INVALID_COMMAND);
        reply := Invalid;
      } else if op == MODE_SENSE || op == MODE_SENSE_10 {
        reply := DoModeSense();
      } else if op == ALLOW_MEDIUM_REMOVAL {
        reply := DoPreventAllow();
      } else if op == READ_6 || op == READ_10 || op == READ_12 {
        reply := DoRead(faults);
      } else if op == READ_CAPACITY {
        reply := DoReadCapacity();
      } else if op == READ_FORMAT_CAPACITIES {
        reply := DoReadFormatCapacities();
      } else if op == REQUEST_SENSE {
        reply := DoRequestSense();
      } else if op == START_STOP {
        reply := DoStartStop();
      } else if op == SYNCHRONIZE_CACHE || op == TEST_UNIT_READY {
        reply := Reply(0);
      } else if op == VERIFY {
        reply := DoVerify(faults);
      } else if op == WRITE_6 || op == WRITE_10 || op == WRITE_12 {
        reply := DoWrite(faults);
      } else {
        lun := lun.(sense := SS_INVALID_COMMAND);
        reply := Invalid;
      }
    }

    /** do_scsi_command */
    method DoScsiCommand(faults: Faults)
      requires Ready() && Complete(State())
      modifies this`cmd, this`lun, this`selected, this`dataSize, this`residue, this`phaseError, this`disk,
               this`accesses, buffer
      ensures Med() == Attempt(old(cmd), old(Med()), faults).medium
      ensures residue == FinalResidue(old(cmd), Attempt(old(cmd), old(Med()), faults))
      ensures phaseError == PhaseError(old(cmd)) && cmd == Stored(old(cmd), old(lun))
      ensures phaseError || selected
    {
      hide Perform, RuleOf, Mismatch, StrayBytes;
      phaseError := false;
      var reply: Reply := Invalid;
      var ok := Examine();
      if ok {
        PerformResidue(cmd.cb, Med(), dataSize, residue, faults);
        reply := Dispatch(faults);
      }
      if reply.Invalid? {
        reply := Reply(0);
      }
      if reply.Reply? && cmd.length != 0 && ToHostFlag(cmd) {
        if reply.n > dataSize {
          reply := Reply(dataSize);
        }
        residue := residue - reply.n;
      }
    }

    method FinishReply()
      requires Ready()
      modifies this`sent
      ensures sent == old(sent) + DataPhase(cmd, buffer[..])
    {
      if cmd.length != 0 && ToHostFlag(cmd) {
        sent := sent + [Data(buffer[..cmd.length])];
      }
    }

    method SendStatus()
      requires phaseError || selected
      modifies this`sent
      ensures sent == old(sent)
                      + [Csw(cmd.tag, residue, if phaseError then 2 else if lun.sense != SS_NO_SENSE then 1 else 0)]
    {
      var status: byte, sd: word := 0, SS_LOGICAL_UNIT_NOT_SUPPORTED;
      if selected {
        sd := lun.sense;
      }
      if phaseError {
        status := 2;
      } else if sd != SS_NO_SENSE {
        status := 1;
      }
      sent := sent + [Csw(cmd.tag, residue, status)];
    }

    /** masstorage_rx_handler. A packet with a bad signature or an oversized length replaces the
        current command and is dropped; a packet of another size is only dropped. */
    method RxHandler(packet: seq<byte>, faults: Faults)
      requires Ready()
      requires Complete(State()) && Accepted(packet) ==> ParseCbw(packet).cbLength <= 16
      modifies this, buffer
      ensures Expected(old(State()), packet) ==>
                && Ready()
                && State() == Receive(old(State()), packet, faults).0
                && sent == old(sent) + Receive(old(State()), packet, faults).1
      ensures !Expected(old(State()), packet) ==>
                && sent == old(sent)
                && State() == if |packet| == CBW_SIZE then old(State()).(cmd := ParseCbw(packet)) else old(State())
    {
      hide Execute;
      if cmd.length == 0 || ToHostFlag(cmd) || cmd.length == written {
        var ok := NewCommand(packet);
        if !ok {
          return;
        }
      } else {
        CommandData(packet);
      }
      RunIfComplete(faults);
    }

    /** A packet while no command is under way. */
    method NewCommand(packet: seq<byte>) returns (ok: bool)
      modifies this`cmd, this`written
      ensures ok == Accepted(packet)
      ensures cmd == if |packet| == CBW_SIZE then ParseCbw(packet) else old(cmd)
      ensures written == if ok then 0 else old(written)
    {
      if |packet| != CBW_SIZE {
        return false;
      }
      cmd := ParseCbw(packet);
      if Le32(packet, 0) != CBW_SIGNATURE {
        return false;
      }
      if cmd.length > 0x100_0000 {
        return false;
      }
      written := 0;
      return true;
    }

    /** A packet of command data. */
    method CommandData(packet: seq<byte>)
      requires Ready()
      modifies this`written, buffer
      ensures State() == Append(old(State()), packet)
    {
      ghost var before := buffer[..];
      var toWrite := cmd.length - written;
      if |packet| <= toWrite {
        toWrite := |packet|;
      }
      Put(written, packet[..toWrite]);
      assert buffer[..] == before[..written] + packet[..toWrite] + before[written + toWrite..];
      written := written + toWrite;
    }

    /** The tail of masstorage_rx_handler. */
    method RunIfComplete(faults: Faults)
      requires Ready()
      modifies this, buffer
      ensures Ready() && State() == Finish(old(State()), faults).0
      ensures sent == old(sent) + Finish(old(State()), faults).1
    {
      if cmd.length == 0 || ToHostFlag(cmd) || cmd.length == written {
        hide Attempt, FinalResidue, PhaseError, Mismatch;
        DoScsiCommand(faults);
        FinishReply();
        SendStatus();
      }
    }

    /** masstorage_mount; true on success. */
    method MountVolume(firstSector: word, sectorCount: word, readWrite: bool) returns (ok: bool)
      modifies this`lun
      ensures ok == MountAccepted(old(Med()), firstSector, sectorCount)
      ensures ok <==>
        && !old(lun.isOpen) && firstSector < |disk| / 512
        && (firstSector + sectorCount) % 0x1_0000_0000 <= |disk| / 512
      ensures ok ==> lun.isOpen && lun.firstSector == firstSector && lun.sectorCount == sectorCount
      ensures ok ==> lun.ro == !readWrite
      ensures !ok ==> lun == old(lun)
      ensures Med() == Mount(old(Med()), firstSector, sectorCount, readWrite)
    {
      var diskSectors := |disk| / 512;
      if lun.isOpen {
        return false;
      }
      if firstSector >= diskSectors || (firstSector + sectorCount) % 0x1_0000_0000 > diskSectors {
        return false;
      }
      lun := lun.(firstSector := firstSector);
      lun := lun.(sectorCount := sectorCount);
      lun := lun.(ro := !readWrite);
      lun := lun.(isOpen := true);
      return true;
    }
  }

  /** Writing `data` to the front of the buffer, said byte by byte. */
  lemma OverlayByBytes(before: seq<byte>, after: seq<byte>, data: seq<byte>)
    requires |data| <= |before| == |after|
    requires forall i :: 0 <= i < |data| ==> after[i] == data[i]
    requires forall i :: |data| <= i < |before| ==> after[i] == before[i]
    ensures after == Overlay(before, data)
  {
  }

  /** What check_command decides for a request that makes sense: `ok` exactly when nothing
      stands against the command, else the sense data of the first objection. */
  ghost predicate Checked(c: Cbw, before: Lun, ok: bool, after: Lun)
    requires WellFormedCbw(c)
  {
    var lun := Cleared(before, c.cb[0]);
    var refusal := Refusal(c, lun);
    && ok == (!AttentionStops(lun, c.cb[0]) && !StrayBytes(c) && (lun.isOpen || !RuleOf(c).medium))
    && after == if ok then lun
                else if AttentionStops(lun, c.cb[0]) then lun.(sense := refusal, attention := SS_NO_SENSE)
                else lun.(sense := refusal)
  }
}
