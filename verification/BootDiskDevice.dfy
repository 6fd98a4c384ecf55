/**
 The device side of the boot-disk protocol: `allwindisk/arm/main.c` collects a command header
 and its data from packets, runs the command and queues the response.
 */
module BootDiskDevice {
  import opened BinaryArithmetic
  import opened CommandWrapper
  import opened LittleEndian
  import opened Sequences
  import BulkOnlyDevice

  // ----- the wire format

  const MAGIC: nat := 0x1234
  const HEADER_SIZE: nat := 24
  const MAX_DATA: nat := 0x100_0000

  const BCMD_NONE: nat := 0
  const BCMD_FLASHMEM_PARAMS: nat := 0x46
  const BCMD_BOARD_EXIT: nat := 0x45
  const BCMD_PING: nat := 0x49
  const BCMD_GETLOG: nat := 0x4c
  const BCMD_MEMJUMPTO: nat := 0x4a
  const BCMD_SLEEPTEST: nat := 0x53
  const BCMD_DISKREAD: nat := 0x52
  const BCMD_DISKWRITE: nat := 0x57
  const BCMD_MEMREAD: nat := 0x72
  const BCMD_MEMWRITE: nat := 0x77
  const BCMD_MEMEXEC: nat := 0x78
  const BCMD_MOUNT: nat := 0x4d
  const BCMD_GETMOUNT_STATUS: nat := 0x6d

  const BRST_FAIL: nat := 0
  const BRST_OK: nat := 1
  const BRST_MSG: nat := 2

  const FMAREA_BOOT0: word := 0
  const FMAREA_BOOT1: word := 1
  const FMAREA_LOGDISK: word := 3

  const BE_GO_FEL: word := 1
  const BE_BOARD_RESET: word := 2

  datatype Header = Header(cmd: nat, param1: nat, start: nat, count: nat, datasize: nat)

  predicate Fits(h: Header) {
    h.cmd < Pow256(2) && h.param1 < Pow256(4) && h.start < Pow256(8) && h.count < Pow256(4) && h.datasize < Pow256(4)
  }

  function EncodeHeader(h: Header): (p: seq<byte>)
    ensures |p| == HEADER_SIZE
  {
    Encode(MAGIC, 2) + Encode(h.cmd, 2) + Encode(h.param1, 4)
    + Encode(h.start, 8) + Encode(h.count, 4) + Encode(h.datasize, 4)
  }

  function DecodeHeader(p: seq<byte>): Header
    requires |p| == HEADER_SIZE
  {
    Header(Field(p, 2, 2), Field(p, 4, 4), Field(p, 8, 8), Field(p, 16, 4), Field(p, 20, 4))
  }

  lemma HeaderRoundTrip(h: Header)
    requires Fits(h)
    ensures Field(EncodeHeader(h), 0, 2) == MAGIC && DecodeHeader(EncodeHeader(h)) == h
  {
    hide Encode, Decode, Pow256;
    HeaderFields(h);
    MagicFits();
    DecodeEncode(MAGIC, 2);
    DecodeEncode(h.cmd, 2);
    DecodeEncode(h.param1, 4);
    DecodeEncode(h.start, 8);
    DecodeEncode(h.count, 4);
    DecodeEncode(h.datasize, 4);
  }

  /** The fields of a header in the order of `struct bootdisk_cmd_header`, least significant bytes first. */
  lemma HeaderLaidOut(h: Header)
    requires Fits(h)
    ensures h.cmd < 0x1_0000 && h.param1 < 0x1_0000_0000 && h.count < 0x1_0000_0000 && h.datasize < 0x1_0000_0000
    ensures h.start / 0x1_0000_0000 < 0x1_0000_0000
    ensures EncodeHeader(h) == [0x34, 0x12, h.cmd % 0x100, h.cmd / 0x100] + Le(h.param1)
            + Le(h.start % 0x1_0000_0000) + Le(h.start / 0x1_0000_0000) + Le(h.count) + Le(h.datasize)
  {
    hide Encode, Le, Pow256;
    FieldWidths();
    TwoBytes(MAGIC);
    TwoBytes(h.cmd);
    LeEncodes(h.param1);
    StartEncodes(h.start);
    LeEncodes(h.count);
    LeEncodes(h.datasize);
  }

  lemma StartEncodes(start: nat)
    requires start < 0x1_0000_0000_0000_0000
    ensures Encode(start, 8) == Le(start % 0x1_0000_0000) + Le(start / 0x1_0000_0000)
  {
    hide Encode, Le, Pow256;
    FieldWidths();
    var low, high := start % 0x1_0000_0000, start / 0x1_0000_0000;
    LeEncodes(low);
    LeEncodes(high);
    EncodeJoined(low, high, 4, 4);
  }

  lemma TwoBytes(v: nat)
    requires v < 0x1_0000
    ensures Encode(v, 2) == [v % 0x100, v / 0x100]
  {
    assert Encode(v / 0x100, 1) == [v / 0x100 % 0x100] + Encode(v / 0x100 / 0x100, 0);
  }

  lemma MagicFits()
    ensures MAGIC < Pow256(2)
  {
    FieldWidths();
  }

  /** Where the fields of a header lie. */
  lemma HeaderFields(h: Header)
    ensures var p := EncodeHeader(h);
            && p[0..2] == Encode(MAGIC, 2) && p[2..4] == Encode(h.cmd, 2) && p[4..8] == Encode(h.param1, 4)
            && p[8..16] == Encode(h.start, 8) && p[16..20] == Encode(h.count, 4) && p[20..24] == Encode(h.datasize, 4)
  {
    hide Encode;
    var p := EncodeHeader(h);
    var a, b, c := Encode(MAGIC, 2) + Encode(h.cmd, 2), Encode(h.param1, 4), Encode(h.start, 8);
    var d, e := Encode(h.count, 4), Encode(h.datasize, 4);
    assert p == a + b + c + d + e;
    assert p[0..2] == a[0..2] == Encode(MAGIC, 2) && p[2..4] == a[2..4] == Encode(h.cmd, 2);
    assert p[4..8] == b && p[8..16] == c && p[16..20] == d && p[20..24] == e;
  }

  datatype Response = Response(status: nat, data: seq<byte>)

  function ResponseHeader(r: Response): (p: seq<byte>)
    ensures |p| == 8
  {
    Encode(MAGIC, 2) + Encode(r.status, 2) + Encode(|r.data|, 4)
  }

  lemma ResponseHeaderRoundTrip(r: Response)
    requires r.status < Pow256(2) && |r.data| < Pow256(4)
    ensures var p := ResponseHeader(r);
            Field(p, 0, 2) == MAGIC && Field(p, 2, 2) == r.status && Field(p, 4, 4) == |r.data|
  {
    hide Encode, Decode, Pow256;
    var p := ResponseHeader(r);
    assert p[0..2] == Encode(MAGIC, 2) && p[2..4] == Encode(r.status, 2) && p[4..8] == Encode(|r.data|, 4);
    MagicFits();
    DecodeEncode(MAGIC, 2);
    DecodeEncode(r.status, 2);
    DecodeEncode(|r.data|, 4);
  }

  /** The fields of a response header. */
  lemma ResponseLaidOut(r: Response)
    requires r.status < 0x100 && |r.data| < 0x1_0000_0000
    ensures ResponseHeader(r) == [0x34, 0x12, r.status, 0] + Le(|r.data|)
  {
    TwoBytes(MAGIC);
    TwoBytes(r.status);
    LeEncodes(|r.data|);
    hide Encode, Le;
  }

  /** The transfers of one response: its header, and its data if there is any. */
  function Transfers(r: Response): seq<seq<byte>> {
    [ResponseHeader(r)] + (if r.data == [] then [] else [r.data])
  }

  function Wire(rs: seq<Response>): seq<seq<byte>> {
    if rs == [] then [] else Transfers(rs[0]) + Wire(rs[1..])
  }

  // ----- flash areas

  datatype Flash = Flash(boot0: seq<byte>, boot1: seq<byte>, disk: seq<byte>)

  function Area(f: Flash, param1: nat): seq<byte> {
    if param1 == FMAREA_BOOT0 then f.boot0 else if param1 == FMAREA_BOOT1 then f.boot1 else f.disk
  }

  function WithArea(f: Flash, param1: nat, a: seq<byte>): Flash {
    if param1 == FMAREA_BOOT0 then f.(boot0 := a) else if param1 == FMAREA_BOOT1 then f.(boot1 := a) else f.(disk := a)
  }

  predicate InArea(a: seq<byte>, start: nat, count: nat) {
    (start + count) * 512 <= |a|
  }

  function Sectors(a: seq<byte>, start: nat, count: nat): (s: seq<byte>)
    requires InArea(a, start, count)
    ensures |s| == count * 512
  {
    a[start * 512..(start + count) * 512]
  }

  // ----- what a command answers

  predicate Silent(h: Header) {
    h.cmd == BCMD_BOARD_EXIT && h.param1 != BE_GO_FEL && h.param1 != BE_BOARD_RESET
  }

  predicate AllMessages(rs: seq<Response>) {
    forall i :: 0 <= i < |rs| ==> rs[i].status == BRST_MSG && |rs[i].data| < 0x1_0000_0000
  }

  /** Any number of messages, then exactly one final response. */
  predicate Lockstep(rs: seq<Response>) {
    && rs != []
    && AllMessages(rs[..|rs| - 1])
    && (rs[|rs| - 1].status == BRST_OK || rs[|rs| - 1].status == BRST_FAIL)
    && |rs[|rs| - 1].data| < 0x1_0000_0000
    && (rs[|rs| - 1].status == BRST_FAIL ==> rs[|rs| - 1].data == [])
  }

  /** How much data the host expects with the final response; negative where it takes any amount. */
  function ReplySize(h: Header): (n: int) {
    if h.cmd == BCMD_DISKREAD then h.count * 512
    else if h.cmd == BCMD_MEMREAD then h.count
    else if h.cmd == BCMD_FLASHMEM_PARAMS then 72
    else if h.cmd == BCMD_GETMOUNT_STATUS then 12
    else if h.cmd == BCMD_GETLOG || h.cmd == BCMD_BOARD_EXIT then -1
    else 0
  }

  /** The flash driver takes 32-bit sector numbers. */
  function FirstSector(h: Header): nat {
    h.start % 0x1_0000_0000
  }

  /** The effect of a command that ended with OK and `reply`. */
  predicate Succeeds(h: Header, data: seq<byte>, before: Flash, after: Flash, reply: seq<byte>) {
    && (ReplySize(h) >= 0 ==> |reply| == ReplySize(h))
    && if h.cmd == BCMD_DISKREAD then
         && after == before
         && InArea(Area(before, h.param1), FirstSector(h), h.count)
         && reply == Sectors(Area(before, h.param1), FirstSector(h), h.count)
       else if h.cmd == BCMD_DISKWRITE then
         var n := |data| / 512;
         && InArea(Area(before, h.param1), FirstSector(h), n)
         && after == WithArea(before, h.param1, Patch(Area(before, h.param1), FirstSector(h) * 512, data[..n * 512]))
       else after == before
  }

  /** The commands that succeed, MOUNT aside: disk commands whose driver does not fail and whose
      sectors lie in the area, and all the others that there are. */
  predicate Accepted(h: Header, size: nat, fault: bool, f: Flash) {
    if h.cmd == BCMD_DISKREAD then !fault && InArea(Area(f, h.param1), FirstSector(h), h.count)
    else if h.cmd == BCMD_DISKWRITE then !fault && InArea(Area(f, h.param1), FirstSector(h), size / 512)
    else Known(h.cmd)
  }

  predicate Known(cmd: nat) {
    cmd in {BCMD_FLASHMEM_PARAMS, BCMD_BOARD_EXIT, BCMD_PING, BCMD_GETLOG, BCMD_MEMJUMPTO, BCMD_SLEEPTEST,
            BCMD_DISKREAD, BCMD_DISKWRITE, BCMD_MEMREAD, BCMD_MEMWRITE, BCMD_MEMEXEC, BCMD_MOUNT, BCMD_GETMOUNT_STATUS}
  }

  /** The responses to a command, and what it did to the flash, given the driver's next answer. */
  predicate Answers(h: Header, data: seq<byte>, fault: bool, before: Flash, after: Flash, rs: seq<Response>) {
    if Silent(h) then rs == [] && after == before
    else
      && Lockstep(rs)
      && (h.cmd != BCMD_MOUNT ==> (rs[|rs| - 1].status == BRST_OK <==> Accepted(h, |data|, fault, before)))
      && (rs[|rs| - 1].status == BRST_OK ==> Succeeds(h, data, before, after, rs[|rs| - 1].data))
      && (rs[|rs| - 1].status == BRST_FAIL ==> after == before)
  }

  lemma NoAnswer(h: Header, data: seq<byte>, fault: bool, f: Flash)
    requires Silent(h)
    ensures Answers(h, data, fault, f, f, [])
  {
  }

  lemma OneAnswer(h: Header, data: seq<byte>, fault: bool, f: Flash, r: Response)
    requires !Silent(h) && h.cmd !in {BCMD_DISKREAD, BCMD_DISKWRITE, BCMD_MOUNT}
    requires r.status == (if Known(h.cmd) then BRST_OK else BRST_FAIL) && |r.data| < 0x1_0000_0000
    requires if Known(h.cmd) then ReplySize(h) >= 0 ==> |r.data| == ReplySize(h) else r.data == []
    ensures Answers(h, data, fault, f, f, [r])
  {
  }

  lemma ReadAnswers(h: Header, data: seq<byte>, fault: bool, f: Flash, r: Response)
    requires h.cmd == BCMD_DISKREAD && |r.data| < 0x1_0000_0000
    requires r.status == if Accepted(h, |data|, fault, f) then BRST_OK else BRST_FAIL
    requires r.data == if r.status == BRST_OK then Sectors(Area(f, h.param1), FirstSector(h), h.count) else []
    ensures Answers(h, data, fault, f, f, [r])
  {
  }

  lemma WriteAnswers(h: Header, data: seq<byte>, fault: bool, before: Flash, after: Flash, r: Response)
    requires h.cmd == BCMD_DISKWRITE && r.data == []
    requires r.status == if Accepted(h, |data|, fault, before) then BRST_OK else BRST_FAIL
    requires r.status == BRST_FAIL ==> after == before
    requires r.status == BRST_OK ==>
      var a, at, n := Area(before, h.param1), FirstSector(h) * 512, |data| / 512 * 512;
      after == WithArea(before, h.param1, Patch(a, at, data[..n]))
    ensures Answers(h, data, fault, before, after, [r])
  {
    hide Area, WithArea, Patch;
  }

  lemma AreaIs(f: Flash, param1: nat, at: nat, data: seq<byte>)
    ensures Area(f, param1) == if param1 == 0 then f.boot0 else if param1 == 1 then f.boot1 else f.disk
    ensures at + |data| <= |Area(f, param1)| ==>
      var a := Area(f, param1);
      var b := a[..at] + data + a[at + |data|..];
      WithArea(f, param1, Patch(a, at, data)) ==
        if param1 == 0 then f.(boot0 := b) else if param1 == 1 then f.(boot1 := b) else f.(disk := b)
  {
  }

  // ----- what a command does besides

  /** Where the main loop leaves to: nowhere yet, the boot ROM, a reset, or uploaded code. */
  datatype ExitTo = Stay | Fel | Reset | Jump(address: nat)

  datatype MountState = NotMounted | Mounted(first: word, count: word, readWrite: bool)

  datatype Board = Board(memory: nat -> byte, log: seq<byte>, exit: ExitTo, mounted: MountState, properties: seq<byte>,
                         codeMessages: seq<seq<byte>>)

  function MountStatus(m: MountState): (s: seq<byte>)
    ensures |s| == 12
  {
    match m
    case NotMounted => Encode(0, 4) + Encode(0, 4) + Encode(0, 4)
    case Mounted(first, count, readWrite) => Encode(if readWrite then 2 else 1, 4) + Encode(first, 4) + Encode(count, 4)
  }

  lemma MountStatusLaidOut(m: MountState)
    ensures MountStatus(m) ==
      match m
      case NotMounted => Le(0) + Le(0) + Le(0)
      case Mounted(first, count, readWrite) => Le(if readWrite then 2 else 1) + Le(first) + Le(count)
  {
    hide Le, Encode;
    LeEncodes(0);
    if m.Mounted? {
      LeEncodes(if m.readWrite then 2 else 1);
      LeEncodes(m.first);
      LeEncodes(m.count);
    }
  }

  function Low32(x: nat): word {
    x % 0x1_0000_0000
  }

  function MemoryBytes(memory: nat -> byte, start: nat, n: nat): (s: seq<byte>)
    ensures |s| == n && forall i :: 0 <= i < n ==> s[i] == memory(Low32(start + i))
  {
    seq<byte>(n, i requires 0 <= i < n => memory(Low32(start + i)))
  }

  /** The commands that are not in `RunSimple`. */
  predicate OwnMethod(cmd: nat) {
    cmd in {BCMD_DISKREAD, BCMD_DISKWRITE, BCMD_BOARD_EXIT, BCMD_MEMEXEC, BCMD_MOUNT, BCMD_GETMOUNT_STATUS,
            BCMD_MEMREAD, BCMD_MEMWRITE, BCMD_MEMJUMPTO}
  }

  predicate MountSucceeds(h: Header, b: Board, diskSectors: nat) {
    b.mounted.NotMounted? && BulkOnlyDevice.MountFits(diskSectors, Low32(h.start), Low32(h.count))
  }

  function Messages(texts: seq<seq<byte>>): (rs: seq<Response>)
    ensures |rs| == |texts| && forall i :: 0 <= i < |rs| ==> rs[i] == Response(BRST_MSG, texts[i])
  {
    seq(|texts|, i requires 0 <= i < |texts| => Response(BRST_MSG, texts[i]))
  }

  /** What command `h` with `data` does to memory, log, exit and mount, given its last response.
      The log only grows, but for GETLOG. */
  ghost predicate Effect(h: Header, data: seq<byte>, b: Board, a: Board, diskSectors: nat, rs: seq<Response>) {
    var reply := if rs == [] then Response(BRST_FAIL, []) else rs[|rs| - 1];
    && a.properties == b.properties && a.codeMessages == b.codeMessages
    && (h.cmd == BCMD_MEMEXEC ==> rs == Messages(b.codeMessages) + [Response(BRST_OK, [])])
    && (h.cmd != BCMD_MEMEXEC ==> |rs| <= 1)
    && if h.cmd == BCMD_MEMWRITE then
      && reply == Response(BRST_OK, []) && b.log <= a.log && a.exit == b.exit && a.mounted == b.mounted
      && forall x: nat :: a.memory(x) ==
           if Low32(h.start) <= x < Low32(h.start) + |data| then data[x - Low32(h.start)] else b.memory(x)
    else
      && a.memory == b.memory
      && (if h.cmd == BCMD_GETLOG then
            reply.status == BRST_OK && b.log <= reply.data && a.log == if h.param1 != 0 then [] else reply.data
          else b.log <= a.log)
      && a.exit == (if h.cmd == BCMD_BOARD_EXIT && h.param1 == BE_GO_FEL then Fel
                    else if h.cmd == BCMD_BOARD_EXIT && h.param1 == BE_BOARD_RESET then Reset
                    else if h.cmd == BCMD_MEMJUMPTO then Jump(Low32(h.start))
                    else b.exit)
      && (if h.cmd == BCMD_MOUNT then
            && reply.status == (if MountSucceeds(h, b, diskSectors) then BRST_OK else BRST_FAIL)
            && a.mounted == if MountSucceeds(h, b, diskSectors)
                            then Mounted(Low32(h.start), Low32(h.count), h.param1 != 0)
                            else b.mounted
          else a.mounted == b.mounted)
      && (h.cmd == BCMD_GETMOUNT_STATUS ==> reply == Response(BRST_OK, MountStatus(b.mounted)))
      && (h.cmd == BCMD_FLASHMEM_PARAMS ==> reply == Response(BRST_OK, b.properties))
      && (h.cmd == BCMD_BOARD_EXIT && rs != [] ==> reply == Response(BRST_OK, ExitText(h.param1)))
      && (h.cmd == BCMD_MEMREAD ==> reply == Response(BRST_OK, MemoryBytes(b.memory, h.start, h.count)))
  }

  lemma NoEffect(h: Header, data: seq<byte>, b: Board, diskSectors: nat, rs: seq<Response>)
    requires h.cmd in {BCMD_DISKREAD, BCMD_DISKWRITE} && |rs| <= 1
    ensures Effect(h, data, b, b, diskSectors, rs)
  {
  }

  /** Only two commands make the main loop leave. */
  predicate MayLeave(cmd: nat) {
    cmd == BCMD_BOARD_EXIT || cmd == BCMD_MEMJUMPTO
  }

  lemma ExitKept(h: Header, data: seq<byte>, b: Board, a: Board, diskSectors: nat, rs: seq<Response>)
    requires Effect(h, data, b, a, diskSectors, rs)
    ensures !MayLeave(h.cmd) ==> a.exit == b.exit
    ensures MayLeave(h.cmd) && !Silent(h) ==> a.exit != Stay
  {
  }

  /** Logging before the command makes no difference to its effect. */
  lemma EffectAfterLog(h: Header, data: seq<byte>, b: Board, text: seq<byte>, a: Board, diskSectors: nat,
      rs: seq<Response>)
    requires Effect(h, data, b.(log := b.log + text), a, diskSectors, rs)
    ensures Effect(h, data, b, a, diskSectors, rs)
  {
  }

  class Device {
    var cmd: Header              // cur_cmd
    var written: nat             // cur_cmd_bytes_written
    const buffer: array<byte>    // transfer_buffer
    var flash: Flash
    var memory: nat -> byte
    var log: seq<byte>
    var exit: ExitTo
    var mounted: MountState
    const properties: seq<byte>           // what FMT_GetFlashMemProperties reports
    const codeMessages: seq<seq<byte>>    // what uploaded code sends with send_resp_msg
    const faults: nat -> bool             // whether the calls of the flash driver fail
    var calls: nat                        // the calls so far
    var tx: seq<seq<byte>>       // transfers the host has not read yet
    ghost var answered: seq<Response>

    predicate Idle()
      reads this
    {
      cmd.cmd == BCMD_NONE
    }

    ghost predicate Configured()
      reads this
    {
      && buffer.Length == 0x200_0000 && |log| < 0x1_0000_0000 && |properties| == 72
      && (forall i :: 0 <= i < |codeMessages| ==> |codeMessages[i]| < 0x1_0000_0000)
    }

    ghost predicate Valid()
      reads this
    {
      Configured() && (!Idle() ==> Harmless(cmd) && written < cmd.datasize)
    }

    ghost function State(): Board
      reads this`memory, this`log, this`exit, this`mounted
    {
      Board(memory, log, exit, mounted, properties, codeMessages)
    }

    function DiskSectors(): nat
      reads this`flash
    {
      |flash.disk| / 512
    }

    /** The data received so far for the current command. */
    ghost function Received(): seq<byte>
      requires Valid() && !Idle()
      reads this, buffer
    {
      buffer[..written]
    }

    constructor (transferArea: array<byte>, memory: nat -> byte, flash: Flash, properties: seq<byte>,
        codeMessages: seq<seq<byte>>, faults: nat -> bool)
      requires transferArea.Length == 0x200_0000 && |properties| == 72
      requires forall i :: 0 <= i < |codeMessages| ==> |codeMessages[i]| < 0x1_0000_0000
      ensures Valid() && Idle() && tx == [] && this.flash == flash && buffer == transferArea && this.faults == faults
    {
      cmd := Header(BCMD_NONE, 0, 0, 0, 0);
      written := 0;
      buffer := transferArea;
      this.memory := memory;
      this.flash := flash;
      this.properties := properties;
      this.codeMessages := codeMessages;
      this.faults, calls := faults, 0;
      log, exit, mounted, tx, answered := [], Stay, NotMounted, [], [];
    }

    /** send_resp_st */
    method SendResponse(data: seq<byte>, status: nat)
      modifies this`tx, this`answered
      ensures tx == old(tx) + Transfers(Response(status, data))
      ensures answered == old(answered) + [Response(status, data)]
    {
      tx := tx + [ResponseHeader(Response(status, data))];
      if |data| > 0 {
        tx := tx + [data];
      }
      answered := answered + [Response(status, data)];
    }

    /** dolog, which stops once the log area is full. */
    method DoLog() returns (text: seq<byte>)
      requires Configured()
      modifies this`log
      ensures log == old(log) + text && |log| < 0x1_0000_0000
    {
      text := *;
      if |log| > 0x80_0000 || |text| > 0x1000 {
        text := [];
      }
      log := log + text;
    }

    /** A call of the flash driver may fail. */
    method Fails() returns (failed: bool)
      modifies this`calls
      ensures failed == faults(old(calls)) && calls == old(calls) + 1
    {
      failed := faults(calls);
      calls := calls + 1;
    }

    /** No call of the flash driver fails from now on. */
    ghost predicate Healthy()
      reads this
    {
      forall k :: k >= calls ==> !faults(k)
    }

    /** The NAND read of BCMD_DISKREAD; beyond the area the driver fails. */
    method FlashRead(area: nat, first: nat, count: nat) returns (failed: bool)
      requires count * 512 <= buffer.Length
      modifies buffer, this`calls
      ensures failed == (faults(old(calls)) || !InArea(Area(flash, area), first, count)) && calls == old(calls) + 1
      ensures !failed ==> buffer[..count * 512] == Sectors(Area(flash, area), first, count)
    {
      failed := Fails();
      var a := Area(flash, area);
      if failed || !InArea(a, first, count) {
        return true;
      }
      forall i | 0 <= i < count * 512 {
        buffer[i] := a[first * 512 + i];
      }
    }

    /** The NAND write of BCMD_DISKWRITE, with the flush of the page cache. */
    method FlashWrite(area: nat, first: nat, count: nat) returns (failed: bool)
      requires count * 512 <= buffer.Length
      modifies this`flash, this`calls
      ensures failed == (faults(old(calls)) || !InArea(Area(old(flash), area), first, count)) && calls == old(calls) + 1
      ensures failed ==> flash == old(flash)
      ensures !failed ==>
        flash == WithArea(old(flash), area, Patch(Area(old(flash), area), first * 512, buffer[..count * 512]))
    {
      failed := Fails();
      var a := Area(flash, area);
      if failed || !InArea(a, first, count) {
        return true;
      }
      flash := WithArea(flash, area, Patch(a, first * 512, buffer[..count * 512]));
    }

    /** Code run by BCMD_MEMEXEC may send messages with send_resp_msg. */
    method ExecuteCode()
      requires Configured() && answered == []
      modifies this`tx, this`answered
      ensures tx == old(tx) + Wire(answered) && answered == Messages(codeMessages)
    {
      for i := 0 to |codeMessages|
        invariant tx == old(tx) + Wire(answered) && answered == Messages(codeMessages[..i])
      {
        WireAppend(answered, Response(BRST_MSG, codeMessages[i]));
        SendResponse(codeMessages[i], BRST_MSG);
      }
    }

    /** dispatch_cmd */
    method Dispatch(h: Header, datasize: nat)
      requires Configured() && Harmless(h) && datasize <= MAX_DATA
      modifies this`tx, this`answered, this`flash, this`memory, this`log, this`exit, this`mounted, this`calls, buffer
      ensures tx == old(tx) + Wire(answered)
      ensures Answers(h, old(buffer[..datasize]), faults(old(calls)), old(flash), flash, answered)
      ensures old(calls) <= calls
      ensures Effect(h, old(buffer[..datasize]), old(State()), State(), old(DiskSectors()), answered)
      ensures |log| < 0x1_0000_0000
    {
      hide Answers, Wire, Harmless, Effect;
      ghost var data, board, sectors := buffer[..datasize], State(), DiskSectors();
      var text := DoLog();
      if h.cmd == BCMD_DISKREAD {
        RunDiskRead(h, datasize);
      } else if h.cmd == BCMD_DISKWRITE {
        RunDiskWrite(h, datasize);
      } else if h.cmd == BCMD_BOARD_EXIT {
        RunBoardExit(h, datasize);
      } else if h.cmd == BCMD_MEMEXEC {
        RunMemExec(h, datasize);
      } else if h.cmd == BCMD_MOUNT {
        RunMount(h, datasize);
      } else if h.cmd == BCMD_GETMOUNT_STATUS {
        RunMountStatus(h, datasize);
      } else if h.cmd == BCMD_MEMREAD || h.cmd == BCMD_MEMWRITE || h.cmd == BCMD_MEMJUMPTO {
        RunMemory(h, datasize);
      } else {
        RunSimple(h, datasize);
      }
      EffectAfterLog(h, data, board, text, State(), sectors, answered);
    }

    method RunDiskRead(h: Header, datasize: nat)
      requires Configured() && Harmless(h) && h.cmd == BCMD_DISKREAD && datasize <= MAX_DATA
      modifies this`tx, this`answered, this`calls, buffer
      ensures tx == old(tx) + Wire(answered) && calls == old(calls) + 1
      ensures var a := if h.param1 == 0 then flash.boot0 else if h.param1 == 1 then flash.boot1 else flash.disk;
              var at, n := h.start % 0x1_0000_0000 * 512, h.count * 512;
              answered == [if faults(old(calls)) || at + n > |a| then Response(0, []) else Response(1, a[at..at + n])]
      ensures Answers(h, old(buffer[..datasize]), faults(old(calls)), flash, flash, answered)
      ensures Effect(h, old(buffer[..datasize]), State(), State(), DiskSectors(), answered)
    {
      hide Answers, Effect, Wire, Transfers;
      answered := [];
      var failed := FlashRead(h.param1, FirstSector(h), h.count);
      if !failed {
        SendResponse(buffer[..h.count * 512], BRST_OK);
      } else {
        SendResponse([], BRST_FAIL);
      }
      WireOne(answered);
      ReadAnswers(h, old(buffer[..datasize]), faults(old(calls)), flash, answered[0]);
      NoEffect(h, old(buffer[..datasize]), State(), DiskSectors(), answered);
      assert answered == [answered[0]];
    }

    method RunDiskWrite(h: Header, datasize: nat)
      requires Configured() && h.cmd == BCMD_DISKWRITE && datasize <= MAX_DATA
      modifies this`tx, this`answered, this`flash, this`calls
      ensures tx == old(tx) + Wire(answered) && calls == old(calls) + 1
      ensures var f, n := old(flash), datasize / 512 * 512;
              var a := if h.param1 == 0 then f.boot0 else if h.param1 == 1 then f.boot1 else f.disk;
              var at := h.start % 0x1_0000_0000 * 512;
              if faults(old(calls)) || at + n > |a| then answered == [Response(0, [])] && flash == f
              else
                var b := a[..at] + buffer[..n] + a[at + n..];
                && answered == [Response(1, [])]
                && flash == if h.param1 == 0 then f.(boot0 := b)
                            else if h.param1 == 1 then f.(boot1 := b) else f.(disk := b)
      ensures Answers(h, buffer[..datasize], faults(old(calls)), old(flash), flash, answered)
      ensures Effect(h, buffer[..datasize], State(), State(), old(DiskSectors()), answered)
    {
      hide Answers, Effect, Wire, Transfers, Area, WithArea, Patch;
      answered := [];
      var n := datasize / 512;
      assert buffer[..n * 512] == buffer[..datasize][..n * 512];
      AreaIs(flash, h.param1, FirstSector(h) * 512, buffer[..n * 512]);
      var failed := FlashWrite(h.param1, FirstSector(h), n);
      SendResponse([], if failed then BRST_FAIL else BRST_OK);
      WireOne(answered);
      WriteAnswers(h, buffer[..datasize], faults(old(calls)), old(flash), flash, answered[0]);
      NoEffect(h, buffer[..datasize], State(), old(DiskSectors()), answered);
      assert answered == [answered[0]];
    }

    method RunBoardExit(h: Header, datasize: nat)
      requires Configured() && h.cmd == BCMD_BOARD_EXIT && datasize <= MAX_DATA
      modifies this`tx, this`answered, this`exit
      ensures tx == old(tx) + Wire(answered)
      ensures Answers(h, buffer[..datasize], faults(calls), flash, flash, answered)
      ensures Effect(h, buffer[..datasize], old(State()), State(), DiskSectors(), answered)
    {
      hide Wire, ResponseHeader, Encode, Pow256, MountStatus, MemoryBytes, Area, Sectors, Patch, ExitText, Messages,
           Answers;
      answered := [];
      if h.param1 == BE_GO_FEL || h.param1 == BE_BOARD_RESET {
        SendResponse(ExitText(h.param1), BRST_OK);
        exit := if h.param1 == BE_GO_FEL then Fel else Reset;
        WireOne(answered);
        assert answered == [answered[0]];
        OneAnswer(h, buffer[..datasize], faults(calls), flash, answered[0]);
      } else {
        NoWire();
        NoAnswer(h, buffer[..datasize], faults(calls), flash);
      }
    }

    method RunMemExec(h: Header, datasize: nat)
      requires Configured() && h.cmd == BCMD_MEMEXEC && datasize <= MAX_DATA
      modifies this`tx, this`answered
      ensures tx == old(tx) + Wire(answered)
      ensures Answers(h, buffer[..datasize], faults(calls), flash, flash, answered)
      ensures Effect(h, buffer[..datasize], State(), State(), DiskSectors(), answered)
    {
      hide Wire, ResponseHeader, Encode, Pow256, MountStatus, MemoryBytes, Area, Sectors, Patch;
      answered := [];
      ExecuteCode();
      WireAppend(answered, Response(BRST_OK, []));
      SendResponse([], BRST_OK);
    }

    method RunMount(h: Header, datasize: nat)
      requires Configured() && Harmless(h) && h.cmd == BCMD_MOUNT && datasize <= MAX_DATA
      modifies this`tx, this`answered, this`mounted
      ensures tx == old(tx) + Wire(answered)
      ensures Answers(h, buffer[..datasize], faults(calls), flash, flash, answered)
      ensures Effect(h, buffer[..datasize], old(State()), State(), DiskSectors(), answered)
    {
      hide Wire, ResponseHeader, Encode, Pow256, MountStatus, MemoryBytes, Area, Sectors, Patch;
      answered := [];
      var first, count := Low32(h.start), Low32(h.count);
      var accepted := mounted.NotMounted? && BulkOnlyDevice.MountFits(DiskSectors(), first, count);
      if accepted {
        mounted := Mounted(first, count, h.param1 != 0);
      }
      SendResponse([], if accepted then BRST_OK else BRST_FAIL);
      WireOne(answered);
    }

    method RunMountStatus(h: Header, datasize: nat)
      requires Configured() && Harmless(h) && h.cmd == BCMD_GETMOUNT_STATUS && datasize <= MAX_DATA
      modifies this`tx, this`answered
      ensures tx == old(tx) + Wire(answered)
      ensures Answers(h, buffer[..datasize], faults(calls), flash, flash, answered)
      ensures Effect(h, buffer[..datasize], State(), State(), DiskSectors(), answered)
    {
      hide Wire, ResponseHeader, Encode, Pow256, MountStatus, MemoryBytes, Area, Sectors, Patch;
      answered := [];
      SendResponse(MountStatus(mounted), BRST_OK);
      WireOne(answered);
    }

    method RunMemory(h: Header, datasize: nat)
      requires Configured() && Harmless(h)
      requires h.cmd in {BCMD_MEMREAD, BCMD_MEMWRITE, BCMD_MEMJUMPTO} && datasize <= MAX_DATA
      modifies this`tx, this`answered, this`memory, this`exit
      ensures tx == old(tx) + Wire(answered)
      ensures Answers(h, buffer[..datasize], faults(calls), flash, flash, answered)
      ensures Effect(h, buffer[..datasize], old(State()), State(), DiskSectors(), answered)
    {
      hide Wire, ResponseHeader, Encode, MountStatus, MemoryBytes, Area, Sectors, Patch;
      FieldWidths();
      answered := [];
      if h.cmd == BCMD_MEMREAD {
        SendResponse(MemoryBytes(memory, h.start, h.count), BRST_OK);
      } else if h.cmd == BCMD_MEMWRITE {
        var data, at, was := buffer[..datasize], Low32(h.start), memory;
        memory := (a: nat) => if at <= a < at + |data| then data[a - at] else was(a);
        SendResponse([], BRST_OK);
      } else {
        exit := Jump(Low32(h.start));
        SendResponse([], BRST_OK);
      }
      WireOne(answered);
    }

    /** The other commands: a single response, and nothing but the log touched. */
    method RunSimple(h: Header, datasize: nat)
      requires Configured() && Harmless(h) && datasize <= MAX_DATA && !OwnMethod(h.cmd)
      modifies this`tx, this`answered, this`log
      ensures tx == old(tx) + Wire(answered) && |log| < 0x1_0000_0000
      ensures h.cmd == 0x46 ==> answered == [Response(1, properties)]
      ensures h.cmd == 0x4c ==> answered == [Response(1, old(log))] && log == if h.param1 != 0 then [] else old(log)
      ensures h.cmd in {0x49, 0x53} ==> answered == [Response(1, [])]
      ensures h.cmd !in {0x46, 0x4c, 0x49, 0x53} ==> answered == [Response(0, [])]
      ensures Answers(h, buffer[..datasize], faults(calls), flash, flash, answered)
      ensures Effect(h, buffer[..datasize], old(State()), State(), DiskSectors(), answered)
    {
      hide Wire, ResponseHeader, Encode, Pow256, MountStatus, MemoryBytes, Area, Sectors, Patch;
      answered := [];
      if h.cmd == BCMD_FLASHMEM_PARAMS {
        SendResponse(properties, BRST_OK);
      } else if h.cmd == BCMD_GETLOG {
        SendResponse(log, BRST_OK);
        if h.param1 != 0 {
          log := [];
        }
      } else if h.cmd == BCMD_PING || h.cmd == BCMD_SLEEPTEST {
        SendResponse([], BRST_OK);
      } else {
        SendResponse([], BRST_FAIL);
      }
      WireOne(answered);
    }

    /** A packet the protocol allows: a header when idle, data of the current command otherwise. */
    ghost predicate Expected(packet: seq<byte>)
      reads this
    {
      Idle() ==> AcceptedHeader(packet)
    }

    /** diskboot_rx_handler. A rejected packet is dropped, but one of header size has replaced the
        current command by then. */
    method RxHandler(packet: seq<byte>)
      requires Valid()
      requires Idle() && AcceptedHeader(packet) ==> Harmless(DecodeHeader(packet))
      modifies this, buffer
      ensures old(Expected(packet)) ==> Valid()
      ensures old(Idle()) && AcceptedHeader(packet) ==>
        After(DecodeHeader(packet), [], old(calls), old(flash), old(State()), old(tx))
      ensures !old(Idle()) ==>
        After(old(cmd), Collected(old(cmd), old(Received()), packet), old(calls), old(flash), old(State()), old(tx))
      ensures !old(Expected(packet)) ==> flash == old(flash) && tx == old(tx) && State() == old(State())
      ensures !old(Expected(packet)) ==> cmd == if |packet| == HEADER_SIZE then DecodeHeader(packet) else old(cmd)
    {
      hide Answers, Fits, DecodeHeader, Wire, Effect;
      if cmd.cmd == BCMD_NONE {
        if |packet| != HEADER_SIZE {
          return;
        }
        cmd := DecodeHeader(packet);
        if Field(packet, 0, 2) != MAGIC {
          return;
        }
        if cmd.datasize > MAX_DATA {
          return;
        }
        written := 0;
        assert buffer[..written] == [];
      } else {
        Collect(packet);
      }
      if written == cmd.datasize {
        Dispatch(cmd, cmd.datasize);
        cmd := cmd.(cmd := BCMD_NONE);
      }
    }

    /** Copies packet bytes behind the data received so far; extra bytes are ignored. */
    method Collect(packet: seq<byte>)
      requires Valid() && !Idle()
      modifies this`written, buffer
      ensures written <= cmd.datasize && buffer[..written] == Collected(cmd, old(Received()), packet)
    {
      ghost var got := Received();
      var toWrite := cmd.datasize - written;
      if |packet| <= toWrite {
        toWrite := |packet|;
      }
      forall i | 0 <= i < toWrite {
        buffer[written + i] := packet[i];
      }
      assert buffer[..written + toWrite] == got + packet[..toWrite];
      written := written + toWrite;
    }

    /** With `all` the data of command `h` so far: waiting for more, or done and answered. A header
        of no command that announces data is forgotten. */
    ghost predicate After(h: Header, all: seq<byte>, called: nat, before: Flash, board: Board, queued: seq<seq<byte>>)
      reads this, buffer
    {
      && Valid()
      && if |all| < h.datasize then
        && (Idle() <==> h.cmd == BCMD_NONE) && (!Idle() ==> cmd == h && Received() == all)
        && flash == before && State() == board && tx == queued && calls == called
      else
        && Idle() && tx == queued + Wire(answered) && Answers(h, all, faults(called), before, flash, answered)
        && called <= calls
        && Effect(h, all, board, State(), |before.disk| / 512, answered)
    }
  }

  /** The data of `h` after another packet. */
  function Collected(h: Header, got: seq<byte>, packet: seq<byte>): (all: seq<byte>)
    requires |got| < h.datasize
    ensures |all| <= h.datasize
  {
    got + (if |got| + |packet| <= h.datasize then packet else packet[..h.datasize - |got|])
  }

  /** The header checks of diskboot_rx_handler. */
  predicate AcceptedHeader(packet: seq<byte>) {
    |packet| == HEADER_SIZE && Field(packet, 0, 2) == MAGIC && DecodeHeader(packet).datasize <= MAX_DATA
  }

  /** "going to FEL..." or "board reset..." */
  function ExitText(mode: nat): (s: seq<byte>)
    ensures 0 < |s| < 16
  {
    if mode == BE_GO_FEL then [0x67, 0x6f, 0x69, 0x6e, 0x67, 0x20, 0x74, 0x6f, 0x20, 0x46, 0x45, 0x4c, 0x2e, 0x2e, 0x2e]
    else [0x62, 0x6f, 0x61, 0x72, 0x64, 0x20, 0x72, 0x65, 0x73, 0x65, 0x74, 0x2e, 0x2e, 0x2e]
  }

  /** At most 16 MB of data, reads that fit the buffer (a longer one would write behind it), and
      memory reads below 2 GB (a larger size would be negative and stand for a string). */
  predicate Harmless(h: Header) {
    && Fits(h) && h.datasize <= MAX_DATA && (h.cmd == BCMD_MEMREAD ==> h.count < 0x8000_0000)
    && (h.cmd == BCMD_DISKREAD ==> h.count * 512 <= 0x200_0000)
  }

  /** A header the host sends. */
  predicate Sane(h: Header) {
    Harmless(h) && h.cmd != BCMD_NONE
  }

  lemma NoWire()
    ensures Wire([]) == []
  {
  }

  lemma WireOne(rs: seq<Response>)
    requires |rs| == 1
    ensures Wire(rs) == Transfers(rs[0])
  {
    assert Wire(rs[1..]) == [];
  }

  lemma {:induction false} WireAppend(rs: seq<Response>, r: Response)
    ensures Wire(rs + [r]) == Wire(rs) + Transfers(r)
  {
    if rs == [] {
      assert Wire([r][1..]) == [];
    } else {
      assert (rs + [r])[0] == rs[0] && (rs + [r])[1..] == rs[1..] + [r];
      WireAppend(rs[1..], r);
    }
  }
}
