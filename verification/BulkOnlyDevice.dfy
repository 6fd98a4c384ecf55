/**
 The Bulk-Only Transport state machine of `allwindisk/arm/masstorage.c` on values: how OUT
 packets are framed into commands, how volumes are mounted, and what holds over whole runs.
 */
module BulkOnlyDevice {
  import opened BinaryArithmetic
  import opened LittleEndian
  import opened Sequences
  import opened ScsiTarget

  /** The static variables of the source: the current command, the data bytes received for it,
      and the medium. */
  datatype Device = Device(cmd: Cbw, written: nat, medium: Medium)

  const CBW_SIZE: nat := 31
  const CBW_SIGNATURE: word := 0x43425355

  function ParseCbw(p: seq<byte>): Cbw
    requires |p| == CBW_SIZE
  {
    Cbw(Le32(p, 4), Le32(p, 8), p[12], p[14], p[15..31])
  }

  /** The header checks of masstorage_rx_handler. */
  predicate Accepted(p: seq<byte>) {
    |p| == CBW_SIZE && Le32(p, 0) == CBW_SIGNATURE && ParseCbw(p).length <= BUFFER_SIZE
  }

  /** The current command has all its data. */
  predicate Complete(d: Device) {
    d.cmd.length == 0 || ToHostFlag(d.cmd) || d.cmd.length == d.written
  }

  predicate Valid(d: Device) {
    && WellFormedCbw(d.cmd) && d.written <= d.cmd.length
    && |d.medium.buffer| == BUFFER_SIZE
  }

  /** The command block as check_command leaves it. */
  function Stored(c: Cbw, lun: Lun): Cbw
    requires |c.cb| == 16
  {
    if Mismatch(c) || AttentionStops(lun, c.cb[0]) then c else c.(cb := WithoutLun(c.cb))
  }

  /** Runs the current command once its data is complete. */
  function Finish(d: Device, faults: Faults): (r: (Device, seq<Message>))
    requires Valid(d)
    ensures Valid(r.0)
  {
    if Complete(d) then
      var (m, sent) := Execute(d.cmd, d.medium, faults);
      (Device(Stored(d.cmd, d.medium.lun), d.written, m), sent)
    else (d, [])
  }

  /** Copies packet bytes behind the data received so far; extra bytes are ignored. */
  function Append(d: Device, p: seq<byte>): (r: Device)
    requires Valid(d)
    ensures Valid(r)
  {
    var n := if |p| <= d.cmd.length - d.written then |p| else d.cmd.length - d.written;
    var b := d.medium.buffer;
    d.(written := d.written + n,
       medium := d.medium.(buffer := b[..d.written] + p[..n] + b[d.written + n..]))
  }

  /** masstorage_rx_handler on a well-formed stream. */
  predicate Expected(d: Device, p: seq<byte>) {
    Complete(d) ==> Accepted(p) && ParseCbw(p).cbLength <= 16
  }

  function Receive(d: Device, p: seq<byte>, faults: Faults): (r: (Device, seq<Message>))
    requires Valid(d) && Expected(d, p)
    ensures Valid(r.0)
  {
    if Complete(d) then Finish(Device(ParseCbw(p), 0, d.medium), faults)
    else Finish(Append(d, p), faults)
  }

  // ----- mounting

  function DiskSectors(m: Medium): nat {
    |m.disk| / 512
  }

  /** The range check of masstorage_mount; the sum of the arguments wraps as on the 32-bit target. */
  predicate MountFits(diskSectors: nat, first: word, count: word) {
    first < diskSectors && (first + count) % 0x1_0000_0000 <= diskSectors
  }

  predicate MountAccepted(m: Medium, first: word, count: word) {
    !m.lun.isOpen && MountFits(DiskSectors(m), first, count)
  }

  function Mount(m: Medium, first: word, count: word, readWrite: bool): Medium {
    if MountAccepted(m, first, count)
    then m.(lun := m.lun.(firstSector := first, sectorCount := count, ro := !readWrite, isOpen := true))
    else m
  }

  /** An open window lies on the disk. The driver reports disk sizes below 2^31 sectors. */
  predicate Safe(m: Medium) {
    && DiskSectors(m) < 0x8000_0000
    && (m.lun.isOpen ==> m.lun.firstSector + m.lun.sectorCount <= DiskSectors(m))
  }

  /** An accepted mount is on the disk exactly when its end does not wrap. */
  lemma MountStaysOnDisk(m: Medium, first: word, count: word, readWrite: bool)
    requires DiskSectors(m) < 0x8000_0000 && MountAccepted(m, first, count)
    ensures Safe(Mount(m, first, count, readWrite)) <==> first + count < 0x1_0000_0000
  {
  }

  /** A wrapping mount that the source accepts. */
  lemma WrappingMountEscapes(m: Medium)
    requires DiskSectors(m) == 1000 && !m.lun.isOpen
    ensures MountAccepted(m, 500, 0xFFFF_FFFF) && !Safe(Mount(m, 500, 0xFFFF_FFFF, true))
  {
  }

  // ----- one command: messages and residue

  /** Every command is answered by at most one data phase, exactly as long as the host asked,
      and then one status block with the command's tag and a residue within bounds. */
  lemma AnswerShape(c: Cbw, m: Medium, faults: Faults)
    requires WellFormedCbw(c) && |m.buffer| == BUFFER_SIZE
    ensures var sent := Execute(c, m, faults).1;
            && 1 <= |sent| <= 2
            && (|sent| == 2 <==> c.length != 0 && ToHostFlag(c))
            && (|sent| == 2 ==> sent[0].Data? && |sent[0].bytes| == c.length)
            && sent[|sent| - 1].Csw? && sent[|sent| - 1].tag == c.tag
            && 0 <= sent[|sent| - 1].residue <= c.length
  {
    var r := Attempt(c, m, faults);
    ResidueBound(c, m, faults);
  }

  lemma ResidueBound(c: Cbw, m: Medium, faults: Faults)
    requires WellFormedCbw(c) && |m.buffer| == BUFFER_SIZE
    ensures 0 <= FinalResidue(c, Attempt(c, m, faults)) <= c.length
  {
    var lun := Cleared(m.lun, c.cb[0]);
    PerformResidue(WithoutLun(c.cb), m.(lun := lun), DataSize(c), c.length, faults);
  }

  /** A command subtracts at most its data size, and then only when it prepares no reply. */
  lemma PerformResidue(cb: seq<byte>, m: Medium, size: nat, residue: int, faults: Faults)
    requires |cb| == 16 && |m.buffer| == BUFFER_SIZE && size <= BUFFER_SIZE
    ensures var r := Perform(cb, m, size, residue, faults);
            residue - size <= r.residue <= residue && (!r.reply.NoReply? ==> r.residue == residue)
  {
  }

  // ----- one command: NAND accesses

  /** `a` lies inside the open window of `lun`, and writes only if it is mounted read-write. */
  predicate Within(a: Access, lun: Lun) {
    && lun.isOpen
    && lun.firstSector <= a.first && a.first + a.count <= lun.firstSector + lun.sectorCount
    && (a.write ==> !lun.ro)
  }

  /** `after` continues `before` with accesses inside the window of `lun` only. */
  ghost predicate Extends(before: seq<Access>, after: seq<Access>, lun: Lun) {
    && before <= after
    && (forall i :: |before| <= i < |after| ==> Within(after[i], lun))
  }

  lemma NandReadWithin(m: Medium, lba: word, count: nat, fault: bool)
    requires Safe(m) && m.lun.isOpen && count * 512 <= |m.buffer|
    requires lba + count <= m.lun.sectorCount
    ensures var v := NandRead(m, (m.lun.firstSector + lba) % 0x1_0000_0000, count, fault).0;
            Extends(m.accesses, v.accesses, m.lun) && v.lun == m.lun && Safe(v)
  {
    assert (m.lun.firstSector + lba) % 0x1_0000_0000 == m.lun.firstSector + lba;
  }

  lemma {:induction false} VerifyWithin(m: Medium, lba: word, left: nat, faults: Faults, call: nat)
    requires Safe(m) && m.lun.isOpen && |m.buffer| >= 4096 * 512
    requires (lba as int + left) <= m.lun.sectorCount
    ensures var v := VerifyBlocks(m, lba, left, faults, call);
            Extends(m.accesses, v.accesses, m.lun) && SameWindow(v.lun, m.lun)
    decreases left
  {
    hide NandRead;
    if left > 0 {
      var amount := if left < 4096 then left else 4096;
      var first := (m.lun.firstSector + lba) % 0x1_0000_0000;
      NandReadWithin(m, lba, amount, faults(call));
      var (m', failed) := NandRead(m, first, amount, faults(call));
      if !failed {
        VerifyWithin(m', (lba + amount) % 0x1_0000_0000, left - amount, faults, call + 1);
      }
    }
  }

  /** Window, mode and the removal lock agree; the lock may differ. */
  predicate SameWindow(a: Lun, b: Lun) {
    a.isOpen == b.isOpen && a.firstSector == b.firstSector && a.sectorCount == b.sectorCount
    && a.ro == b.ro && a.removable == b.removable && a.prevent == b.prevent && a.attention == b.attention
  }

  /** What no command may do: touch sectors outside the open window, write on a read-only
      mount, change window or mode, open the medium, or eject it while removal is prevented. */
  ghost predicate CommandSafe(m: Medium, after: Medium) {
    var l, k := m.lun, after.lun;
    && Extends(m.accesses, after.accesses, l)
    && k.firstSector == l.firstSector && k.sectorCount == l.sectorCount && k.ro == l.ro
    && (k.isOpen ==> l.isOpen)
    && (l.isOpen && !k.isOpen ==> !l.prevent)
  }

  lemma NandWriteWithin(m: Medium, lba: word, count: nat, fault: bool)
    requires Safe(m) && m.lun.isOpen && !m.lun.ro && count * 512 <= |m.buffer|
    requires lba as int + count <= m.lun.sectorCount
    ensures var v := NandWrite(m, (m.lun.firstSector + lba) % 0x1_0000_0000, count, fault).0;
            Extends(m.accesses, v.accesses, m.lun) && v.lun == m.lun
  {
    assert (m.lun.firstSector + lba) % 0x1_0000_0000 == m.lun.firstSector + lba;
  }

  lemma ReadSafe(cb: seq<byte>, m: Medium, size: nat, residue: int, faults: Faults)
    requires |cb| == 16 && size <= |m.buffer| <= BUFFER_SIZE && Safe(m) && m.lun.isOpen
    ensures CommandSafe(m, Read(cb, m, size, residue, faults).medium)
  {
    var lba, count := Lba(cb), size / 512;
    if !OutOfRange(lba, count, m.lun) && !BadTransferFlags(cb) {
      NandReadWithin(m, lba, count, faults(0));
      assert Safe(m) && lba as int + count <= m.lun.sectorCount;
    }
  }

  lemma WriteSafe(cb: seq<byte>, m: Medium, size: nat, residue: int, faults: Faults)
    requires |cb| == 16 && size <= |m.buffer| <= BUFFER_SIZE && Safe(m) && m.lun.isOpen
    ensures CommandSafe(m, Write(cb, m, size, residue, faults).medium)
  {
    var lba, count := Lba(cb), size / 512;
    if !OutOfRange(lba, count, m.lun) && !m.lun.ro { NandWriteWithin(m, lba, count, faults(0)); }
  }

  lemma VerifySafe(cb: seq<byte>, m: Medium, residue: int, faults: Faults)
    requires |cb| == 16 && |m.buffer| == BUFFER_SIZE && Safe(m) && m.lun.isOpen
    ensures CommandSafe(m, Verify(cb, m, residue, faults).medium)
  {
    hide VerifyBlocks, Be32;
    var lba, length := Be32(cb, 2), Be16(cb, 7);
    if lba as int + length <= m.lun.sectorCount {
      VerifyWithin(m, lba, length, faults, 0);
      assert CommandSafe(m, VerifyBlocks(m, lba, length, faults, 0));
    } else {
      VerifyRefused(lba, length, m.lun.sectorCount);
    }
  }

  /** The range check of VERIFY does not wrap past a range that leaves the window. */
  lemma VerifyRefused(lba: word, length: nat, sectorCount: word)
    requires lba as int + length > sectorCount && length < 0x1_0000 && sectorCount < 0x8000_0000
    ensures (lba + length) % 0x1_0000_0000 > sectorCount || lba >= sectorCount
  {
  }

  predicate Transfers(op: byte) {
    op in {READ_6, READ_10, READ_12, WRITE_6, WRITE_10, WRITE_12, VERIFY}
  }

  lemma ControlsSafe(cb: seq<byte>, m: Medium, residue: int)
    requires |cb| == 16 && |m.buffer| == BUFFER_SIZE
    ensures CommandSafe(m, ModeSense(cb, m, residue).medium)
    ensures CommandSafe(m, StartStop(cb, m, residue).medium)
    ensures CommandSafe(m, PreventAllow(cb, m, residue).medium)
  {
    hide ModeHeader, BareModeHeader, CachingPage, Overlay;
  }

  lemma OtherCommandsSafe(cb: seq<byte>, m: Medium, size: nat, residue: int, faults: Faults)
    requires |cb| == 16 && |m.buffer| == BUFFER_SIZE && size <= BUFFER_SIZE && !Transfers(cb[0])
    ensures CommandSafe(m, Perform(cb, m, size, residue, faults).medium)
  {
    hide ModeSense, StartStop, PreventAllow, Read, Write, Verify, SenseData, InquiryData, CapacityData, FormatData,
         Be32, Overlay;
    ControlsSafe(cb, m, residue);
  }

  lemma PerformSafe(c: Cbw, m: Medium, residue: int, faults: Faults)
    requires WellFormedCbw(c) && |m.buffer| == BUFFER_SIZE && Safe(m)
    requires RuleOf(c).medium ==> m.lun.isOpen
    ensures CommandSafe(m, Perform(WithoutLun(c.cb), m, DataSize(c), residue, faults).medium)
  {
    var cb, op := WithoutLun(c.cb), c.cb[0];
    if !Transfers(op) {
      OtherCommandsSafe(cb, m, DataSize(c), residue, faults);
    } else if op == VERIFY {
      VerifySafe(cb, m, residue, faults);
    } else if op == READ_6 || op == READ_10 || op == READ_12 {
      ReadSafe(cb, m, DataSize(c), residue, faults);
    } else {
      WriteSafe(cb, m, DataSize(c), residue, faults);
    }
  }

  lemma ExecuteSafe(c: Cbw, m: Medium, faults: Faults)
    requires WellFormedCbw(c) && |m.buffer| == BUFFER_SIZE && Safe(m)
    ensures CommandSafe(m, Execute(c, m, faults).0) && Safe(Execute(c, m, faults).0)
  {
    var lun := Cleared(m.lun, c.cb[0]);
    if !Mismatch(c) && !AttentionStops(lun, c.cb[0]) && Refusal(c, lun) == SS_NO_SENSE {
      PerformSafe(c, m.(lun := lun), c.length, faults);
    }
  }

  // ----- whole runs

  datatype Input = Packet(bytes: seq<byte>, faults: Faults) | MountRequest(first: word, count: word, readWrite: bool)

  /** A well-formed command stream, and mounts whose end does not wrap. */
  predicate Legal(d: Device, i: Input) {
    match i
    case Packet(bytes, _) => Expected(d, bytes)
    case MountRequest(first, count, _) => first + count < 0x1_0000_0000
  }

  function Next(d: Device, i: Input): (e: Device)
    requires Valid(d) && Legal(d, i)
    ensures Valid(e)
  {
    match i
    case Packet(bytes, faults) => Receive(d, bytes, faults).0
    case MountRequest(first, count, readWrite) => d.(medium := Mount(d.medium, first, count, readWrite))
  }

  ghost predicate LegalRun(d: Device, inputs: seq<Input>)
    requires Valid(d)
    decreases |inputs|
  {
    inputs == [] || (Legal(d, inputs[0]) && LegalRun(Next(d, inputs[0]), inputs[1..]))
  }

  /** One input is safe: a command is, and only a closed medium is mounted anew. */
  ghost predicate StepSafe(m: Medium, after: Medium) {
    || CommandSafe(m, after)
    || (!m.lun.isOpen && after.accesses == m.accesses)
  }

  /** Every step of the run is safe, and every open window on the way lies on the disk. */
  ghost predicate SafeRun(d: Device, inputs: seq<Input>)
    requires Valid(d) && LegalRun(d, inputs)
    decreases |inputs|
  {
    && Safe(d.medium)
    && (inputs != [] ==>
          && StepSafe(d.medium, Next(d, inputs[0]).medium)
          && SafeRun(Next(d, inputs[0]), inputs[1..]))
  }

  /** The device after power-up. */
  function PowerUp(disk: seq<byte>, buffer: seq<byte>): Device {
    Device(Cbw(0, 0, 0, 0, seq(16, _ => 0)), 0,
           Medium(Lun(false, 0, 0, true, true, false, false, 0, 0, 0), disk, buffer, []))
  }

  lemma StepIsSafe(d: Device, i: Input)
    requires Valid(d) && Legal(d, i) && Safe(d.medium)
    ensures StepSafe(d.medium, Next(d, i).medium) && Safe(Next(d, i).medium)
  {
    match i
    case Packet(bytes, faults) =>
      var e := if Complete(d) then Device(ParseCbw(bytes), 0, d.medium) else Append(d, bytes);
      if Complete(e) { ExecuteSafe(e.cmd, e.medium, faults); }
    case MountRequest(first, count, readWrite) =>
      if MountAccepted(d.medium, first, count) { MountStaysOnDisk(d.medium, first, count, readWrite); }
  }

  lemma {:induction false} EveryRunIsSafe(d: Device, inputs: seq<Input>)
    requires Valid(d) && LegalRun(d, inputs) && Safe(d.medium)
    ensures SafeRun(d, inputs)
    decreases |inputs|
  {
    if inputs != [] {
      StepIsSafe(d, inputs[0]);
      EveryRunIsSafe(Next(d, inputs[0]), inputs[1..]);
    }
  }

  /** From power-up on, no well-formed input sequence makes the device misuse the disk. */
  lemma PowerUpRunsAreSafe(disk: seq<byte>, buffer: seq<byte>, inputs: seq<Input>)
    requires |disk| < 0x8000_0000 * 512 && |buffer| == BUFFER_SIZE
    requires Valid(PowerUp(disk, buffer)) && LegalRun(PowerUp(disk, buffer), inputs)
    ensures SafeRun(PowerUp(disk, buffer), inputs)
  {
    assert DiskSectors(PowerUp(disk, buffer).medium) < 0x8000_0000;
    EveryRunIsSafe(PowerUp(disk, buffer), inputs);
  }

  // ----- framing of OUT data

  ghost predicate Stream(d: Device, ps: seq<seq<byte>>, faults: Faults)
    requires Valid(d)
    decreases |ps|
  {
    ps == [] || (Expected(d, ps[0]) && Stream(Receive(d, ps[0], faults).0, ps[1..], faults))
  }

  /** Packets handled one after the other, and everything sent on the way. */
  ghost function Feed(d: Device, ps: seq<seq<byte>>, faults: Faults): (Device, seq<Message>)
    requires Valid(d) && Stream(d, ps, faults)
    decreases |ps|
  {
    if ps == [] then (d, [])
    else
      var (e, sent) := Receive(d, ps[0], faults);
      var (f, more) := Feed(e, ps[1..], faults);
      (f, sent + more)
  }

  /** The device with the rest of the command's data in place. */
  function Filled(d: Device, data: seq<byte>): (r: Device)
    requires Valid(d) && |data| == d.cmd.length - d.written
    ensures Valid(r)
  {
    var b := d.medium.buffer;
    d.(written := d.cmd.length,
       medium := d.medium.(buffer := b[..d.written] + data + b[d.cmd.length..]))
  }

  /** However the outstanding data is split into packets, nothing happens before the last one
      and the command then runs once, on the concatenation cut to the announced length. */
  lemma {:induction false} DataCollected(d: Device, ps: seq<seq<byte>>, faults: Faults)
    requires Valid(d) && !Complete(d) && ps != []
    requires |Flatten(ps[..|ps| - 1])| < d.cmd.length - d.written <= |Flatten(ps)|
    ensures Stream(d, ps, faults)
    ensures Feed(d, ps, faults) == Finish(Filled(d, Flatten(ps)[..d.cmd.length - d.written]), faults)
    decreases |ps|
  {
    hide Execute;
    var left := d.cmd.length - d.written;
    var e := Append(d, ps[0]);
    if |ps| == 1 {
      assert Flatten(ps) == ps[0] by { assert Flatten(ps[1..]) == []; }
      assert e == Filled(d, ps[0][..left]);
      FeedSingle(d, ps, faults);
    } else {
      var rest := ps[1..];
      assert ps[..|ps| - 1][1..] == rest[..|rest| - 1];
      assert Receive(d, ps[0], faults) == (e, []);
      DataCollected(e, rest, faults);
      var data := Flatten(rest)[..left - |ps[0]|];
      FilledTwice(d, ps[0], data);
      assert Flatten(ps)[..left] == ps[0] + data;
      FeedQuietFirst(d, ps, faults);
    }
  }

  lemma FeedSingle(d: Device, ps: seq<seq<byte>>, faults: Faults)
    requires Valid(d) && |ps| == 1 && Stream(d, ps, faults)
    ensures Feed(d, ps, faults) == Receive(d, ps[0], faults)
  {
    hide Receive;
    var (e, sent) := Receive(d, ps[0], faults);
    assert Feed(e, ps[1..], faults) == (e, []);
    assert sent + [] == sent;
  }

  /** A packet that completes nothing adds nothing to what is sent. */
  lemma FeedQuietFirst(d: Device, ps: seq<seq<byte>>, faults: Faults)
    requires Valid(d) && ps != [] && Stream(d, ps, faults) && Receive(d, ps[0], faults).1 == []
    ensures Feed(d, ps, faults) == Feed(Receive(d, ps[0], faults).0, ps[1..], faults)
  {
    hide Receive;
    var rest := Feed(Receive(d, ps[0], faults).0, ps[1..], faults);
    assert [] + rest.1 == rest.1;
  }

  lemma FilledTwice(d: Device, p: seq<byte>, data: seq<byte>)
    requires Valid(d) && |p| + |data| == d.cmd.length - d.written
    ensures |data| == Append(d, p).cmd.length - Append(d, p).written
    ensures Filled(Append(d, p), data) == Filled(d, p + data)
  {
  }

  /** The whole OUT command: header packet, then data in any packets. */
  lemma OutCommandRunsOnce(d: Device, p: seq<byte>, ps: seq<seq<byte>>, faults: Faults)
    requires Valid(d) && Complete(d) && Expected(d, p)
    requires ParseCbw(p).length > 0 && !ToHostFlag(ParseCbw(p)) && ps != []
    requires |Flatten(ps[..|ps| - 1])| < ParseCbw(p).length <= |Flatten(ps)|
    ensures Stream(d, [p] + ps, faults)
    ensures var c := ParseCbw(p);
            var m := d.medium.(buffer := Overlay(d.medium.buffer, Flatten(ps)[..c.length]));
            && Feed(d, [p] + ps, faults).1 == Execute(c, m, faults).1
            && Feed(d, [p] + ps, faults).0.medium == Execute(c, m, faults).0
  {
    var c := ParseCbw(p);
    var e := Device(c, 0, d.medium);
    assert Receive(d, p, faults) == (e, []);
    DataCollected(e, ps, faults);
    assert ([p] + ps)[0] == p && ([p] + ps)[1..] == ps;
    assert Filled(e, Flatten(ps)[..c.length]).medium.buffer == Overlay(d.medium.buffer, Flatten(ps)[..c.length]);
  }

  // ----- sense data

  /** REQUEST SENSE as hosts send it: an allocation length the host can take, no other fields. */
  predicate IsRequestSense(c: Cbw) {
    && WellFormedCbw(c) && c.cb[0] == REQUEST_SENSE && c.cbLength >= 6
    && c.cb[1] % 32 == 0 && (forall i :: 2 <= i < c.cbLength && i != 4 ==> c.cb[i] == 0)
    && c.cb[4] <= c.length && (c.cb[4] > 0 ==> ToHostFlag(c))
  }

  /** The status block of the last command in `sent`. */
  function StatusOf(sent: seq<Message>): byte
    requires sent != [] && sent[|sent| - 1].Csw?
  {
    sent[|sent| - 1].status
  }

  lemma RequestSensePasses(c: Cbw, m: Medium, faults: Faults)
    requires IsRequestSense(c) && |m.buffer| == BUFFER_SIZE
    ensures !PhaseError(c) && !StrayBytes(c)
    ensures var (after, sent) := Execute(c, m, faults);
            && after.lun == m.lun.(sense := SS_NO_SENSE, info := 0, infoValid := false)
            && after.buffer == Overlay(m.buffer, SenseData(m.lun))
            && StatusOf(sent) == 0
  {
    assert WithoutLun(c.cb)[1] == 0;
  }

  /** The fields of the sense data: key, code and qualifier, the information, and its validity. */
  lemma SenseDataExact(lun: Lun)
    requires lun.sense < 0x100_0000
    ensures var s := SenseData(lun);
            && |s| == 18
            && s[2] as int * 0x1_0000 + s[12] as int * 0x100 + s[13] == lun.sense
            && Be32(s, 3) == lun.info
            && s[0] == if lun.infoValid then 0xf0 else 0x70
  {
    Be32RoundTrip(lun.info);
    var v := lun.sense;
    assert v / 0x1_0000 < 0x100 && v / 0x100 / 0x100 == v / 0x1_0000;
    assert v / 0x100 == v / 0x1_0000 * 0x100 + v / 0x100 % 0x100;
  }

  /** The sense bytes that a REQUEST SENSE command sends to the host: as many as the host takes. */
  function SenseReceived(c: Cbw, sent: seq<Message>): seq<byte>
    requires sent != [] && (c.length > 0 && ToHostFlag(c) ==> sent[0].Data? && |sent[0].bytes| == c.length)
  {
    if c.length > 0 && ToHostFlag(c) then sent[0].bytes[..SenseSize(c)] else []
  }

  function SenseSize(c: Cbw): (n: nat)
    ensures n <= c.length && n <= 18
  {
    if !ToHostFlag(c) then 0 else if c.length < 18 then c.length else 18
  }

  lemma SenseArrives(c: Cbw, m: Medium, faults: Faults)
    requires IsRequestSense(c) && |m.buffer| == BUFFER_SIZE
    ensures var sent := Execute(c, m, faults).1;
            && sent != []
            && (c.length > 0 && ToHostFlag(c) ==> sent[0].Data? && |sent[0].bytes| == c.length)
            && SenseReceived(c, sent) == SenseData(m.lun)[..SenseSize(c)]
            && StatusOf(sent) == 0
  {
    hide SenseData, RuleOf;
    RequestSensePasses(c, m, faults);
  }

  /** `m` with other sense data. */
  function WithSense(m: Medium, sense: word, info: word, valid: bool): Medium {
    m.(lun := m.lun.(sense := sense, info := info, infoValid := valid))
  }

  /** The sense data after the command is the command's own: earlier sense data has no influence. */
  ghost predicate OwnSense(c: Cbw, m: Medium, faults: Faults)
    requires WellFormedCbw(c) && |m.buffer| == BUFFER_SIZE
  {
    forall sense: word, info: word, valid: bool {:trigger WithSense(m, sense, info, valid)} ::
      Execute(c, WithSense(m, sense, info, valid), faults).0.lun == Execute(c, m, faults).0.lun
  }

  /** Commands that leave earlier sense data, or a part of it, in place: those rejected for their
      direction or length, and a REQUEST SENSE refused for a stray byte, behind whose code the
      older information stays. */
  predicate KeepsOldSense(c: Cbw)
    requires WellFormedCbw(c)
  {
    Mismatch(c) || (c.cb[0] == REQUEST_SENSE && StrayBytes(c))
  }

  lemma OwnSenseUnlessKept(c: Cbw, m: Medium, faults: Faults)
    requires WellFormedCbw(c) && |m.buffer| == BUFFER_SIZE
    ensures OwnSense(c, m, faults) <==> !KeepsOldSense(c)
  {
    if KeepsOldSense(c) {
      var other: word := if m.lun.info == 0 then 1 else 0;
      InfoStays(c, WithSense(m, 0, other, false), faults);
      InfoStays(c, m, faults);
      assert Execute(c, WithSense(m, 0, other, false), faults).0.lun.info != m.lun.info;
    } else {
      forall sense: word, info: word, valid: bool
        ensures Execute(c, WithSense(m, sense, info, valid), faults).0.lun == Execute(c, m, faults).0.lun
      {
        ForgetsSense(c, m, faults, sense, info, valid);
      }
    }
  }

  lemma InfoStays(c: Cbw, m: Medium, faults: Faults)
    requires WellFormedCbw(c) && |m.buffer| == BUFFER_SIZE && KeepsOldSense(c)
    ensures Execute(c, m, faults).0.lun.info == m.lun.info
  {
    hide Perform, RuleOf;
    if Mismatch(c) { MismatchKeepsSense(c, m, faults); }
  }

  /** The other commands leave the same in the unit whatever the sense data was. */
  lemma ForgetsSense(c: Cbw, m: Medium, faults: Faults, sense: word, info: word, valid: bool)
    requires WellFormedCbw(c) && |m.buffer| == BUFFER_SIZE && !KeepsOldSense(c)
    ensures Execute(c, WithSense(m, sense, info, valid), faults).0.lun == Execute(c, m, faults).0.lun
  {
    if c.cb[0] == REQUEST_SENSE {
      RequestSenseClears(c, WithSense(m, sense, info, valid), faults);
      RequestSenseClears(c, m, faults);
    } else {
      SameWithoutSense(c, m, faults, sense, info, valid);
    }
  }

  lemma SameWithoutSense(c: Cbw, m: Medium, faults: Faults, sense: word, info: word, valid: bool)
    requires WellFormedCbw(c) && |m.buffer| == BUFFER_SIZE && !Mismatch(c) && c.cb[0] != REQUEST_SENSE
    ensures Execute(c, WithSense(m, sense, info, valid), faults) == Execute(c, m, faults)
  {
    hide Perform, RuleOf;
    assert Cleared(WithSense(m, sense, info, valid).lun, c.cb[0]) == Cleared(m.lun, c.cb[0]);
  }

  lemma RequestSenseClears(c: Cbw, m: Medium, faults: Faults)
    requires WellFormedCbw(c) && |m.buffer| == BUFFER_SIZE && !KeepsOldSense(c) && c.cb[0] == REQUEST_SENSE
    ensures Execute(c, m, faults).0.lun == WithSense(m, SS_NO_SENSE, 0, false).lun
  {
  }

  /** A command the host and the device disagree on leaves the earlier sense data in place. */
  lemma MismatchKeepsSense(c: Cbw, m: Medium, faults: Faults)
    requires WellFormedCbw(c) && |m.buffer| == BUFFER_SIZE && Mismatch(c)
    ensures Execute(c, m, faults).0 == m
  {
  }

  /** INQUIRY for 36 bytes, announced as data from the host. */
  function InquiryTheWrongWay(): Cbw {
    Cbw(0, 36, 0, 6, [INQUIRY, 0, 0, 0, 36, 0, 0, 0, 0, 0, 0, 0, 0, 0, 0, 0])
  }

  /** A concrete mismatch: the REQUEST SENSE behind it reports an older failure as this one's. */
  lemma StaleSenseReported(rs: Cbw, m: Medium, faults: Faults)
    requires |m.buffer| == BUFFER_SIZE && m.lun.sense == SS_WRITE_PROTECTED
    requires IsRequestSense(rs) && ToHostFlag(rs) && rs.length >= 18
    ensures StatusOf(Execute(InquiryTheWrongWay(), m, faults).1) == 2
    ensures var sent := Execute(rs, Execute(InquiryTheWrongWay(), m, faults).0, faults).1;
            sent[0].Data? && |sent[0].bytes| == rs.length && sent[0].bytes[2] == 7 && sent[0].bytes[12] == 0x27
  {
    hide SenseData, InquiryTheWrongWay, Execute;
    InquiryRejected(m, faults);
    SenseArrives(rs, m, faults);
    WriteProtectedSense(m.lun);
    var bytes := Execute(rs, m, faults).1[0].bytes;
    assert bytes[2] == bytes[..18][2] && bytes[12] == bytes[..18][12];
  }

  lemma InquiryRejected(m: Medium, faults: Faults)
    requires |m.buffer| == BUFFER_SIZE
    ensures Mismatch(InquiryTheWrongWay())
    ensures Execute(InquiryTheWrongWay(), m, faults).0 == m && StatusOf(Execute(InquiryTheWrongWay(), m, faults).1) == 2
  {
    var c := InquiryTheWrongWay();
    assert Mismatch(c) && PhaseError(c);
    MismatchKeepsSense(c, m, faults);
  }

  lemma WriteProtectedSense(lun: Lun)
    requires lun.sense == SS_WRITE_PROTECTED
    ensures SenseData(lun)[2] == 7 && SenseData(lun)[12] == 0x27
  {
  }

  /** REQUEST SENSE with a byte set that it does not allow. */
  function StrayRequestSense(): Cbw {
    Cbw(0, 18, 0x80, 6, [REQUEST_SENSE, 0, 1, 0, 18, 0, 0, 0, 0, 0, 0, 0, 0, 0, 0, 0])
  }

  /** It fails, and the REQUEST SENSE behind it reports its failure with the sector of an older one. */
  lemma StaleInformationReported(rs: Cbw, m: Medium, faults: Faults)
    requires |m.buffer| == BUFFER_SIZE && m.lun.infoValid && IsRequestSense(rs) && ToHostFlag(rs) && rs.length >= 18
    ensures StatusOf(Execute(StrayRequestSense(), m, faults).1) == 1
    ensures var sent := Execute(rs, Execute(StrayRequestSense(), m, faults).0, faults).1;
            && sent[0].Data? && |sent[0].bytes| == rs.length && sent[0].bytes[0] == 0xf0
            && sent[0].bytes[2] == 5 && sent[0].bytes[12] == 0x24 && Be32(sent[0].bytes, 3) == m.lun.info
  {
    hide SenseData, StrayRequestSense, Execute, Be32;
    StrayFails(m, faults);
    var m1 := Execute(StrayRequestSense(), m, faults).0;
    SenseArrives(rs, m1, faults);
    SenseDataExact(m1.lun);
    InvalidFieldSense(m1.lun);
    var bytes := Execute(rs, m1, faults).1[0].bytes;
    assert bytes[..18] == SenseData(m1.lun);
    Be32Prefix(bytes, 18, 3);
    assert bytes[0] == bytes[..18][0] && bytes[2] == bytes[..18][2] && bytes[12] == bytes[..18][12];
  }

  lemma Be32Prefix(s: seq<byte>, n: nat, i: nat)
    requires i + 4 <= n <= |s|
    ensures Be32(s[..n], i) == Be32(s, i)
  {
  }

  lemma StrayFails(m: Medium, faults: Faults)
    requires |m.buffer| == BUFFER_SIZE
    ensures WellFormedCbw(StrayRequestSense())
    ensures var (after, sent) := Execute(StrayRequestSense(), m, faults);
            && after.lun == m.lun.(sense := SS_INVALID_FIELD_IN_CDB) && |after.buffer| == BUFFER_SIZE
            && StatusOf(sent) == 1
  {
    var c := StrayRequestSense();
    assert !Mismatch(c) && !PhaseError(c);
    assert WithoutLun(c.cb)[2] == 1;
    assert StrayBytes(c);
  }

  lemma InvalidFieldSense(lun: Lun)
    requires lun.sense == SS_INVALID_FIELD_IN_CDB
    ensures SenseData(lun)[2] == 5 && SenseData(lun)[12] == 0x24
  {
  }

  /** The status of a command without phase error says whether it left sense data; the next
      REQUEST SENSE passes and sends just that to the host, and a second one reports no sense.
      Unless old sense data is kept, it is what the command leaves in a unit without any. */
  lemma SenseLifecycle(c: Cbw, m: Medium, first: Cbw, second: Cbw, faults: Faults)
    requires WellFormedCbw(c) && |m.buffer| == BUFFER_SIZE
    requires IsRequestSense(first) && IsRequestSense(second)
    ensures var (m1, sent1) := Execute(c, m, faults);
            var (m2, sent2) := Execute(first, m1, faults);
            var (m3, sent3) := Execute(second, m2, faults);
            && (StatusOf(sent1) == 1 <==> !PhaseError(c) && m1.lun.sense != SS_NO_SENSE)
            && (StatusOf(sent1) == 0 <==> !PhaseError(c) && m1.lun.sense == SS_NO_SENSE)
            && (first.length > 0 && ToHostFlag(first) ==> sent2[0].Data? && |sent2[0].bytes| == first.length)
            && SenseReceived(first, sent2) == SenseData(m1.lun)[..SenseSize(first)] && StatusOf(sent2) == 0
            && (second.length > 0 && ToHostFlag(second) ==> sent3[0].Data? && |sent3[0].bytes| == second.length)
            && SenseReceived(second, sent3)
               == SenseData(m1.lun.(sense := SS_NO_SENSE, info := 0, infoValid := false))[..SenseSize(second)]
            && StatusOf(sent3) == 0
    ensures !KeepsOldSense(c) ==>
              Execute(c, m, faults).0.lun == Execute(c, WithSense(m, SS_NO_SENSE, 0, false), faults).0.lun
  {
    hide SenseData, RuleOf;
    if !KeepsOldSense(c) { ForgetsSense(c, m, faults, SS_NO_SENSE, 0, false); }
    var m1 := Execute(c, m, faults).0;
    RequestSensePasses(first, m1, faults);
    SenseArrives(first, m1, faults);
    SenseArrives(second, Execute(first, m1, faults).0, faults);
  }

  /** A command that host and device agree on and that nothing in the command block rules out. */
  predicate Proper(c: Cbw, m: Medium) {
    WellFormedCbw(c) && !PhaseError(c) && !StrayBytes(c) && !AttentionStops(m.lun, c.cb[0])
  }

  /** The command fails without touching the disk, and `rs` tells the host the reason. */
  predicate FailsWith(c: Cbw, rs: Cbw, m: Medium, faults: Faults, sense: word)
    requires WellFormedCbw(c) && |m.buffer| == BUFFER_SIZE && IsRequestSense(rs)
  {
    var (m1, sent1) := Execute(c, m, faults);
    var sent2 := Execute(rs, m1, faults).1;
    && StatusOf(sent1) == 1 && m1.disk == m.disk && m1.accesses == m.accesses
    && StatusOf(sent2) == 0 && sent2[0].Data? && |sent2[0].bytes| >= 18
    && sent2[0].bytes[2] as int * 0x1_0000 + sent2[0].bytes[12] as int * 0x100 + sent2[0].bytes[13] == sense
  }

  lemma FailureReported(c: Cbw, rs: Cbw, m: Medium, faults: Faults, sense: word)
    requires WellFormedCbw(c) && |m.buffer| == BUFFER_SIZE && !PhaseError(c)
    requires IsRequestSense(rs) && ToHostFlag(rs) && rs.length >= 18
    requires SS_NO_SENSE < sense < 0x100_0000
    requires var m1 := Execute(c, m, faults).0; m1.lun.sense == sense && m1.disk == m.disk && m1.accesses == m.accesses
    ensures FailsWith(c, rs, m, faults, sense)
  {
    hide SenseData, PhaseError, RuleOf;
    var m1 := Execute(c, m, faults).0;
    SenseArrives(rs, m1, faults);
    SenseDataExact(m1.lun);
    var bytes := Execute(rs, m1, faults).1[0].bytes;
    assert bytes[2] == bytes[..18][2] && bytes[12] == bytes[..18][12] && bytes[13] == bytes[..18][13];
  }

  /** A write on a read-only mount fails with DATA PROTECT and never reaches the disk. */
  lemma ReadOnlyMountKept(c: Cbw, rs: Cbw, m: Medium, faults: Faults)
    requires Proper(c, m) && |m.buffer| == BUFFER_SIZE && IsRequestSense(rs) && ToHostFlag(rs) && rs.length >= 18
    requires IsWrite(c) && m.lun.isOpen && m.lun.ro
    ensures FailsWith(c, rs, m, faults, SS_WRITE_PROTECTED)
  {
    FailureReported(c, rs, m, faults, SS_WRITE_PROTECTED);
  }

  /** Ejecting passes on a medium that is not locked. */
  lemma EjectCloses(eject: Cbw, m: Medium, faults: Faults)
    requires Proper(eject, m) && eject.cb[0] == START_STOP && eject.cb[4] == 2 && eject.cb[1] % 32 == 0
    requires m.lun.removable && !m.lun.prevent && |m.buffer| == BUFFER_SIZE
    ensures StatusOf(Execute(eject, m, faults).1) == 0 && !Execute(eject, m, faults).0.lun.isOpen
  {
  }

  /** The device after a run. */
  ghost function AfterRun(d: Device, inputs: seq<Input>): (e: Device)
    requires Valid(d) && LegalRun(d, inputs)
    ensures Valid(e)
    decreases |inputs|
  {
    if inputs == [] then d else AfterRun(Next(d, inputs[0]), inputs[1..])
  }

  /** No mount of the run is accepted. */
  ghost predicate NoMount(d: Device, inputs: seq<Input>)
    requires Valid(d) && LegalRun(d, inputs)
    decreases |inputs|
  {
    inputs != [] ==>
      && (inputs[0].MountRequest? ==> !MountAccepted(d.medium, inputs[0].first, inputs[0].count))
      && NoMount(Next(d, inputs[0]), inputs[1..])
  }

  lemma {:induction false} StaysClosed(d: Device, inputs: seq<Input>)
    requires Valid(d) && LegalRun(d, inputs) && Safe(d.medium) && !d.medium.lun.isOpen && NoMount(d, inputs)
    ensures !AfterRun(d, inputs).medium.lun.isOpen
    decreases |inputs|
  {
    if inputs != [] {
      StepIsSafe(d, inputs[0]);
      ClosedStep(d, inputs[0]);
      StaysClosed(Next(d, inputs[0]), inputs[1..]);
    }
  }

  lemma ClosedStep(d: Device, i: Input)
    requires Valid(d) && Legal(d, i) && Safe(d.medium) && !d.medium.lun.isOpen
    requires i.MountRequest? ==> !MountAccepted(d.medium, i.first, i.count)
    ensures !Next(d, i).medium.lun.isOpen
  {
    hide Execute;
    if i.Packet? {
      var e := if Complete(d) then Device(ParseCbw(i.bytes), 0, d.medium) else Append(d, i.bytes);
      if Complete(e) { ExecuteSafe(e.cmd, e.medium, i.faults); }
    }
  }

  /** Once the medium has been ejected, and until a mount is accepted, every command that needs it
      fails with MEDIUM NOT PRESENT, whatever else happens in between. */
  lemma EjectedMediumIsGone(d: Device, eject: Cbw, m: Medium, inputs: seq<Input>, c: Cbw, rs: Cbw, faults: Faults)
    requires Proper(eject, m) && eject.cb[0] == START_STOP && eject.cb[4] == 2 && eject.cb[1] % 32 == 0
    requires m.lun.removable && !m.lun.prevent && |m.buffer| == BUFFER_SIZE && Safe(m)
    requires Valid(d) && d.medium == Execute(eject, m, faults).0 && LegalRun(d, inputs) && NoMount(d, inputs)
    requires IsRequestSense(rs) && ToHostFlag(rs) && rs.length >= 18
    requires Proper(c, AfterRun(d, inputs).medium) && RuleOf(c).medium
    ensures StatusOf(Execute(eject, m, faults).1) == 0
    ensures FailsWith(c, rs, AfterRun(d, inputs).medium, faults, SS_MEDIUM_NOT_PRESENT)
  {
    hide FailsWith, Perform;
    EjectCloses(eject, m, faults);
    ExecuteSafe(eject, m, faults);
    StaysClosed(d, inputs);
    NeedsMedium(c, AfterRun(d, inputs).medium, faults);
    FailureReported(c, rs, AfterRun(d, inputs).medium, faults, SS_MEDIUM_NOT_PRESENT);
  }

  lemma NeedsMedium(c: Cbw, m: Medium, faults: Faults)
    requires Proper(c, m) && |m.buffer| == BUFFER_SIZE && RuleOf(c).medium && !m.lun.isOpen
    ensures var m1 := Execute(c, m, faults).0;
            m1.lun.sense == SS_MEDIUM_NOT_PRESENT && m1.disk == m.disk && m1.accesses == m.accesses
  {
    hide Perform;
  }

  // ----- reading back what was written

  /** A transfer command that passes every check, of whole sectors, and whose NAND call works. */
  predicate CleanTransfer(c: Cbw, m: Medium, faults: Faults) {
    && WellFormedCbw(c) && !PhaseError(c) && DataSize(c) == c.length && c.length % 512 == 0
    && !AttentionStops(m.lun, c.cb[0]) && !StrayBytes(c) && m.lun.isOpen
    && !BadTransferFlags(WithoutLun(c.cb))
    && !OutOfRange(Lba(WithoutLun(c.cb)), c.length / 512, m.lun) && !faults(0)
  }

  predicate IsWrite(c: Cbw) {
    |c.cb| == 16 && (c.cb[0] == WRITE_6 || c.cb[0] == WRITE_10 || c.cb[0] == WRITE_12)
  }

  predicate IsRead(c: Cbw) {
    |c.cb| == 16 && (c.cb[0] == READ_6 || c.cb[0] == READ_10 || c.cb[0] == READ_12)
  }

  /** Where the transfer of `c` lies on the disk, in bytes. */
  function DiskOffset(c: Cbw, lun: Lun): nat
    requires |c.cb| == 16
  {
    (lun.firstSector + Lba(WithoutLun(c.cb))) * 512
  }

  /** A transfer that passes the checks is performed. */
  lemma CleanIsPerformed(c: Cbw, m: Medium, faults: Faults)
    requires CleanTransfer(c, m, faults) && |m.buffer| == BUFFER_SIZE && c.cb[0] != REQUEST_SENSE
    ensures Attempt(c, m, faults)
         == Perform(WithoutLun(c.cb), m.(lun := Cleared(m.lun, c.cb[0])), c.length, c.length, faults)
  {
    hide Perform;
  }

  lemma DirectionAgreed(c: Cbw, m: Medium, faults: Faults)
    requires CleanTransfer(c, m, faults) && c.length > 0
    ensures IsRead(c) ==> ToHostFlag(c)
    ensures IsWrite(c) ==> !ToHostFlag(c)
  {
  }

  lemma TransferPerformed(cb: seq<byte>, m: Medium, size: nat, faults: Faults)
    requires |cb| == 16 && size <= BUFFER_SIZE == |m.buffer|
    ensures cb[0] in {READ_6, READ_10, READ_12} ==>
      Perform(cb, m, size, size, faults) == Read(cb, m, size, size, faults)
    ensures cb[0] in {WRITE_6, WRITE_10, WRITE_12} ==>
      Perform(cb, m, size, size, faults) == Write(cb, m, size, size, faults)
  {
    hide Read, Write;
  }

  lemma WriteWorks(cb: seq<byte>, m: Medium, size: nat, faults: Faults)
    requires |cb| == 16 && size <= |m.buffer| && size % 512 == 0 && Safe(m) && m.lun.isOpen && !m.lun.ro
    requires !BadTransferFlags(cb) && !OutOfRange(Lba(cb), size / 512, m.lun) && size <= BUFFER_SIZE && !faults(0)
    ensures var r := Write(cb, m, size, size, faults); var o := (m.lun.firstSector + Lba(cb)) * 512;
            && r.reply == NoReply && r.residue == 0 && r.medium.lun == m.lun
            && o + size <= |m.disk|
            && r.medium.disk == m.disk[..o] + m.buffer[..size] + m.disk[o + size..]
  {
    var first, count := m.lun.firstSector + Lba(cb), size / 512;
    assert first % 0x1_0000_0000 == first && count * 512 == size;
    assert (first + count) * 512 == first * 512 + size;
  }

  lemma ReadWorks(cb: seq<byte>, m: Medium, size: nat, faults: Faults)
    requires |cb| == 16 && size <= |m.buffer| && size % 512 == 0 && Safe(m) && m.lun.isOpen
    requires !BadTransferFlags(cb) && !OutOfRange(Lba(cb), size / 512, m.lun) && size <= BUFFER_SIZE && !faults(0)
    ensures var r := Read(cb, m, size, size, faults); var o := (m.lun.firstSector + Lba(cb)) * 512;
            && r.reply == NoReply && r.residue == 0 && r.medium.lun == m.lun && r.medium.disk == m.disk
            && o + size <= |m.disk|
            && r.medium.buffer[..size] == m.disk[o..o + size]
  {
    var first, count := m.lun.firstSector + Lba(cb), size / 512;
    assert first % 0x1_0000_0000 == first && count * 512 == size;
    assert (first + count) * 512 == first * 512 + size;
  }

  lemma CleanWrite(c: Cbw, m: Medium, faults: Faults)
    requires Safe(m) && |m.buffer| == BUFFER_SIZE && IsWrite(c) && CleanTransfer(c, m, faults) && !m.lun.ro
    ensures var (after, sent) := Execute(c, m, faults); var o := DiskOffset(c, m.lun);
            && o + c.length <= |m.disk| == |after.disk|
            && after.disk == m.disk[..o] + m.buffer[..c.length] + m.disk[o + c.length..]
            && SameWindow(after.lun, m.lun) && sent == [Csw(c.tag, 0, 0)]
  {
    hide Attempt, Perform, Write, WithoutLun, RuleOf, Be24, Be32;
    if c.length > 0 { DirectionAgreed(c, m, faults); }
    var cb, k := WithoutLun(c.cb), m.(lun := Cleared(m.lun, c.cb[0]));
    CleanIsPerformed(c, m, faults);
    TransferPerformed(cb, k, c.length, faults);
    WriteWorks(cb, k, c.length, faults);
  }

  lemma CleanRead(c: Cbw, m: Medium, faults: Faults)
    requires Safe(m) && |m.buffer| == BUFFER_SIZE && IsRead(c) && CleanTransfer(c, m, faults)
    ensures var (after, sent) := Execute(c, m, faults); var o := DiskOffset(c, m.lun);
            && o + c.length <= |m.disk| && after.disk == m.disk && SameWindow(after.lun, m.lun)
            && sent == (if c.length > 0 then [Data(m.disk[o..o + c.length])] else []) + [Csw(c.tag, 0, 0)]
  {
    hide Attempt, Perform, Read, WithoutLun, RuleOf, Be24, Be32;
    if c.length > 0 { DirectionAgreed(c, m, faults); }
    var cb, k := WithoutLun(c.cb), m.(lun := Cleared(m.lun, c.cb[0]));
    CleanIsPerformed(c, m, faults);
    TransferPerformed(cb, k, c.length, faults);
    ReadWorks(cb, k, c.length, faults);
  }
}
