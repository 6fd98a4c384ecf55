/**
 What a mount grants in `allwindisk/arm/masstorage.c`: over whole runs, the accesses to the disk
 against the arguments of the mount requests.
 */
module MountedRuns {
  import opened BinaryArithmetic
  import opened CommandWrapper
  import opened LittleEndian
  import opened ScsiTarget
  import opened BulkOnlyDevice
  import opened ScsiCommands

  /** The arguments of the last mount that was accepted. */
  datatype Grant = Nothing | Grant(first: word, count: word, readWrite: bool)

  function GrantAfter(g: Grant, d: Device, i: Input): Grant {
    if i.MountRequest? && MountAccepted(d.medium, i.first, i.count) then Grant(i.first, i.count, i.readWrite) else g
  }

  predicate Granted(g: Grant, a: Access) {
    && g.Grant? && g.first <= a.first && a.first + a.count <= g.first + g.count
    && (a.write ==> g.readWrite)
  }

  /** Every access of the run is granted by the mount before it. */
  ghost predicate GrantedRun(d: Device, g: Grant, inputs: seq<Input>)
    requires Valid(d) && LegalRun(d, inputs)
    decreases |inputs|
  {
    inputs != [] ==>
      var e := Next(d, inputs[0]);
      && d.medium.accesses <= e.medium.accesses
      && (forall k :: |d.medium.accesses| <= k < |e.medium.accesses| ==> Granted(g, e.medium.accesses[k]))
      && GrantedRun(e, GrantAfter(g, d, inputs[0]), inputs[1..])
  }

  /** The open window is the one that was granted. */
  predicate Agrees(g: Grant, lun: Lun) {
    lun.isOpen ==> g == Grant(lun.firstSector, lun.sectorCount, !lun.ro)
  }

  lemma StepGranted(d: Device, g: Grant, i: Input)
    requires Valid(d) && Legal(d, i) && Safe(d.medium) && Agrees(g, d.medium.lun)
    ensures var e := Next(d, i);
            && d.medium.accesses <= e.medium.accesses
            && (forall k :: |d.medium.accesses| <= k < |e.medium.accesses| ==> Granted(g, e.medium.accesses[k]))
            && Safe(e.medium) && Agrees(GrantAfter(g, d, i), e.medium.lun)
  {
    hide Execute;
    StepIsSafe(d, i);
    if i.Packet? {
      var e := if Complete(d) then Device(ParseCbw(i.bytes), 0, d.medium) else Append(d, i.bytes);
      if Complete(e) { ExecuteSafe(e.cmd, e.medium, i.faults); }
    }
  }

  lemma {:induction false} AccessesGranted(d: Device, g: Grant, inputs: seq<Input>)
    requires Valid(d) && LegalRun(d, inputs) && Safe(d.medium) && Agrees(g, d.medium.lun)
    ensures GrantedRun(d, g, inputs)
    decreases |inputs|
  {
    hide Next, Granted, Agrees, GrantAfter, Safe;
    if inputs != [] {
      StepGranted(d, g, inputs[0]);
      AccessesGranted(Next(d, inputs[0]), GrantAfter(g, d, inputs[0]), inputs[1..]);
    }
  }

  /** From power-up on, whatever the host sends: every access lies in the window of the last accepted
      mount, and writes happen only if that mount asked for reading and writing. */
  lemma PowerUpAccessesGranted(disk: seq<byte>, buffer: seq<byte>, inputs: seq<Input>)
    requires |disk| < 0x8000_0000 * 512 && |buffer| == BUFFER_SIZE
    requires Valid(PowerUp(disk, buffer)) && LegalRun(PowerUp(disk, buffer), inputs)
    ensures GrantedRun(PowerUp(disk, buffer), Nothing, inputs)
  {
    assert DiskSectors(PowerUp(disk, buffer).medium) < 0x8000_0000;
    AccessesGranted(PowerUp(disk, buffer), Nothing, inputs);
  }

  /** Behind an accepted mount, a write in its window changes exactly its sectors if the mount was
      for reading and writing, and fails without touching the disk if it was not. */
  lemma MountThenWrite(m: Medium, first: word, size: word, readWrite: bool, w: Cbw, faults: Faults, lba: nat,
      count: nat)
    requires MountAccepted(m, first, size) && first + size < 0x1_0000_0000 && DiskSectors(m) < 0x8000_0000
    requires IsWriteOf(w, lba, count) && GoodFlags(w) && |m.buffer| == BUFFER_SIZE && m.lun.attention == 0
    requires lba < size && lba + count <= size && !faults(0)
    ensures var (after, sent) := Execute(w, Mount(m, first, size, readWrite), faults); var at := (first + lba) * 512;
            && at + w.length <= |m.disk|
            && after.disk == (if readWrite then m.disk[..at] + m.buffer[..w.length] + m.disk[at + w.length..]
                              else m.disk)
            && StatusOf(sent) == if readWrite then 0 else 1
  {
    hide Execute, IsWriteOf, GoodFlags;
    var k := Mount(m, first, size, readWrite);
    MountStaysOnDisk(m, first, size, readWrite);
    WriteFits(w, lba, count);
    if readWrite {
      WriteSectors(w, k, faults, lba, count);
    } else {
      TransferRefused(w, k, faults, lba, count);
      assert (first + lba) * 512 + count * 512 <= |m.disk|;
    }
  }

  lemma WriteFits(w: Cbw, lba: nat, count: nat)
    requires IsWriteOf(w, lba, count)
    ensures WellFormedCbw(w) && w.length == count * 512
  {
  }

  /** ... and a read sends exactly its sectors in either case. */
  lemma MountThenRead(m: Medium, first: word, size: word, readWrite: bool, r: Cbw, faults: Faults, lba: nat, count: nat)
    requires MountAccepted(m, first, size) && first + size < 0x1_0000_0000 && DiskSectors(m) < 0x8000_0000
    requires IsReadOf(r, lba, count) && GoodFlags(r) && |m.buffer| == BUFFER_SIZE && m.lun.attention == 0
    requires lba < size && lba + count <= size && !faults(0) && count > 0
    ensures var at := (first + lba) * 512;
            && at + r.length <= |m.disk|
            && Execute(r, Mount(m, first, size, readWrite), faults).1
               == [Data(m.disk[at..at + r.length]), Csw(r.tag, 0, 0)]
  {
    hide Execute;
    MountStaysOnDisk(m, first, size, readWrite);
    ReadSectors(r, Mount(m, first, size, readWrite), faults, lba, count);
  }

  // ----- the wrappers on the wire

  /** The device reads the fields of a command wrapper where hosts put them, and takes every wrapper
      that announces 16 MB at most. */
  lemma WrapperUnderstood(tag: word, length: word, flags: byte, unit: byte, cbLength: byte, cb: seq<byte>)
    requires |cb| == 16
    ensures var p := CommandBytes(tag, length, flags, unit, cbLength, cb);
            && ParseCbw(p) == Cbw(tag, length, flags, cbLength, cb)
            && (Accepted(p) <==> length <= 0x100_0000)
  {
    CommandFields(tag, length, flags, unit, cbLength, cb);
  }

  /** Nothing else is taken for a command: 31 bytes, and "USBC" in front. */
  lemma OnlyWrappersAccepted(p: seq<byte>)
    ensures Accepted(p) ==> |p| == 31 && p[..4] == [0x55, 0x53, 0x42, 0x43]
  {
    if Accepted(p) {
      Signature();
      LeDecodes(0x43425355);
      EncodeDecode(p[0..4]);
      assert p[0..4] == p[..4];
    }
  }

  /** A command without data from the host runs at once, on what its wrapper says. */
  lemma RunsAtOnce(d: Device, tag: word, length: word, flags: byte, unit: byte, cbLength: byte, cb: seq<byte>,
      faults: Faults)
    requires Valid(d) && Complete(d) && |cb| == 16 && cbLength <= 16 && length <= 0x100_0000
    requires length == 0 || flags >= 0x80
    ensures var p, c := CommandBytes(tag, length, flags, unit, cbLength, cb), Cbw(tag, length, flags, cbLength, cb);
            && Expected(d, p) && WellFormedCbw(c)
            && Receive(d, p, faults).1 == Execute(c, d.medium, faults).1
            && Receive(d, p, faults).0.medium == Execute(c, d.medium, faults).0
  {
    hide Execute;
    WrapperUnderstood(tag, length, flags, unit, cbLength, cb);
  }
}
