/**
 The host side of the boot-disk protocol: `allwindisk/usbcomm.c` sends commands and drains
 responses, `allwindisk/allwindisk.c` reads and writes partitions in chunks.
 */
module BootDiskHost {
  import opened BinaryArithmetic
  import opened LittleEndian
  import opened Sequences
  import opened BootDiskDevice
  import opened CommandWrapper
  import BulkOnlyDevice

  /** How an operation ends: normally, refused by its own checks, by exit(1), or waiting for a
      response that never comes. */
  datatype Outcome = Done | Refused | Exit(why: Reason) | Hangs

  datatype Reason = UnreadData | SizeMismatch | BadHeader | DeviceFailed | TransferFailed

  const CHUNK: nat := 0x8_0000

  /** What is still to be read of a response whose header has been read. */
  function Payload(reply: seq<byte>): seq<seq<byte>> {
    if reply == [] then [] else [reply]
  }

  lemma LockstepHead(rs: seq<Response>)
    requires Lockstep(rs)
    ensures Wire(rs) == [ResponseHeader(rs[0])] + Payload(rs[0].data) + Wire(rs[1..])
    ensures |rs[0].data| < 0x1_0000_0000
    ensures |rs| == 1 ==> rs[0].status != BRST_MSG && Wire(rs[1..]) == []
    ensures |rs| > 1 ==> rs[0].status == BRST_MSG && Lockstep(rs[1..]) && rs[1..][|rs| - 2] == rs[|rs| - 1]
  {
    WireHead(rs);
    hide Wire, ResponseHeader;
    if |rs| > 1 {
      var rest := rs[1..];
      assert rs[..|rs| - 1][0] == rs[0];
      assert rest[..|rest| - 1] == rs[..|rs| - 1][1..];
    }
  }

  lemma LastAnswer(h: Header, data: seq<byte>, fault: bool, before: Flash, after: Flash, rs: seq<Response>)
    requires Answers(h, data, fault, before, after, rs)
    ensures Silent(h) ==> rs == [] && after == before
    ensures !Silent(h) ==>
      && rs != [] && Lockstep(rs)
      && var last := rs[|rs| - 1];
      && (last.status == BRST_OK || (last.status == BRST_FAIL && last.data == [] && after == before))
      && (last.status == BRST_OK ==> Succeeds(h, data, before, after, last.data))
      && (h.cmd != BCMD_MOUNT ==> (last.status == BRST_OK <==> Accepted(h, |data|, fault, before)))
  {
    hide Succeeds, Accepted, AllMessages;
  }

  lemma LockstepStatus(rs: seq<Response>)
    requires Lockstep(rs)
    ensures rs[0].status <= BRST_MSG && rs[|rs| - 1].status != BRST_MSG
  {
    if |rs| > 1 { assert rs[..|rs| - 1][0] == rs[0]; }
  }

  lemma WireHead(rs: seq<Response>)
    requires rs != []
    ensures Wire(rs) == [ResponseHeader(rs[0])] + Payload(rs[0].data) + Wire(rs[1..])
  {
  }

  /** The messages before the final response. */
  function MessageText(rs: seq<Response>): seq<byte> {
    if |rs| <= 1 then [] else rs[0].data + MessageText(rs[1..])
  }

  lemma MessageHead(out: seq<byte>, rs: seq<Response>)
    requires rs != []
    ensures |rs| == 1 ==> out + MessageText(rs) == out
    ensures |rs| > 1 ==> out + MessageText(rs) == (out + rs[0].data) + MessageText(rs[1..])
  {
    if |rs| > 1 { Reassociate(out, rs[0].data, MessageText(rs[1..])); }
  }

  lemma WireEmpty(rs: seq<Response>)
    ensures Wire(rs) == [] <==> rs == []
    ensures rs == [] ==> MessageText(rs) == []
  {
  }

  class Host {
    const dev: Device
    var respSize: nat        // cur_resp_header.datasize
    var stdout: seq<byte>

    constructor (dev: Device)
      ensures this.dev == dev && respSize == 0
    {
      this.dev := dev;
      respSize, stdout := 0, [];
    }

    /** The state in which every command starts: the device is in its main loop and waits for a
        header, no response is under way, and all of the last one has been read. */
    ghost predicate Quiet()
      reads this, dev
    {
      Drained() && dev.exit == Stay
    }

    ghost predicate Drained()
      reads this, dev
    {
      dev.Valid() && dev.Idle() && dev.tx == [] && respSize == 0
    }

    /** An OUT transfer reaches the device in packets of any sizes. */
    method BulkOutData(data: seq<byte>)
      requires dev.Valid() && !dev.Idle() && dev.written == 0 && |data| == dev.cmd.datasize
      modifies dev, dev.buffer
      ensures dev.Valid() && dev.Idle() && dev.tx == old(dev.tx) + Wire(dev.answered) && old(dev.calls) <= dev.calls
      ensures Answers(old(dev.cmd), data, dev.faults(old(dev.calls)), old(dev.flash), dev.flash, dev.answered)
      ensures Effect(old(dev.cmd), data, old(dev.State()), dev.State(), old(dev.DiskSectors()), dev.answered)
    {
      hide Answers, Wire, Effect;
      var i := 0;
      assert dev.Received() == data[..i];
      while i < |data|
        invariant 0 <= i <= |data| && dev.Valid()
        invariant i < |data| ==> !dev.Idle() && dev.cmd == old(dev.cmd) && dev.Received() == data[..i]
        invariant i < |data| ==> dev.flash == old(dev.flash) && dev.tx == old(dev.tx) && dev.State() == old(dev.State())
        invariant if i < |data| then dev.calls == old(dev.calls) else old(dev.calls) <= dev.calls
        invariant i == |data| ==>
          Effect(old(dev.cmd), data, old(dev.State()), dev.State(), old(dev.DiskSectors()), dev.answered)
        invariant i == |data| ==> dev.Idle() && dev.tx == old(dev.tx) + Wire(dev.answered)
        invariant i == |data| ==>
          Answers(old(dev.cmd), data, dev.faults(old(dev.calls)), old(dev.flash), dev.flash, dev.answered)
      {
        var n: nat :| 1 <= n <= |data| - i;
        assert data[..i] + data[i..i + n] == data[..i + n];
        dev.RxHandler(data[i..i + n]);
        i := i + n;
        assert i == |data| ==> data[..i] == data;
      }
    }

    /** An IN transfer of at most `n` bytes: a whole packet of the oldest transfer, or more. */
    method BulkIn(n: nat) returns (bytes: seq<byte>)
      requires n > 0 && dev.tx != [] && dev.tx[0] != []
      modifies dev`tx
      ensures 0 < |bytes| <= n && |bytes| <= |old(dev.tx)[0]|
      ensures n == |old(dev.tx)[0]| <= 512 ==> |bytes| == n
      ensures old(dev.tx)[0][..|bytes|] == bytes
      ensures dev.tx == Payload(old(dev.tx)[0][|bytes|..]) + old(dev.tx)[1..]
    {
      var front := dev.tx[0];
      var most := if n < |front| then n else |front|;
      var least := if most < 512 then most else 512;
      var t: nat :| least <= t <= most;
      bytes := front[..t];
      dev.tx := (if t == |front| then [] else [front[t..]]) + dev.tx[1..];
    }

    /** The oldest transfer is what is left of the current response's data, if any is left. */
    ghost predicate Draining()
      reads this, dev
    {
      respSize > 0 ==> dev.tx != [] && |dev.tx[0]| == respSize
    }

    /** The reading loop of print_response_data and get_response_data, `limit` bytes at a time. */
    method Drain(limit: nat) returns (bytes: seq<byte>)
      requires Draining() && (respSize > 0 ==> limit > 0)
      modifies this`respSize, dev`tx
      ensures respSize == 0
      ensures old(respSize) > 0 ==> bytes == old(dev.tx)[0] && dev.tx == old(dev.tx)[1..]
      ensures old(respSize) == 0 ==> bytes == [] && dev.tx == old(dev.tx)
    {
      bytes := [];
      ghost var all, rest := if respSize > 0 then dev.tx[0] else [], if respSize > 0 then dev.tx[1..] else dev.tx;
      while respSize > 0
        invariant |bytes| + respSize == |all| && bytes == all[..|bytes|]
        invariant dev.tx == Payload(all[|bytes|..]) + rest
        decreases respSize
      {
        var toRead := if limit < respSize then limit else respSize;
        var part := BulkIn(toRead);
        assert all[..|bytes|] + part == all[..|bytes| + |part|];
        bytes := bytes + part;
        respSize := respSize - |part|;
      }
    }

    method PrintResponseData()
      requires Draining()
      modifies this`respSize, this`stdout, dev`tx
      ensures respSize == 0
      ensures old(respSize) > 0 ==> stdout == old(stdout) + old(dev.tx)[0] && dev.tx == old(dev.tx)[1..]
      ensures old(respSize) == 0 ==> stdout == old(stdout) && dev.tx == old(dev.tx)
    {
      var bytes := Drain(0x4_0000);
      stdout := stdout + bytes;
    }

    method GetResponseData(bufsize: nat) returns (r: Outcome, buf: seq<byte>)
      requires Draining()
      modifies this`respSize, dev`tx
      ensures bufsize != old(respSize) ==> r == Exit(SizeMismatch)
      ensures bufsize == old(respSize) ==> r == Done && respSize == 0
      ensures bufsize == old(respSize) && bufsize > 0 ==> buf == old(dev.tx)[0] && dev.tx == old(dev.tx)[1..]
      ensures bufsize == old(respSize) && bufsize == 0 ==> buf == [] && dev.tx == old(dev.tx)
    {
      if bufsize != respSize {
        return Exit(SizeMismatch), [];
      }
      buf := Drain(bufsize);
      r := Done;
    }

    /** send_command, up to the first response header: the command and its data go out. */
    method Transmit(h: Header, data: seq<byte>)
      requires dev.Valid() && dev.Idle() && Sane(h) && |data| == h.datasize
      modifies dev, dev.buffer
      ensures dev.Valid() && dev.Idle() && dev.tx == old(dev.tx) + Wire(dev.answered) && old(dev.calls) <= dev.calls
      ensures Answers(h, data, dev.faults(old(dev.calls)), old(dev.flash), dev.flash, dev.answered)
      ensures Effect(h, data, old(dev.State()), dev.State(), old(dev.DiskSectors()), dev.answered)
    {
      hide Answers, Wire, Effect;
      HeaderRoundTrip(h);
      dev.RxHandler(EncodeHeader(h));
      if h.datasize > 0 {
        BulkOutData(data);
      } else {
        assert data == [];
      }
    }

    /** Reads one response header; false if it comes short. */
    method ReadHeader(ghost rest: seq<Response>) returns (ok: bool, status: nat)
      requires Lockstep(rest) && dev.tx == Wire(rest) && |rest[0].data| < 0x1_0000_0000
      modifies this`respSize, dev`tx
      ensures ok && status == rest[0].status && respSize == |rest[0].data|
      ensures dev.tx == Payload(rest[0].data) + Wire(rest[1..])
    {
      LockstepStatus(rest);
      hide Lockstep, ResponseHeader;
      WireHead(rest);
      FieldWidths();
      ResponseHeaderRoundTrip(rest[0]);
      var header := BulkIn(8);
      assert header == ResponseHeader(rest[0]) by { assert ResponseHeader(rest[0])[..8] == ResponseHeader(rest[0]); }
      ok, status := |header| == 8, BRST_FAIL;
      if ok {
        status := Field(header, 2, 2);
        respSize := Field(header, 4, 4);
      }
    }

    /** send_command. It ends with the header of the final response read and all messages
        printed, unless the device reports a failure; only a silent command hangs. */
    method SendCommand(h: Header, data: seq<byte>) returns (r: Outcome, ghost reply: seq<byte>)
      requires Quiet() && Sane(h) && |data| == h.datasize
      modifies this, dev, dev.buffer
      ensures dev.Valid() && dev.Idle()
      ensures Silent(h) ==> r == Hangs
      ensures !Silent(h) ==> r == Done || r == Exit(DeviceFailed)
      ensures !Silent(h) && h.cmd != BCMD_MOUNT ==>
        (r.Done? <==> Accepted(h, |data|, dev.faults(old(dev.calls)), old(dev.flash)))
      ensures old(dev.calls) <= dev.calls
      ensures Effect(h, data, old(dev.State()), dev.State(), old(dev.DiskSectors()), dev.answered)
      ensures !Silent(h) ==>
        && dev.answered != []
        && dev.answered[|dev.answered| - 1] == Response(if r.Done? then BRST_OK else BRST_FAIL, reply)
      ensures r == Exit(DeviceFailed) ==> dev.flash == old(dev.flash) && respSize == 0 && dev.tx == [] && reply == []
      ensures r.Done? ==> Succeeds(h, data, old(dev.flash), dev.flash, reply)
      ensures r.Done? ==> respSize == |reply| && dev.tx == Payload(reply)
      ensures stdout == old(stdout) + MessageText(dev.answered)
      ensures !MayLeave(h.cmd) ==> dev.exit == Stay
      ensures MayLeave(h.cmd) && !Silent(h) ==> dev.exit != Stay
    {
      hide Answers, Effect, Lockstep, Succeeds, Accepted, Wire, MessageText, Silent, Sane;
      reply := [];
      if respSize > 0 {
        return Exit(UnreadData), [];
      }
      ghost var before := dev.flash;
      ghost var board, sectors := dev.State(), dev.DiskSectors();
      Transmit(h, data);
      ExitKept(h, data, board, dev.State(), sectors, dev.answered);
      LastAnswer(h, data, dev.faults(old(dev.calls)), before, dev.flash, dev.answered);
      r, reply := AwaitFinal(dev.answered);
    }

    /** The response loop of send_command. */
    method AwaitFinal(ghost answered: seq<Response>) returns (r: Outcome, ghost reply: seq<byte>)
      requires dev.tx == Wire(answered) && (answered != [] ==> Lockstep(answered)) && respSize == 0
      modifies this, dev`tx
      ensures answered == [] ==> r == Hangs && reply == [] && respSize == 0 && dev.tx == []
      ensures answered != [] ==> respSize == |reply| && dev.tx == Payload(reply)
      ensures answered != [] ==> reply == answered[|answered| - 1].data
      ensures stdout == old(stdout) + MessageText(answered)
      ensures answered != [] ==> r == if answered[|answered| - 1].status == BRST_FAIL then Exit(DeviceFailed) else Done
    {
      hide Lockstep, Wire, MessageText, ResponseHeader;
      WireEmpty(answered);
      if dev.tx == [] {
        return Hangs, [];
      }
      ghost var rest := answered;
      while true
        invariant dev.tx == Wire(rest) && rest != [] && Lockstep(rest)
        invariant rest[|rest| - 1] == answered[|answered| - 1]
        invariant stdout + MessageText(rest) == old(stdout) + MessageText(answered)
        decreases |rest|
      {
        LockstepHead(rest);
        var ok, status := ReadHeader(rest);
        if !ok {
          return Exit(BadHeader), [];
        }
        MessageHead(stdout, rest);
        if status == BRST_MSG {
          PrintResponseData();
          rest := rest[1..];
        } else {
          reply := rest[0].data;
          return if status == BRST_FAIL then Exit(DeviceFailed) else Done, reply;
        }
      }
    }

    method ReadDisk(area: word, first: nat, count: nat) returns (r: Outcome, buf: seq<byte>)
      requires Quiet() && first < 0x1_0000_0000_0000_0000 && count * 512 <= CHUNK
      modifies this, dev, dev.buffer
      ensures r == Done || r == Exit(DeviceFailed)
      ensures r.Done? <==>
        !dev.faults(old(dev.calls)) && InArea(Area(old(dev.flash), area), first % 0x1_0000_0000, count)
      ensures dev.flash == old(dev.flash) && old(dev.calls) <= dev.calls && (r.Done? ==> Quiet())
      ensures r.Done? ==> buf == Sectors(Area(dev.flash, area), first % 0x1_0000_0000, count)
    {
      FieldWidths();
      var h := Header(BCMD_DISKREAD, area, first, count, 0);
      ghost var reply;
      r, reply := SendCommand(h, []);
      buf := [];
      if r.Done? {
        r, buf := GetResponseData(count * 512);
      }
    }

    method WriteDisk(area: word, first: nat, count: nat, data: seq<byte>) returns (r: Outcome)
      requires Quiet() && first < 0x1_0000_0000_0000_0000 && count * 512 == |data| <= MAX_DATA
      modifies this, dev, dev.buffer
      ensures r == Done || r == Exit(DeviceFailed)
      ensures r.Done? <==>
        !dev.faults(old(dev.calls)) && InArea(Area(old(dev.flash), area), first % 0x1_0000_0000, count)
      ensures old(dev.calls) <= dev.calls && (r.Done? ==> Quiet()) && (!r.Done? ==> dev.flash == old(dev.flash))
      ensures r.Done? ==>
        var patched := Patch(Area(old(dev.flash), area), first % 0x1_0000_0000 * 512, data);
        dev.flash == WithArea(old(dev.flash), area, patched)
    {
      FieldWidths();
      var h := Header(BCMD_DISKWRITE, area, first, count, |data|);
      ghost var reply;
      r, reply := SendCommand(h, data);
      assert |data| / 512 == count && data[..count * 512] == data;
    }

    /** cmd_diskread on a partition: `file` is what was written to the output file. The sum of
        offset and count wraps at 64 bits; see `ReadStaysInPartition`. */
    method CmdDiskRead(area: word, firstSector: nat, partSize: nat, range: Range) returns (r: Outcome, file: seq<byte>)
      requires Quiet() && firstSector < 0x1_0000_0000_0000_0000 && partSize < 0x1_0000_0000_0000_0000
      requires |Area(dev.flash, area)| < 0x1_0000_0000 * 512
      modifies this, dev, dev.buffer
      ensures r.Done? || r.Refused? || r == Exit(DeviceFailed)
      ensures dev.flash == old(dev.flash) && old(dev.calls) <= dev.calls && (r.Done? ==> Quiet())
      ensures var offset: nat := if range.Whole? then 0 else 2 * range.offset % 0x1_0000_0000_0000_0000;
              var count: nat := if range.Whole? then partSize else 2 * range.count % 0x1_0000_0000_0000_0000;
              var a, first := Area(dev.flash, area), (firstSector + offset) % 0x1_0000_0000_0000_0000 % 0x1_0000_0000;
              && (r == Refused <==> range.Part? && (offset + count) % 0x1_0000_0000_0000_0000 > partSize)
              && (r.Done? && count == 0 ==> file == [])
              && (r.Done? && count > 0 ==> InArea(a, first, count) && file == Sectors(a, first, count))
              && (old(dev.Healthy()) && !r.Refused? ==> (r.Done? <==> count == 0 || InArea(a, first, count)))
    {
      hide Area, Sectors, InArea, Doubled, Offset, Count;
      RangeInSectors(range, partSize);
      var partOffset, count := Offset(range), Count(range, partSize);
      file := [];
      if range.Part? && (partOffset + count) % 0x1_0000_0000_0000_0000 > partSize {
        return Refused, [];
      }
      var start: nat := (firstSector + partOffset) % 0x1_0000_0000_0000_0000;
      var sector: nat, left: nat := start, count;
      ghost var a := Area(dev.flash, area);
      while left > 0
        invariant Quiet() && dev.flash == old(dev.flash) && left <= count && old(dev.calls) <= dev.calls
        invariant ReadSoFar(a, start, count - left, file, sector)
      {
        var toRead := CHUNK / 512;
        if left < toRead {
          toRead := left;
        }
        PieceInArea(a, start, count, count - left, toRead);
        var buf: seq<byte>;
        r, buf := ReadDisk(area, sector, toRead);
        if !r.Done? {
          return;
        }
        ReadStep(a, start, count - left, file, sector, toRead, buf);
        file := file + buf;
        sector := (sector + toRead) % 0x1_0000_0000_0000_0000;
        left := left - toRead;
      }
      r := Done;
    }

    /** cmd_diskwrite of a file to a partition that getParitionParams found to be on the disk. */
    method CmdDiskWrite(area: word, firstSector: nat, partSize: nat, kilobytes: nat, file: seq<byte>, bufsize: nat)
      returns (r: Outcome)
      requires Quiet() && 0 < bufsize <= MAX_DATA && bufsize % 512 == 0
      requires InArea(Area(dev.flash, area), firstSector, partSize)
      requires |Area(dev.flash, area)| < 0x1_0000_0000 * 512
      modifies this, dev, dev.buffer
      ensures r.Done? || r.Refused? || r == Exit(DeviceFailed)
      ensures old(dev.calls) <= dev.calls && (r.Done? ==> Quiet())
      ensures old(dev.Healthy()) ==> r.Done? || r.Refused?
      ensures r == Refused <==> 2 * kilobytes % 0x1_0000_0000_0000_0000 > partSize
      ensures r.Done? ==>
        var base, end := (firstSector + 2 * kilobytes % 0x1_0000_0000_0000_0000) * 512, (firstSector + partSize) * 512;
        && HoldsFile(Area(old(dev.flash), area), base, end, file, Area(dev.flash, area))
        && dev.flash == WithArea(old(dev.flash), area, Area(dev.flash, area))
    {
      hide Area, Stored, Padded, HoldsFile;
      ghost var before := Area(dev.flash, area);
      var partOffset := Doubled(kilobytes);
      if partOffset > partSize {
        return Refused;
      }
      r := WriteFile(area, firstSector + partOffset, partSize - partOffset, file, bufsize);
      if r.Done? {
        StretchHoldsFile(before, firstSector + partOffset, partSize - partOffset, file, Area(dev.flash, area));
      }
    }

    /** The writing loop of cmd_diskwrite. */
    method WriteFile(area: word, base: nat, most: nat, file: seq<byte>, bufsize: nat) returns (r: Outcome)
      requires Quiet() && 0 < bufsize <= MAX_DATA && bufsize % 512 == 0
      requires InArea(Area(dev.flash, area), base, most) && |Area(dev.flash, area)| < 0x1_0000_0000 * 512
      modifies this, dev, dev.buffer
      ensures r.Done? || r == Exit(DeviceFailed)
      ensures old(dev.calls) <= dev.calls && (old(dev.Healthy()) ==> r.Done?)
      ensures r.Done? ==> Quiet() && Written(area, old(dev.flash), base, Cut(Padded(file), most * 512))
    {
      hide *;
      var sector, count: nat, pos: nat, cut := base, 0, 0, false;
      ghost var padded, f0 := Padded(file), dev.flash;
      NothingYet(area, base, most, padded);
      r := Done;
      while !cut && pos < |file|
        invariant r.Done? && Quiet() && pos <= |file| && sector == base + count && count <= most
        invariant old(dev.calls) <= dev.calls && (old(dev.Healthy()) ==> dev.Healthy())
        invariant Progress(area, f0, base, padded, count)
        invariant cut ==> count == most
        invariant !cut ==> count * 512 == if pos == |file| then |padded| else pos
        decreases if cut then 0 else 1, |file| - pos
      {
        var buf, toWr, n;
        buf, pos, toWr := ReadChunk(file, count, bufsize);
        InAreaRest(Area(f0, area), base, most, count);
        r, n, cut := WriteChunk(area, sector, most - count, buf, toWr, f0, base, padded, count);
        if !r.Done? {
          return;
        }
        sector := sector + n;
        count := count + n;
      }
      AllStored(area, f0, base, padded, count, most);
    }

    /** The first `count` sectors of `padded` are stored. */
    ghost predicate Progress(area: nat, f0: Flash, base: nat, padded: seq<byte>, count: nat)
      reads dev
    {
      count * 512 <= |padded| && Written(area, f0, base, padded[..count * 512])
    }

    lemma NothingYet(area: nat, base: nat, most: nat, padded: seq<byte>)
      requires InArea(Area(dev.flash, area), base, most)
      ensures Progress(area, dev.flash, base, padded, 0)
    {
      NothingStored(Area(dev.flash, area), base, padded);
    }

    lemma AllStored(area: nat, f0: Flash, base: nat, padded: seq<byte>, count: nat, most: nat)
      requires Progress(area, f0, base, padded, count) && count <= most
      requires count * 512 == |padded| || count == most
      ensures Written(area, f0, base, Cut(padded, most * 512))
    {
      CutReached(padded, count * 512, most * 512);
    }

    /** The flash is `f0` with `data` stored in `area` from sector `base` on. */
    ghost predicate Written(area: nat, f0: Flash, base: nat, data: seq<byte>)
      reads dev
    {
      && Stored(Area(f0, area), base, data, Area(dev.flash, area))
      && dev.flash == WithArea(f0, area, Area(dev.flash, area))
    }

    /** read() and the padding of a last short sector. It fills the buffer except at the end. */
    method ReadChunk(file: seq<byte>, at: nat, bufsize: nat) returns (buf: seq<byte>, next: nat, sectors: nat)
      requires at * 512 < |file| && 0 < bufsize && bufsize % 512 == 0
      ensures at * 512 < next <= |file| && 0 < |buf| <= bufsize && |buf| == sectors * 512
      ensures (at + sectors) * 512 <= |Padded(file)| && buf == Padded(file)[at * 512..(at + sectors) * 512]
      ensures (at + sectors) * 512 == if next == |file| then |Padded(file)| else next
    {
      var pos := at * 512;
      var rd := if |file| - pos < bufsize then |file| - pos else bufsize;
      buf := file[pos..pos + rd];
      if rd % 512 != 0 {
        buf := buf + Fill(512 - rd % 512);
      }
      PaddedChunk(file, pos, rd, buf);
      next, sectors := pos + rd, |buf| / 512;
    }

    /** One host command: send it and take the response the way the program does. Only disk commands
        and mounts can fail. */
    method Perform(op: Operation) returns (r: Outcome, buf: seq<byte>)
      requires Quiet() && WellFormedOp(op)
      modifies this, dev, dev.buffer
      ensures r.Done? || r == Exit(DeviceFailed)
      ensures r.Done? ==> Drained() && (dev.exit == Stay <==> !Leaves(op))
      ensures old(dev.calls) <= dev.calls
      ensures old(stdout) <= stdout
      ensures Performed(op, dev.faults(old(dev.calls)), r.Done?, old(dev.flash), dev.flash, old(dev.State()),
                        dev.State(), buf, stdout[|old(stdout)|..])
    {
      hide Answers, Sane, Silent, Effect, Succeeds, Accepted, Performed, MessageText, Wire;
      OperationIsSane(op);
      ghost var board, flash, out, fault := dev.State(), dev.flash, stdout, dev.faults(dev.calls);
      ghost var sectors := dev.DiskSectors();
      ghost var reply;
      r, reply := SendCommand(HeaderOf(op), DataOf(op));
      buf := [];
      IsPerformed(op, fault, flash, dev.flash, board, dev.State(), sectors, dev.answered, r.Done?, reply);
      if !r.Done? {
        assert stdout[|out|..] == MessageText(dev.answered) + [];
        return;
      }
      r, buf := TakeResponse(op, reply);
      assert stdout[|out|..] == MessageText(dev.answered) + Printed(op, reply);
    }

    /** What is done with the data of the final response. */
    method TakeResponse(op: Operation, ghost reply: seq<byte>) returns (r: Outcome, buf: seq<byte>)
      requires respSize == |reply| && dev.tx == Payload(reply) && ReplyIs(op, |reply|)
      modifies this`respSize, this`stdout, dev`tx
      ensures r.Done? && respSize == 0 && dev.tx == []
      ensures buf == TakenBack(op, reply) && stdout == old(stdout) + Printed(op, reply)
    {
      r, buf := Done, [];
      match op {
        case Log(_) => PrintResponseData();
        case BoardExit(_) => PrintResponseData();
        case Properties => r, buf := GetResponseData(72);
        case MountStatus => r, buf := GetResponseData(12);
        case ReadSectors(_, _, count) => r, buf := GetResponseData(count * 512);
        case MemRead(_, count) => r, buf := GetResponseData(count);
        case _ =>
      }
    }

    ghost function Now(buf: seq<byte>, printed: seq<byte>): Moment
      reads dev
    {
      Moment(dev.flash, dev.State(), dev.calls, buf, printed)
    }

    /** Any sequence of host commands: each finds the pipe drained, so that neither the "unread
        data" nor the size-mismatch exit is ever taken, and does what it is for. Behind a command
        that makes the device leave its main loop the next transfer fails. `trace` is what was
        there before the first command and after each that was sent. */
    method PerformAll(ops: seq<Operation>) returns (r: Outcome, ghost trace: seq<Moment>)
      requires Quiet() && forall i :: 0 <= i < |ops| ==> WellFormedOp(ops[i])
      modifies this, dev, dev.buffer
      ensures r.Done? || r == Exit(DeviceFailed) || r == Exit(TransferFailed)
      ensures 1 <= |trace| <= |ops| + 1 && trace[0] == old(Now([], []))
      ensures forall i :: 0 <= i < |trace| - 1 ==>
        Follows(ops[i], dev.faults, r != Exit(DeviceFailed) || i < |trace| - 2, trace[i], trace[i + 1])
      ensures forall i :: 0 <= i < |trace| - 2 ==> !Leaves(ops[i])
      ensures r.Done? ==> Drained() && |trace| == |ops| + 1
      ensures r == Exit(DeviceFailed) ==> |trace| > 1
      ensures r == Exit(TransferFailed) ==> 1 < |trace| <= |ops| && Leaves(ops[|trace| - 2])
    {
      hide Performed, WellFormedOp;
      r := Done;
      trace := [Now([], [])];
      for i := 0 to |ops|
        invariant r.Done? && Drained() && (dev.exit != Stay <==> i > 0 && Leaves(ops[i - 1]))
        invariant forall k :: 0 <= k < i - 1 ==> !Leaves(ops[k])
        invariant |trace| == i + 1 && trace[0] == old(Now([], [])) && IsNow(trace[i])
        invariant forall k :: 0 <= k < i ==> Follows(ops[k], dev.faults, true, trace[k], trace[k + 1])
      {
        if dev.exit != Stay {
          return Exit(TransferFailed), trace;
        }
        ghost var out := stdout;
        var buf;
        r, buf := Perform(ops[i]);
        trace := trace + [Now(buf, stdout[|out|..])];
        if !r.Done? {
          return;
        }
      }
    }

    ghost predicate IsNow(m: Moment)
      reads dev
    {
      m.flash == dev.flash && m.board == dev.State() && m.calls == dev.calls
    }

    /** End to end: a file written to a partition of the logical disk and read back from the same
        offset, in any range inside the partition, comes back padded with 0xff to whole sectors, and
        what lies behind it is as before. So is the rest of the flash. If no call of the flash driver
        fails, nothing else does. */
    method WriteThenRead(firstSector: nat, partSize: nat, range: Range, file: seq<byte>)
      returns (r: Outcome, back: seq<byte>)
      requires Quiet() && InArea(dev.flash.disk, firstSector, partSize)
      requires Offset(range) + Count(range, partSize) <= partSize
      requires |dev.flash.disk| < 0x1_0000_0000 * 512
      modifies this, dev, dev.buffer
      ensures r.Done? || r == Exit(DeviceFailed)
      ensures old(dev.Healthy()) ==> r.Done?
      ensures r.Done? ==> |back| == Count(range, partSize) * 512
      ensures r.Done? ==>
        var base := (firstSector + Offset(range)) * 512;
        && base + |back| <= |old(dev.flash).disk|
        && forall i :: 0 <= i < |back| ==> back[i] == FileByte(file, i, old(dev.flash).disk[base + i])
      ensures r.Done? ==> dev.flash == old(dev.flash).(disk := dev.flash.disk)
      ensures r.Done? ==>
        HoldsFile(old(dev.flash).disk, (firstSector + Offset(range)) * 512, (firstSector + partSize) * 512,
                                    file, dev.flash.disk)
    {
      hide HoldsFile, FileByte, Sectors, InArea, Offset, Count;
      back := [];
      var partOffset, count := Offset(range), Count(range, partSize);
      ghost var a := dev.flash.disk;
      SmallSector(firstSector, partSize, partOffset, count, a);
      RangeInSectors(range, partSize);
      r := CmdDiskWrite(FMAREA_LOGDISK, firstSector, partSize, Kilobytes(range), file, CHUNK);
      if !r.Done? {
        return;
      }
      FileKept(a, firstSector + partOffset, count, (firstSector + partSize) * 512, file, dev.flash.disk);
      r, back := CmdDiskRead(FMAREA_LOGDISK, firstSector, partSize, range);
    }

    /** One turn of the writing loop: all of `buf`, or what still fits in `room` sectors. */
    method WriteChunk(area: word, sector: nat, room: nat, buf: seq<byte>, toWr: nat, ghost f0: Flash, ghost base: nat,
        ghost padded: seq<byte>, ghost count: nat)
      returns (r: Outcome, n: nat, cut: bool)
      requires Quiet() && 0 < |buf| == toWr * 512 <= MAX_DATA && sector == base + count
      requires (count + toWr) * 512 <= |padded| && buf == padded[count * 512..(count + toWr) * 512]
      requires Progress(area, f0, base, padded, count)
      requires InArea(Area(f0, area), sector, room) && |Area(f0, area)| < 0x1_0000_0000 * 512
      modifies this, dev, dev.buffer
      ensures r.Done? || r == Exit(DeviceFailed)
      ensures old(dev.calls) <= dev.calls && (old(dev.Healthy()) ==> r.Done? && dev.Healthy())
      ensures cut == (toWr > room) && n == if cut then room else toWr
      ensures r.Done? ==> Quiet() && Progress(area, f0, base, padded, count + n)
    {
      hide Stored, Patch;
      cut := toWr > room;
      n := if cut then room else toWr;
      var piece := buf[..n * 512];
      ghost var done := count * 512;
      assert piece == padded[done..done + |piece|];
      StoredSize(Area(f0, area), base, padded[..done], Area(dev.flash, area));
      StoredMore(Area(f0, area), base, padded, done, piece, Area(dev.flash, area));
      r := Done;
      if n > 0 {
        r := WriteDisk(area, sector, n, piece);
      }
    }
  }

  /** What cmd_diskread is asked for: all of a partition, or a number of kilobytes from an offset
      in kilobytes on. */
  datatype Range = Whole | Part(offset: nat, count: nat)

  /** Kilobytes in sectors, as `<< 1` on 64 bits. */
  function Doubled(kilobytes: nat): (n: nat)
    ensures n < 0x1_0000_0000_0000_0000
  {
    2 * kilobytes % 0x1_0000_0000_0000_0000
  }

  function Kilobytes(range: Range): nat {
    if range.Whole? then 0 else range.offset
  }

  function Offset(range: Range): (n: nat)
    ensures n < 0x1_0000_0000_0000_0000 && n == 2 * Kilobytes(range) % 0x1_0000_0000_0000_0000
  {
    if range.Whole? then 0 else Doubled(range.offset)
  }

  function Count(range: Range, partSize: nat): (n: nat)
    ensures partSize < 0x1_0000_0000_0000_0000 ==> n < 0x1_0000_0000_0000_0000
  {
    if range.Whole? then partSize else Doubled(range.count)
  }

  lemma RangeInSectors(range: Range, partSize: nat)
    ensures Offset(range) == if range.Whole? then 0 else 2 * range.offset % 0x1_0000_0000_0000_0000
    ensures Count(range, partSize) == if range.Whole? then partSize else 2 * range.count % 0x1_0000_0000_0000_0000
  {
  }

  /** Byte `i` behind the start of a file that is stored in whole sectors, where `was` was before. */
  function FileByte(file: seq<byte>, i: nat, was: byte): byte {
    if i < |file| then file[i] else if i < (|file| + 511) / 512 * 512 then 0xff else was
  }

  /** `after` is `before` with `file` stored between the bytes `base` and `end`. */
  ghost predicate HoldsFile(before: seq<byte>, base: nat, end: nat, file: seq<byte>, after: seq<byte>) {
    && |after| == |before|
    && forall j :: 0 <= j < |after| ==>
         after[j] == if base <= j < end then FileByte(file, j - base, before[j]) else before[j]
  }

  lemma StretchHoldsFile(a: seq<byte>, first: nat, room: nat, file: seq<byte>, b: seq<byte>)
    requires Stored(a, first, Cut(Padded(file), room * 512), b)
    ensures HoldsFile(a, first * 512, (first + room) * 512, file, b)
  {
    var data := Cut(Padded(file), room * 512);
    assert |Padded(file)| == (|file| + 511) / 512 * 512;
    forall j | 0 <= j < |b|
      ensures b[j] == if first * 512 <= j < (first + room) * 512 then FileByte(file, j - first * 512, a[j]) else a[j]
    {
      if first * 512 <= j < first * 512 + |data| { assert b[j] == data[j - first * 512]; }
    }
  }

  /** What a read finds of the file. */
  lemma FileKept(a: seq<byte>, first: nat, count: nat, end: nat, file: seq<byte>, b: seq<byte>)
    requires HoldsFile(a, first * 512, end, file, b) && InArea(a, first, count) && (first + count) * 512 <= end
    ensures |b| == |a| && InArea(b, first, count)
    ensures forall i :: 0 <= i < count * 512 ==>
      Sectors(b, first, count)[i] == FileByte(file, i, a[first * 512 + i])
  {
    hide FileByte;
    forall i | 0 <= i < count * 512
      ensures Sectors(b, first, count)[i] == FileByte(file, i, a[first * 512 + i])
    {
      assert Sectors(b, first, count)[i] == b[first * 512 + i];
    }
  }

  lemma SmallSector(firstSector: nat, partSize: nat, partOffset: nat, count: nat, disk: seq<byte>)
    requires InArea(disk, firstSector, partSize) && partOffset + count <= partSize && |disk| < 0x1_0000_0000 * 512
    ensures (firstSector + partOffset) % 0x1_0000_0000_0000_0000 % 0x1_0000_0000 == firstSector + partOffset
    ensures firstSector < 0x1_0000_0000 && partSize < 0x1_0000_0000
    ensures ReadAccepted(partSize, partOffset, count) && InArea(disk, firstSector + partOffset, count)
  {
  }

  // ----- the whole protocol

  /** The host commands, by what they send. */
  datatype Operation =
    | Ping | SleepTest(delay: word) | Log(clear: bool) | Properties | MountStatus
    | ReadSectors(area: word, first: nat, count: nat) | WriteSectors(area: word, first: nat, data: seq<byte>)
    | MemRead(address: word, count: nat) | MemWrite(address: word, data: seq<byte>)
    | MemExec(address: word) | MemJump(address: word) | MountDisk(firstSector: word, sectorCount: word, readWrite: bool)
    | BoardExit(mode: word)

  /** Commands behind which the device leaves its main loop. */
  predicate Leaves(op: Operation) {
    op.BoardExit? || op.MemJump?
  }

  /** What the host program itself makes sure of: its buffer sizes and its exit modes. */
  predicate WellFormedOp(op: Operation) {
    match op
    case ReadSectors(_, first, count) => first < 0x1_0000_0000_0000_0000 && count * 512 <= CHUNK
    case WriteSectors(_, first, data) => first < 0x1_0000_0000_0000_0000 && |data| % 512 == 0 && |data| <= MAX_DATA
    case MemRead(_, count) => count <= 0x4_0000
    case MemWrite(_, data) => |data| <= 0x4_0000
    case BoardExit(mode) => mode == BE_GO_FEL || mode == BE_BOARD_RESET
    case _ => true
  }

  function HeaderOf(op: Operation): Header {
    match op
    case Ping => Header(BCMD_PING, 0, 0, 0, 0)
    case SleepTest(delay) => Header(BCMD_SLEEPTEST, delay, 0, 0, 0)
    case Log(clear) => Header(BCMD_GETLOG, if clear then 1 else 0, 0, 0, 0)
    case Properties => Header(BCMD_FLASHMEM_PARAMS, 0, 0, 0, 0)
    case MountStatus => Header(BCMD_GETMOUNT_STATUS, 0, 0, 0, 0)
    case ReadSectors(area, first, count) => Header(BCMD_DISKREAD, area, first, count, 0)
    case WriteSectors(area, first, data) => Header(BCMD_DISKWRITE, area, first, |data| / 512, |data|)
    case MemRead(address, count) => Header(BCMD_MEMREAD, 0, address, count, 0)
    case MemWrite(address, data) => Header(BCMD_MEMWRITE, 0, address, 0, |data|)
    case MemExec(address) => Header(BCMD_MEMEXEC, 0, address, 0, 0)
    case MemJump(address) => Header(BCMD_MEMJUMPTO, 0, address, 0, 0)
    case MountDisk(first, count, readWrite) => Header(BCMD_MOUNT, if readWrite then 1 else 0, first, count, 0)
    case BoardExit(mode) => Header(BCMD_BOARD_EXIT, mode, 0, 0, 0)
  }

  function DataOf(op: Operation): seq<byte> {
    match op
    case WriteSectors(_, _, data) => data
    case MemWrite(_, data) => data
    case _ => []
  }

  /** What command `op` has done to the flash and the rest of the board, what it has brought back
      and what it has printed. Only disk commands and mounts can fail. */
  ghost predicate Performed(op: Operation, fault: bool, done: bool, before: Flash, after: Flash, b: Board, a: Board,
                            buf: seq<byte>, printed: seq<byte>) {
    && (!op.ReadSectors? && !op.WriteSectors? && !op.MountDisk? ==> done)
    && (!op.WriteSectors? ==> after == before)
    && (!op.MemWrite? ==> a.memory == b.memory)
    && (!op.MountDisk? ==> a.mounted == b.mounted)
    && (!op.Log? ==> b.log <= a.log)
    && (!op.Log? && !op.BoardExit? && !op.MemExec? ==> printed == [])
    && match op
       case ReadSectors(area, first, count) =>
         var d, at, n := Area(before, area), first % 0x1_0000_0000 * 512, count * 512;
         && (done <==> !fault && at + n <= |d|)
         && (done ==> buf == d[at..at + n])
       case WriteSectors(area, first, data) =>
         var d, at := Area(before, area), first % 0x1_0000_0000 * 512;
         && (done <==> !fault && at + |data| <= |d|)
         && after == if done then WithArea(before, area, d[..at] + data + d[at + |data|..]) else before
       case MountDisk(first, count, readWrite) =>
         && (done <==> b.mounted.NotMounted? && BulkOnlyDevice.MountFits(|before.disk| / 512, first, count))
         && a.mounted == if done then Mounted(first, count, readWrite) else b.mounted
       case MountStatus =>
         buf == (match b.mounted
                 case NotMounted => Le(0) + Le(0) + Le(0)
                 case Mounted(first, count, readWrite) => Le(if readWrite then 2 else 1) + Le(first) + Le(count))
       case Properties => buf == b.properties
       case MemRead(address, count) =>
         |buf| == count && forall i :: 0 <= i < count ==> buf[i] == b.memory((address + i) % 0x1_0000_0000)
       case MemWrite(address, data) =>
         forall x: nat :: a.memory(x) == if address <= x < address + |data| then data[x - address] else b.memory(x)
       case Log(clear) => b.log <= printed && a.log == if clear then [] else printed
       case BoardExit(mode) => a.exit == (if mode == 1 then Fel else Reset) && printed == ExitText(mode)
       case MemJump(address) => a.exit == Jump(address)
       case MemExec(_) => printed == Flatten(b.codeMessages)
       case _ => true
  }

  /** Flash and board at some time, how often the flash driver had been called, and what the last
      command brought back and printed. */
  datatype Moment = Moment(flash: Flash, board: Board, calls: nat, buf: seq<byte>, printed: seq<byte>)

  ghost predicate Follows(op: Operation, faults: nat -> bool, done: bool, before: Moment, after: Moment) {
    && before.calls <= after.calls
    && Performed(op, faults(before.calls), done, before.flash, after.flash, before.board, after.board, after.buf,
                 after.printed)
  }

  /** What the host prints of the final response, */
  function Printed(op: Operation, reply: seq<byte>): seq<byte> {
    if op.Log? || op.BoardExit? then reply else []
  }

  /** ... and what it takes of it. */
  function TakenBack(op: Operation, reply: seq<byte>): seq<byte> {
    if op.ReadSectors? || op.MemRead? || op.Properties? || op.MountStatus? then reply else []
  }

  /** `op` went out as a header and data, and came back as responses `rs`, the last one with `reply`. */
  ghost predicate Responded(op: Operation, fault: bool, before: Flash, after: Flash, b: Board, a: Board, sectors: nat,
                            rs: seq<Response>, done: bool, reply: seq<byte>) {
    && WellFormedOp(op) && Effect(HeaderOf(op), DataOf(op), b, a, sectors, rs) && sectors == |before.disk| / 512
    && rs != [] && rs[|rs| - 1] == Response(if done then BRST_OK else BRST_FAIL, reply)
    && (!op.MountDisk? ==> (done <==> Accepted(HeaderOf(op), |DataOf(op)|, fault, before)))
    && if done then Succeeds(HeaderOf(op), DataOf(op), before, after, reply) else after == before && reply == []
  }

  lemma IsPerformed(op: Operation, fault: bool, before: Flash, after: Flash, b: Board, a: Board, sectors: nat,
      rs: seq<Response>, done: bool, reply: seq<byte>)
    requires Responded(op, fault, before, after, b, a, sectors, rs, done, reply)
    ensures Performed(op, fault, done, before, after, b, a, TakenBack(op, reply), MessageText(rs) + Printed(op, reply))
    ensures done ==> ReplyIs(op, |reply|)
  {
    hide Effect, Succeeds, Accepted, Performed;
    if op.ReadSectors? {
      ReadPerformed(op, fault, before, after, b, a, sectors, rs, done, reply);
    } else if op.WriteSectors? {
      WritePerformed(op, fault, before, after, b, a, sectors, rs, done, reply);
    } else if op.MemWrite? {
      MemWritePerformed(op, fault, before, after, b, a, sectors, rs, done, reply);
    } else if op.MemRead? {
      MemReadPerformed(op, fault, before, after, b, a, sectors, rs, done, reply);
    } else if op.Log? {
      LogPerformed(op, fault, before, after, b, a, sectors, rs, done, reply);
    } else if op.BoardExit? || op.MemJump? {
      LeavingPerformed(op, fault, before, after, b, a, sectors, rs, done, reply);
    } else if op.MountDisk? || op.MountStatus? {
      MountPerformed(op, fault, before, after, b, a, sectors, rs, done, reply);
    } else {
      RestPerformed(op, fault, before, after, b, a, sectors, rs, done, reply);
    }
    if done { ReplyFits(op, before, after, reply); }
  }

  /** The size of the final response, by the kind of command. */
  predicate ReplyIs(op: Operation, n: nat) {
    match op
    case ReadSectors(_, _, count) => n == count * 512
    case MemRead(_, count) => n == count
    case Properties => n == 72
    case MountStatus => n == 12
    case Log(_) => true
    case BoardExit(_) => true
    case _ => n == 0
  }

  lemma ReplyFits(op: Operation, before: Flash, after: Flash, reply: seq<byte>)
    requires WellFormedOp(op) && Succeeds(HeaderOf(op), DataOf(op), before, after, reply)
    ensures ReplyIs(op, |reply|)
  {
    hide Area, WithArea, Patch, Sectors, InArea;
  }

  lemma ReadPerformed(op: Operation, fault: bool, before: Flash, after: Flash, b: Board, a: Board, sectors: nat,
      rs: seq<Response>, done: bool, reply: seq<byte>)
    requires op.ReadSectors?
    requires Responded(op, fault, before, after, b, a, sectors, rs, done, reply)
    ensures Performed(op, fault, done, before, after, b, a, TakenBack(op, reply), MessageText(rs) + Printed(op, reply))
  {
    hide Area, WithArea, Patch, BootDiskDevice.MountStatus, Le, ExitText, MountSucceeds, Messages, MemoryBytes,
         MessageText;
    OneResponse(rs);
  }

  lemma WritePerformed(op: Operation, fault: bool, before: Flash, after: Flash, b: Board, a: Board, sectors: nat,
      rs: seq<Response>, done: bool, reply: seq<byte>)
    requires op.WriteSectors?
    requires Responded(op, fault, before, after, b, a, sectors, rs, done, reply)
    ensures Performed(op, fault, done, before, after, b, a, TakenBack(op, reply), MessageText(rs) + Printed(op, reply))
  {
    hide Area, WithArea, BootDiskDevice.MountStatus, Le, ExitText, MountSucceeds, Messages, MemoryBytes, MessageText;
    OneResponse(rs);
    assert |op.data| / 512 * 512 == |op.data| && op.data[..|op.data|] == op.data;
  }

  /** Other commands than the two for the disk leave the flash alone, and succeed. */
  lemma FlashKept(op: Operation, fault: bool, before: Flash, after: Flash, done: bool, reply: seq<byte>)
    requires WellFormedOp(op) && !op.ReadSectors? && !op.WriteSectors?
    requires !op.MountDisk? ==> (done <==> Accepted(HeaderOf(op), |DataOf(op)|, fault, before))
    requires if done then Succeeds(HeaderOf(op), DataOf(op), before, after, reply) else after == before && reply == []
    ensures after == before && (!op.MountDisk? ==> done)
    ensures done && (op.MemRead? || op.MountStatus? || op.Properties?) ==> ReplyIs(op, |reply|)
  {
    hide Area, WithArea, Patch, Sectors, InArea;
  }

  lemma OneResponse(rs: seq<Response>)
    requires |rs| == 1
    ensures rs == [rs[0]] && MessageText(rs) == []
  {
  }

  lemma MemReadPerformed(op: Operation, fault: bool, before: Flash, after: Flash, b: Board, a: Board, sectors: nat,
      rs: seq<Response>, done: bool, reply: seq<byte>)
    requires op.MemRead?
    requires Responded(op, fault, before, after, b, a, sectors, rs, done, reply)
    ensures Performed(op, fault, done, before, after, b, a, TakenBack(op, reply), MessageText(rs) + Printed(op, reply))
  {
    hide Succeeds, Accepted, Area, WithArea, Patch, Sectors, InArea, BootDiskDevice.MountStatus, Le, ExitText,
         MountSucceeds, Messages, MemoryBytes, MessageText;
    FlashKept(op, fault, before, after, done, reply);
    assert rs == [rs[0]] && MessageText(rs) == [] by { OneResponse(rs); }
    assert reply == MemoryBytes(b.memory, op.address, op.count);
  }

  lemma MemWritePerformed(op: Operation, fault: bool, before: Flash, after: Flash, b: Board, a: Board, sectors: nat,
      rs: seq<Response>, done: bool, reply: seq<byte>)
    requires op.MemWrite?
    requires Responded(op, fault, before, after, b, a, sectors, rs, done, reply)
    ensures Performed(op, fault, done, before, after, b, a, TakenBack(op, reply), MessageText(rs) + Printed(op, reply))
  {
    hide Succeeds, Accepted, Area, WithArea, Patch, Sectors, InArea, BootDiskDevice.MountStatus, Le, ExitText,
         MountSucceeds, Messages, MemoryBytes, MessageText;
    FlashKept(op, fault, before, after, done, reply);
    assert MessageText(rs) == [] by { OneResponse(rs); }
    assert Low32(op.address) == op.address;
  }

  lemma LogPerformed(op: Operation, fault: bool, before: Flash, after: Flash, b: Board, a: Board, sectors: nat,
      rs: seq<Response>, done: bool, reply: seq<byte>)
    requires op.Log?
    requires Responded(op, fault, before, after, b, a, sectors, rs, done, reply)
    ensures Performed(op, fault, done, before, after, b, a, TakenBack(op, reply), MessageText(rs) + Printed(op, reply))
  {
    hide Succeeds, Accepted, Area, WithArea, Patch, Sectors, InArea, BootDiskDevice.MountStatus, Le, ExitText,
         MountSucceeds, Messages, MemoryBytes, MessageText;
    FlashKept(op, fault, before, after, done, reply);
    OneResponse(rs);
  }

  lemma LeavingPerformed(op: Operation, fault: bool, before: Flash, after: Flash, b: Board, a: Board, sectors: nat,
      rs: seq<Response>, done: bool, reply: seq<byte>)
    requires op.BoardExit? || op.MemJump?
    requires Responded(op, fault, before, after, b, a, sectors, rs, done, reply)
    ensures Performed(op, fault, done, before, after, b, a, TakenBack(op, reply), MessageText(rs) + Printed(op, reply))
  {
    hide Succeeds, Accepted, Area, WithArea, Patch, Sectors, InArea, BootDiskDevice.MountStatus, Le, ExitText,
         MountSucceeds, Messages, MemoryBytes, MessageText;
    FlashKept(op, fault, before, after, done, reply);
    OneResponse(rs);
  }

  lemma MountPerformed(op: Operation, fault: bool, before: Flash, after: Flash, b: Board, a: Board, sectors: nat,
      rs: seq<Response>, done: bool, reply: seq<byte>)
    requires op.MountDisk? || op.MountStatus?
    requires Responded(op, fault, before, after, b, a, sectors, rs, done, reply)
    ensures Performed(op, fault, done, before, after, b, a, TakenBack(op, reply), MessageText(rs) + Printed(op, reply))
  {
    hide Succeeds, Accepted, Area, WithArea, Patch, Sectors, InArea, BootDiskDevice.MountStatus, Le, ExitText,
         MemoryBytes, Messages,
         BulkOnlyDevice.MountFits, MessageText;
    FlashKept(op, fault, before, after, done, reply);
    OneResponse(rs);
    MountStatusLaidOut(b.mounted);
  }

  lemma RestPerformed(op: Operation, fault: bool, before: Flash, after: Flash, b: Board, a: Board, sectors: nat,
      rs: seq<Response>, done: bool, reply: seq<byte>)
    requires op.Ping? || op.SleepTest? || op.Properties? || op.MemExec?
    requires Responded(op, fault, before, after, b, a, sectors, rs, done, reply)
    ensures Performed(op, fault, done, before, after, b, a, TakenBack(op, reply), MessageText(rs) + Printed(op, reply))
  {
    hide Succeeds, Accepted, Area, WithArea, Patch, Sectors, InArea, BootDiskDevice.MountStatus, Le, ExitText,
         MemoryBytes, MountSucceeds;
    FlashKept(op, fault, before, after, done, reply);
    MessagesText(b.codeMessages, Response(BRST_OK, []));
  }

  lemma {:induction false} MessagesText(texts: seq<seq<byte>>, last: Response)
    ensures MessageText(Messages(texts) + [last]) == Flatten(texts)
  {
    if texts != [] {
      assert (Messages(texts) + [last])[1..] == Messages(texts[1..]) + [last];
      MessagesText(texts[1..], last);
    }
  }

  lemma OperationIsSane(op: Operation)
    requires WellFormedOp(op)
    ensures Sane(HeaderOf(op)) && |DataOf(op)| == HeaderOf(op).datasize && !Silent(HeaderOf(op))
    ensures MayLeave(HeaderOf(op).cmd) <==> Leaves(op)
  {
    FieldWidths();
  }

  /** Accepted by the check on offset plus count, a read stays inside the partition exactly when
      that sum does not wrap. */
  lemma ReadStaysInPartition(firstSector: nat, partSize: nat, partOffset: nat, count: nat)
    requires firstSector + partSize < 0x1_0000_0000_0000_0000
    requires partOffset < 0x1_0000_0000_0000_0000 && count < 0x1_0000_0000_0000_0000
    requires ReadAccepted(partSize, partOffset, count)
    ensures var first := (firstSector + partOffset) % 0x1_0000_0000_0000_0000;
            firstSector <= first && first + count <= firstSector + partSize
            <==> partOffset + count < 0x1_0000_0000_0000_0000
  {
  }

  /** A read that is accepted and leaves the partition: offset and count, both even, wrap. */
  lemma WrappingReadAccepted()
    ensures var range := Part(250, 0x7FFF_FFFF_FFFF_FF80);
            ReadAccepted(1000, Offset(range), Count(range, 1000)) && Offset(range) + Count(range, 1000) > 1000
  {
  }

  lemma InAreaRest(a: seq<byte>, first: nat, count: nat, skip: nat)
    requires InArea(a, first, count) && skip <= count
    ensures InArea(a, first + skip, count - skip)
  {
  }

  lemma CutReached(s: seq<byte>, done: nat, most: nat)
    requires done <= |s| && done <= most && (done == |s| || done == most)
    ensures s[..done] == Cut(s, most)
  {
  }

  lemma NothingStored(a: seq<byte>, first: nat, data: seq<byte>)
    requires first * 512 <= |a|
    ensures Stored(a, first, data[..0], a)
  {
    assert Patch(a, first * 512, []) == a[..first * 512] + a[first * 512..];
  }

  lemma StoredSize(a: seq<byte>, first: nat, data: seq<byte>, b: seq<byte>)
    requires Stored(a, first, data, b)
    ensures |b| == |a| && first * 512 + |data| <= |a|
  {
  }

  /** A file padded with 0xff to a whole number of sectors. */
  function Padded(file: seq<byte>): (s: seq<byte>)
    ensures |s| % 512 == 0 && |file| <= |s| < |file| + 512 && s[..|file|] == file
  {
    if |file| % 512 == 0 then file else file + Fill(512 - |file| % 512)
  }

  function Cut(s: seq<byte>, n: nat): seq<byte> {
    if |s| <= n then s else s[..n]
  }

  /** `after` is `before` with `data` stored from sector `first` on. */
  predicate Stored(before: seq<byte>, first: nat, data: seq<byte>, after: seq<byte>) {
    first * 512 + |data| <= |before| && after == Patch(before, first * 512, data)
  }

  /** Storing the next piece of `padded` behind the first `done` bytes. */
  lemma StoredMore(a: seq<byte>, first: nat, padded: seq<byte>, done: nat, piece: seq<byte>, b: seq<byte>)
    requires done + |piece| <= |padded| && piece == padded[done..done + |piece|]
    requires Stored(a, first, padded[..done], b) && first * 512 + done + |piece| <= |a|
    ensures Stored(a, first, padded[..done + |piece|], Patch(b, first * 512 + done, piece))
  {
    assert padded[..done + |piece|] == padded[..done] + piece;
    PatchTwice(a, first * 512, padded[..done], piece);
  }

  lemma PatchTwice(a: seq<byte>, at: nat, x: seq<byte>, y: seq<byte>)
    requires at + |x| + |y| <= |a|
    ensures Patch(Patch(a, at, x), at + |x|, y) == Patch(a, at, x + y)
  {
  }

  /** What read() and the padding deliver is the next piece of the padded file. */
  lemma PaddedChunk(file: seq<byte>, pos: nat, rd: nat, buf: seq<byte>)
    requires pos % 512 == 0 && pos + rd <= |file| && 0 < rd && (rd % 512 == 0 || pos + rd == |file|)
    requires buf == if rd % 512 == 0 then file[pos..pos + rd] else file[pos..pos + rd] + Fill(512 - rd % 512)
    ensures |buf| % 512 == 0 && |buf| >= rd && pos + |buf| <= |Padded(file)|
    ensures buf == Padded(file)[pos..pos + |buf|]
    ensures if pos + rd == |file| then pos + |buf| == |Padded(file)| else |buf| == rd
  {
    if pos + rd == |file| {
      assert rd % 512 == |file| % 512;
    }
  }

  /** The first `done` sectors of a read from 64-bit sector number `start`. */
  predicate ReadSoFar(a: seq<byte>, start: nat, done: nat, file: seq<byte>, sector: nat) {
    && sector == start + done < 0x1_0000_0000_0000_0000
    && (done == 0 ==> file == [])
    && (done > 0 ==> InArea(a, start % 0x1_0000_0000, done) && file == Sectors(a, start % 0x1_0000_0000, done))
  }

  lemma ReadStep(a: seq<byte>, start: nat, done: nat, file: seq<byte>, sector: nat, n: nat, buf: seq<byte>)
    requires ReadSoFar(a, start, done, file, sector) && |a| < 0x1_0000_0000 * 512 && n > 0
    requires InArea(a, sector % 0x1_0000_0000, n) && buf == Sectors(a, sector % 0x1_0000_0000, n)
    ensures ReadSoFar(a, start, done + n, file + buf, (sector + n) % 0x1_0000_0000_0000_0000)
  {
    var low := start % 0x1_0000_0000;
    LowSum(start, done);
    LowSum(start, done + n);
    assert file + buf == a[low * 512..(low + done + n) * 512];
  }

  /** The pieces of a range in the area are. */
  lemma PieceInArea(a: seq<byte>, start: nat, count: nat, done: nat, n: nat)
    requires start < 0x1_0000_0000_0000_0000 && |a| < 0x1_0000_0000 * 512 && done + n <= count
    ensures InArea(a, start % 0x1_0000_0000, count) ==> InArea(a, (start + done) % 0x1_0000_0000, n)
  {
    if InArea(a, start % 0x1_0000_0000, count) { LowSum(start, done); }
  }

  /** A sum whose low words do not carry. */
  lemma LowSum(start: nat, k: nat)
    requires start < 0x1_0000_0000_0000_0000 && start % 0x1_0000_0000 + k < 0x1_0000_0000
    ensures (start + k) % 0x1_0000_0000 == start % 0x1_0000_0000 + k && start + k < 0x1_0000_0000_0000_0000
  {
  }

  predicate ReadAccepted(partSize: nat, partOffset: nat, count: nat) {
    (partOffset + count) % 0x1_0000_0000_0000_0000 <= partSize
  }
}
