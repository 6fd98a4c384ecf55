/**
 The bulk endpoints of `boot-axf/usb_device.c`: the transmit and receive machines, which share
 one cursor, and the mass-storage machine on top of them. Status bits, driver results and FIFO
 contents are the hardware's: two arbitrary streams.
 */
module UsbEndpoint {
  import opened BinaryArithmetic
  import opened CommandWrapper
  import opened LittleEndian
  import opened Options
  import opened Sequences
  import opened UsbCommands
  import opened UsbExchange

  const RX_LIMIT: nat := 4096

  /** What drives the machine: bus resets, receive interrupts, and the main loop. */
  datatype Event = Reset | RxInterrupts(count: nat) | Poll

  class UsbDevice {
    const maxTx: nat                  // packet sizes of the two endpoints
    const maxRx: nat
    const bits: nat -> bool           // the answers to all questions after a status bit or a driver result
    const fifo: nat -> byte           // the bytes that the receive FIFO delivers
    const parts: Partitions           // svc_partfirstsect
    const counts: Partitions          // svc_partsectcount
    const behind: nat -> byte         // the memory behind the data buffer
    var disk: seq<byte>
    var asked: nat                    // answers used so far
    var bytesRead: nat                // bytes taken from the receive FIFO so far
    var processedData: array<byte>    // the shared cursor: a buffer, an offset into it,
    var offset: nat
    var unprocessedSize: nat          // and the bytes to do and done
    var processedSize: nat
    var txState: nat                  // eptx_xfer_state
    var rxState: nat                  // eprx_xfer_state
    var notReady: nat                 // L4280A3F4, consecutive reads without RxPktRdy
    ghost var pushed: seq<seq<byte>>  // packets given to the transmit FIFO
    ghost var before: seq<seq<byte>>  // ... before the current transfer
    ghost var taken: seq<byte>        // bytes of the current transfer taken from the receive FIFO

    // the mass-storage machine
    var rxInterrupts: nat
    var transferState: int            // 0, 1: command; 2: data from host; 3: data to host; 4: status
    var writeData: array<byte>        // what is being sent or received
    var size: nat                     // uparam848
    var sizeDone: nat                 // uparam852
    const readBuf: array<byte>        // command and status wrappers share it
    const dataBuf: array<byte>        // uparam856
    const inquiryData: array<byte>
    const modeData: array<byte>
    const senseData: array<byte>
    ghost var started: seq<seq<byte>> // the contents of all transfers to the host so far
    ghost var past: seq<Exchange>     // the commands before the current one
    ghost var current: Option<Exchange>
    ghost var origin: seq<byte>       // the disk before the first of them

    constructor (maxTx: nat, maxRx: nat, bits: nat -> bool, fifo: nat -> byte, parts: Partitions, counts: Partitions,
                 behind: nat -> byte, disk: seq<byte>, readBuf: array<byte>, dataBuf: array<byte>,
                 inquiryData: array<byte>, modeData: array<byte>, senseData: array<byte>)
      requires 0 < maxTx && CBW_SIZE < maxRx && readBuf.Length == 256 && dataBuf.Length == 0x100_0000
      requires inquiryData.Length == 36 && modeData.Length == 4 && senseData.Length == 18
      requires readBuf !in {dataBuf, inquiryData, modeData, senseData} && dataBuf !in {inquiryData, modeData, senseData}
      ensures Valid() && Orderly() && this.maxTx == maxTx
      ensures this.maxRx == maxRx && this.bits == bits && this.fifo == fifo
      ensures this.parts == parts && this.counts == counts && this.behind == behind
      ensures started == [] && pushed == [] && Exchanges() == [] && transferState == 0 && this.disk == disk
    {
      this.maxTx, this.maxRx, this.readBuf, this.dataBuf := maxTx, maxRx, readBuf, dataBuf;
      this.inquiryData, this.modeData, this.senseData := inquiryData, modeData, senseData;
      this.bits, this.fifo, asked, bytesRead := bits, fifo, 0, 0;
      this.parts, this.counts, this.behind, this.disk, origin := parts, counts, behind, disk, disk;
      processedData, offset, unprocessedSize, processedSize := readBuf, 0, 0, 0;
      txState, rxState, notReady := 0, 0, 0;
      pushed, before, taken, started, past, current := [], [], [], [], [], None;
      rxInterrupts, transferState, writeData, size, sizeDone := 0, 0, readBuf, 0, 0;
    }

    /** A status bit, or the result of a disk driver. */
    method StatusBit() returns (b: bool)
      modifies this`asked
      ensures b == bits(old(asked)) && asked == old(asked) + 1
    {
      b := bits(asked);
      asked := asked + 1;
    }

    // ----- transmitting

    /** A transfer of `data` is under way: what is pushed and what is left make up its packets. */
    ghost predicate Sending(data: array<byte>, n: nat)
      requires maxTx > 0
      reads this`processedData, this`offset, this`unprocessedSize, this`processedSize, this`txState, this`pushed,
            this`before, data
    {
      && n <= data.Length
      && (txState == 1 || txState == 2)
      && (txState == 1 ==>
            && processedData == data && offset == processedSize
            && processedSize + unprocessedSize == n
            && pushed + Split(data[processedSize..n], maxTx) == before + Packets(data[..n], maxTx))
      && (txState == 2 ==> pushed == before + Packets(data[..n], maxTx))
    }

    /** The last packet has been pushed and the hardware says that it is out. */
    predicate SendEnds()
      reads this`txState, this`asked
    {
      txState == 2 && !bits(asked)
    }

    /** Packets are left, or have just run out, and the hardware is not busy. */
    predicate FreeToSend()
      reads this`txState, this`asked
    {
      txState == 1 && !bits(asked) && !bits(asked + 1)
    }

    /** usb_transfer: one step of sending the first `n` bytes of `data`; 1 once all is sent. */
    method UsbTransfer(data: array<byte>, n: nat) returns (res: nat)
      requires maxTx > 0 && n <= data.Length && (txState == 0 || Sending(data, n))
      modifies this`processedData, this`offset, this`unprocessedSize, this`processedSize, this`txState, this`pushed,
               this`before,
               this`asked
      ensures before == if old(txState) == 0 then old(pushed) else old(before)
      ensures res == if old(SendEnds()) then 1 else 0
      ensures res == 0 ==> txState != 0 && Sending(data, n)
      ensures res == 1 ==> txState == 0 && pushed == before + Packets(data[..n], maxTx)
      ensures old(pushed) <= pushed && old(asked) <= asked
      ensures old(txState) == 0 ==> if n >= maxTx then txState == 1 && unprocessedSize == n - maxTx else txState == 2
      ensures old(FreeToSend()) ==>
        if old(unprocessedSize) > 0 then txState == 1 && unprocessedSize < old(unprocessedSize) else txState == 2
    {
      res := 0;
      if txState == 0 {
        before := pushed;
        StartTransfer(data, n);
      } else if txState == 1 {
        var busy := StatusBit();
        if !busy {
          ContinueTransfer(data, n);
        }
      } else {
        var busy := StatusBit();
        if !busy {
          txState := 0;
          res := 1;
        }
      }
    }

    /** The first call of a transfer. */
    method StartTransfer(data: array<byte>, n: nat)
      requires maxTx > 0 && n <= data.Length && before == pushed
      modifies this`processedData, this`offset, this`unprocessedSize, this`processedSize, this`txState, this`pushed
      ensures Sending(data, n) && old(pushed) <= pushed
      ensures if n >= maxTx then txState == 1 && unprocessedSize == n - maxTx else txState == 2
    {
      processedData, offset := data, 0;
      unprocessedSize := n;
      processedSize := 0;
      if n >= maxTx {
        pushed := pushed + [data[..maxTx]];
        assert data[..n][..maxTx] == data[..maxTx] && data[..n][maxTx..] == data[maxTx..n];
        unprocessedSize := unprocessedSize - maxTx;
        processedSize := processedSize + maxTx;
        offset := offset + maxTx;
        txState := 1;
      } else {
        pushed := pushed + [data[..n]];
        txState := 2;
        unprocessedSize := 0;
        processedSize := n;
      }
    }

    /** A call while packets are left, the last one having gone out. */
    method ContinueTransfer(data: array<byte>, n: nat)
      requires maxTx > 0 && txState == 1 && Sending(data, n)
      modifies this`offset, this`unprocessedSize, this`processedSize, this`txState, this`pushed, this`asked
      ensures Sending(data, n) && old(pushed) <= pushed && old(asked) <= asked
      ensures !bits(old(asked)) ==>
        if old(unprocessedSize) > 0 then txState == 1 && unprocessedSize < old(unprocessedSize) else txState == 2
    {
      hide Split, Packets;
      if unprocessedSize != 0 {
        var count := if unprocessedSize < maxTx then unprocessedSize else maxTx;
        ghost var rest := data[processedSize..n];
        NextPacket(pushed, rest, maxTx, count);
        assert rest[..count] == data[offset..offset + count] && rest[count..] == data[processedSize + count..n];
        pushed := pushed + [data[offset..offset + count]];
        unprocessedSize := unprocessedSize - count;
        processedSize := processedSize + count;
        offset := offset + count;
        txState := 1;
      } else {
        var fifoNotEmpty := StatusBit();
        if !fifoNotEmpty {
          NothingLeft(pushed, data[processedSize..n], maxTx);
          txState := 2;
        }
      }
    }

    /** However the status bits fall, calls repeated until one returns 1 push exactly the packets
        of the data. `patience` bounds the number of calls; if the endpoint is never busy, one for
        each byte and two more are enough. */
    method TransferAll(data: array<byte>, n: nat, patience: nat) returns (finished: bool)
      requires maxTx > 0 && n <= data.Length && txState == 0
      modifies this
      ensures finished ==> txState == 0 && pushed == old(pushed) + Packets(data[..n], maxTx)
      ensures !finished ==> (txState == 0 && pushed == old(pushed)) || (Sending(data, n) && before == old(pushed))
      ensures patience >= n + 2 && (forall k :: k >= old(asked) ==> !bits(k)) ==> finished
    {
      finished := false;
      ghost var idle := forall k :: k >= asked ==> !bits(k);
      for i := 0 to patience
        invariant (txState == 0 && pushed == old(pushed)) || (Sending(data, n) && before == old(pushed))
        invariant old(asked) <= asked && (txState == 0 ==> i == 0)
        invariant idle && txState == 1 ==> i + unprocessedSize <= n
        invariant idle && txState == 2 ==> i <= n + 1
      {
        var res := UsbTransfer(data, n);
        if res == 1 {
          return true;
        }
      }
    }

    // ----- receiving

    /** A transfer from the host is under way, into the buffer the cursor points at. */
    ghost predicate Receiving()
      reads this`processedData, this`offset, this`unprocessedSize, this`processedSize, this`rxState, this`taken,
            this`bytesRead,
            processedData
    {
      && InOrder() && rxState == 1
      && offset == processedSize == |taken|
      && processedSize + unprocessedSize <= processedData.Length
      && processedData[..processedSize] == taken
    }

    /** `n` bytes of the FIFO, from the `from`-th on. */
    function FifoBytes(from: nat, n: nat): (s: seq<byte>)
      ensures |s| == n
    {
      seq(n, i requires 0 <= i < n => fifo(from + i))
    }

    /** What was taken are the last bytes that the FIFO delivered. */
    ghost predicate InOrder()
      reads this`taken, this`bytesRead
    {
      |taken| <= bytesRead && taken == FifoBytes(bytesRead - |taken|, |taken|)
    }

    lemma MoreInOrder(from: nat, m: nat, n: nat)
      ensures FifoBytes(from, m) + FifoBytes(from + m, n) == FifoBytes(from, m + n)
    {
    }

    /** usb_read_ep_fifo: bytes from the FIFO go where the cursor points. */
    method ReadFifo(count: nat)
      requires offset + count <= processedData.Length && |taken| == offset && processedData[..offset] == taken
      modifies processedData, this`taken, this`bytesRead
      ensures taken == old(taken) + FifoBytes(old(bytesRead), count) && bytesRead == old(bytesRead) + count
      ensures processedData[..offset + count] == taken
    {
      for i := 0 to count
        invariant bytesRead == old(bytesRead) + i && taken == old(taken) + FifoBytes(old(bytesRead), i)
        invariant processedData[..offset + i] == taken
      {
        processedData[offset + i] := fifo(bytesRead);
        taken := taken + [fifo(bytesRead)];
        bytesRead := bytesRead + 1;
      }
    }

    /** A call of usb_read for `n` bytes completes the transfer: a short one with its only packet,
        a longer one when nothing is left. */
    predicate ReadEnds(n: nat)
      reads this`rxState, this`unprocessedSize, this`asked
    {
      if rxState == 0 then n < maxRx && bits(asked) else unprocessedSize == 0
    }

    /** A call of usb_read is one too many without a packet. */
    predicate ReadTimesOut()
      reads this`rxState, this`unprocessedSize, this`asked, this`notReady
    {
      (rxState == 0 || unprocessedSize != 0) && !bits(asked) && notReady + 1 >= RX_LIMIT
    }

    /** The host owes data of a transfer and has sent none. */
    predicate Waiting()
      reads this`rxState, this`unprocessedSize, this`asked
    {
      rxState != 0 && unprocessedSize != 0 && !bits(asked)
    }

    /** usb_read: one step of receiving `n` bytes into `buf`; 1 once all is received, 2 after too
        many calls without a packet. While a transfer is under way it is continued, whatever
        buffer and size are asked for. */
    method UsbRead(buf: array<byte>, n: nat) returns (res: nat)
      requires maxRx > 0 && n <= buf.Length && (rxState == 0 || Receiving())
      modifies this`processedData, this`offset, this`unprocessedSize, this`processedSize, this`rxState, this`notReady,
               this`taken,
               this`asked, this`bytesRead, if rxState == 0 then buf else processedData
      ensures res == if old(ReadEnds(n)) then 1 else if old(ReadTimesOut()) then 2 else 0
      ensures processedData == if old(rxState) == 0 then buf else old(processedData)
      ensures processedSize + unprocessedSize == if old(rxState) == 0 then n else old(processedSize + unprocessedSize)
      ensures res == 1 ==>
        rxState == 0 && processedSize == |taken| && unprocessedSize == 0 && processedData[..|taken|] == taken
      ensures (res == 1 ==> InOrder()) && |taken| <= bytesRead
      ensures bytesRead - |taken| == if old(rxState) == 0 then old(bytesRead) else old(bytesRead - |taken|)
      ensures res == 2 ==> rxState == old(rxState)
      ensures rxState != 0 ==> Receiving()
      ensures res != 1 && rxState == 0 ==> bytesRead == old(bytesRead)
      ensures rxState != 0 && old(rxState) == 0 ==> n >= maxRx
      ensures res == 0 && old(rxState) != 0 ==> rxState != 0
      ensures res == 0 && rxState == old(rxState) && (rxState != 0 ==> unprocessedSize == old(unprocessedSize)) ==>
                old(notReady) < notReady < RX_LIMIT
      ensures old(rxState) != 0 ==> unprocessedSize <= old(unprocessedSize)
      ensures old(Waiting()) ==>
        rxState == old(rxState) && unprocessedSize == old(unprocessedSize) && notReady == old(notReady) + 1
      ensures asked == if old(rxState == 0 || unprocessedSize > 0) then old(asked) + 1 else old(asked)
      ensures old(rxState == 0 && bits(asked)) && n >= maxRx ==> rxState == 1 && unprocessedSize == n - maxRx
      ensures old(rxState != 0 && unprocessedSize > 0 && bits(asked)) ==>
        rxState == 1 && unprocessedSize < old(unprocessedSize)
    {
      hide FifoBytes;
      res := 0;
      if rxState == 0 {
        res := StartRead(buf, n);
      } else if unprocessedSize != 0 {
        var ready := StatusBit();
        if ready {
          Take(if unprocessedSize < maxRx then unprocessedSize else maxRx);
          rxState := 1;
        } else {
          res := NotReady();
        }
      } else {
        rxState := 0;
        res := 1;
      }
    }

    /** The first call of a transfer from the host. */
    method StartRead(buf: array<byte>, n: nat) returns (res: nat)
      requires maxRx > 0 && n <= buf.Length && rxState == 0
      modifies this`processedData, this`offset, this`unprocessedSize, this`processedSize, this`rxState, this`notReady,
               this`taken, this`asked, this`bytesRead, buf
      ensures asked == old(asked) + 1 && processedData == buf && processedSize + unprocessedSize == n
      ensures |taken| <= bytesRead && bytesRead - |taken| == old(bytesRead)
      ensures !bits(old(asked)) ==>
        && rxState == 0 && bytesRead == old(bytesRead) && notReady == old(notReady) + 1
        && res == if notReady < RX_LIMIT then 0 else 2
      ensures bits(old(asked)) && n >= maxRx ==>
        res == 0 && notReady == 0 && unprocessedSize == n - maxRx && Receiving()
      ensures bits(old(asked)) && n < maxRx ==>
        && res == 1 && rxState == 0 && unprocessedSize == 0 && InOrder()
        && processedSize == |taken| && processedData[..|taken|] == taken
    {
      hide FifoBytes;
      res := 0;
      processedData, offset := buf, 0;
      unprocessedSize := n;
      processedSize := 0;
      taken := [];
      var ready := StatusBit();
      if !ready {
        res := NotReady();
      } else if n >= maxRx {
        Take(maxRx);
        rxState := 1;
      } else {
        ReadFifo(n);
        unprocessedSize := unprocessedSize - n;
        processedSize := processedSize + n;
        rxState := 0;
        notReady := 0;
        res := 1;
      }
    }

    method Take(count: nat)
      requires count <= unprocessedSize && processedSize + unprocessedSize <= processedData.Length
      requires offset == processedSize == |taken| && processedData[..offset] == taken && InOrder()
      modifies this`offset, this`unprocessedSize, this`processedSize, this`notReady, this`taken, this`bytesRead,
               processedData
      ensures InOrder() && bytesRead - |taken| == old(bytesRead - |taken|)
      ensures offset == processedSize == |taken| <= processedData.Length && processedData[..offset] == taken
      ensures processedSize == old(processedSize) + count && unprocessedSize == old(unprocessedSize) - count
      ensures notReady == 0
    {
      MoreInOrder(bytesRead - |taken|, |taken|, count);
      ReadFifo(count);
      unprocessedSize := unprocessedSize - count;
      offset := offset + count;
      processedSize := processedSize + count;
      notReady := 0;
    }

    method NotReady() returns (res: nat)
      modifies this`notReady
      ensures notReady == old(notReady) + 1 && res == if notReady < RX_LIMIT then 0 else 2
    {
      notReady := notReady + 1;
      res := if notReady < RX_LIMIT then 0 else 2;
    }

    /** However the status bits fall, calls repeated until one returns 1 put exactly the next `n`
        bytes of the FIFO into the buffer. If a packet is always ready, one call for each byte and
        two more are enough. */
    method ReceiveAll(buf: array<byte>, n: nat, patience: nat) returns (finished: bool)
      requires maxRx > 0 && n <= buf.Length && rxState == 0
      modifies this, buf
      ensures finished ==> rxState == 0 && buf[..n] == FifoBytes(old(bytesRead), n) && bytesRead == old(bytesRead) + n
      ensures patience >= n + 2 && (forall k :: k >= old(asked) ==> bits(k)) ==> finished
    {
      finished := false;
      ghost var ready := forall k :: k >= asked ==> bits(k);
      for i := 0 to patience
        invariant old(asked) <= asked && (ready && rxState == 0 ==> i == 0)
        invariant ready && rxState != 0 ==> i + unprocessedSize <= n
        invariant rxState == 0 ==> bytesRead == old(bytesRead)
        invariant rxState != 0 ==> Receiving() && processedData == buf && processedSize + unprocessedSize == n
        invariant rxState != 0 ==> bytesRead - |taken| == old(bytesRead)
      {
        var res := UsbRead(buf, n);
        if res == 1 {
          return true;
        }
      }
    }

    // ----- the mass-storage machine

    ghost predicate Configured()
    {
      && 0 < maxTx && CBW_SIZE < maxRx && readBuf.Length == 256 && dataBuf.Length == 0x100_0000
      && inquiryData.Length == 36 && modeData.Length == 4 && senseData.Length == 18
      && readBuf !in {dataBuf, inquiryData, modeData, senseData} && dataBuf !in {inquiryData, modeData, senseData}
    }

    /** The command wrapper in the buffer. */
    function Wrapper(): Cbw
      requires readBuf.Length == 256
      reads readBuf
    {
      readBuf[..CBW_SIZE]
    }

    /** What the transmit endpoint has pushed: the packets of every transfer so far, the last one
        perhaps still under way. */
    ghost predicate TxConsistent()
      requires maxTx > 0
      reads this`processedData, this`offset, this`unprocessedSize, this`processedSize, this`txState, this`pushed,
            this`before,
            this`writeData, this`size, this`started, writeData
    {
      if txState == 0 then pushed == AllPackets(started, maxTx)
      else
        && Sending(writeData, size)
        && started != [] && started[|started| - 1] == writeData[..size]
        && before == AllPackets(started[..|started| - 1], maxTx)
    }

    /** What the receive endpoint is at: the data of a write, into the data buffer. */
    ghost predicate RxConsistent()
      reads this`processedData, this`offset, this`unprocessedSize, this`processedSize, this`rxState, this`taken,
            this`bytesRead, processedData,
            this`size
    {
      rxState != 0 ==> Receiving() && processedData == dataBuf && processedSize + unprocessedSize == size
    }

    /** All exchanges before the current one are complete, and the current one is as far as a
        machine in state `stage` is. */
    ghost predicate Answering(stage: int)
      requires readBuf.Length == 256
      reads this`past, this`current, this`started, readBuf
    {
      && AllComplete(past)
      && (current.None? ==> stage <= 1 && started == Sent(past))
      && (current.Some? ==>
            var e := current.value;
            && started == Sent(past) + e.data + e.status
            && (stage <= 1 || stage == 4 ==> Complete(e))
            && (stage == 2 ==> e == Taken(Wrapper()) && Op(e.wrapper) == WRITE_10)
            && (stage == 3 ==> e.wrapper == Wrapper() && DataPhase(e) && e.status == []))
    }

    /** The disk is what the exchanges so far, with `e` the current one, have made of it, and every
        read among them sent what the disk held. */
    ghost predicate Agrees(e: Option<Exchange>)
      reads this`disk, this`origin, this`past
    {
      var d := DiskAfter(origin, past, parts, behind);
      && ReadsAllTrue(origin, past, parts, behind)
      && (e.None? ==> disk == d)
      && (e.Some? ==> disk == Applied(d, e.value, parts, behind) && ReadsTrue(d, e.value, parts))
    }

    /** Exchanges that agree on what matters for the disk. */
    lemma SameForDisk(e: Exchange, f: Exchange)
      requires Agrees(Some(e)) && f.wrapper == e.wrapper
      requires Op(e.wrapper) == READ_10 ==> f.data == e.data
      requires Op(e.wrapper) == WRITE_10 ==> e.status == [] && f.status != StatusAfter(f.wrapper, BlockBytes(f.wrapper))
      ensures Agrees(Some(f))
    {
    }

    /** A write that was given up in the middle of its data still has its wrapper in the buffer. */
    ghost predicate Stale()
      requires readBuf.Length == 256
      reads this`current, readBuf
    {
      current == Some(Taken(Wrapper()).(givenUp := true)) && Signed(Wrapper())
    }

    /** Holds in every run. The endpoints are never both in the middle of a transfer. */
    ghost predicate Valid()
      reads this, writeData, readBuf, processedData
    {
      && Configured() && TxConsistent() && RxConsistent() && Answering(transferState) && Agrees(current)
      && 0 <= transferState <= 4
      && (txState != 0 <==> transferState == 3 || transferState == 4)
      && (transferState == 2 ==> writeData == dataBuf && size == BlockBytes(Wrapper()) && Signed(Wrapper()))
      && (rxState != 0 ==> transferState == 2 || (transferState <= 1 && Stale()))
    }

    /** No transfer that the machine has given up occupies the receive endpoint. */
    predicate Orderly()
      reads this`rxState, this`transferState
    {
      rxState != 0 ==> transferState == 2
    }

    /** `e` is current, its status is still to come, and neither endpoint is busy. */
    ghost predicate AtRest(e: Exchange)
      reads this, writeData, readBuf
    {
      && Configured() && TxConsistent() && txState == 0 && rxState == 0 && transferState >= 0
      && current == Some(e) && AllComplete(past) && e.wrapper == Wrapper() && e.status == []
      && started == Sent(past) + e.data
    }

    /** Starts sending the first `n` bytes of `data`. */
    method Send(data: array<byte>, n: nat, next: int)
      requires Configured() && TxConsistent() && txState == 0 && rxState == 0
      requires n <= data.Length && (next == 3 || next == 4)
      modifies this`processedData, this`offset, this`unprocessedSize, this`processedSize, this`txState, this`pushed,
               this`before, this`asked, this`writeData, this`size, this`sizeDone, this`started, this`transferState
      ensures TxConsistent() && txState != 0 && old(pushed) <= pushed
      ensures transferState == next && size == n && started == old(started) + [data[..n]]
    {
      hide Sending, Packets, Split, AllPackets;
      writeData := data;
      size := n;
      sizeDone := 0;
      started := started + [data[..n]];
      var res := UsbTransfer(writeData, size);
      transferState := if res == 0 then next else 1;
    }

    /** Starts the data phase of the current command. */
    method SendData(data: array<byte>, n: nat, ghost e: Exchange)
      requires AtRest(e) && e.data == [] && n <= data.Length
      requires DataPhase(e.(data := [data[..n]])) && Agrees(Some(e.(data := [data[..n]])))
      modifies this`processedData, this`offset, this`unprocessedSize, this`processedSize, this`txState, this`pushed,
               this`before, this`asked, this`writeData, this`size, this`sizeDone, this`started, this`transferState,
               this`current
      ensures Valid() && rxState == 0 && old(pushed) <= pushed && old(started) <= started
      ensures transferState == 3 && current == Some(e.(data := [data[..n]]))
    {
      hide AllComplete, Sent, Sending, Receiving, Answering, Agrees, DataPhase, BlockBytes, AllPackets, TxConsistent;
      ghost var f := e.(data := [data[..n]]);
      Send(data, n, 3);
      current := Some(f);
      assert started == Sent(past) + f.data + f.status;
      HasStarted(f, 3);
    }

    /** Builds the status wrapper over the command wrapper, whose tag it keeps, and sends it. */
    method SendCsw(residue: word, status: byte, ghost e: Exchange)
      requires AtRest(e) && Complete(e.(status := [Csw(Tag(e.wrapper), residue, status)]))
      requires Agrees(Some(e.(status := [Csw(Tag(e.wrapper), residue, status)])))
      modifies this`processedData, this`offset, this`unprocessedSize, this`processedSize, this`txState, this`pushed,
               this`before, this`asked, this`writeData, this`size, this`sizeDone, this`started, this`transferState,
               this`current,
               readBuf
      ensures Valid() && rxState == 0 && old(pushed) <= pushed && old(started) <= started
      ensures transferState == 4 && current == Some(e.(status := [Csw(Tag(e.wrapper), residue, status)]))
    {
      hide AllPackets, AllComplete, Sent, Sending, Receiving, Answering, Agrees, Csw, Complete,
           BlockBytes;
      ghost var f := e.(status := [Csw(Tag(e.wrapper), residue, status)]);
      PutCsw(residue, status);
      Send(readBuf, CSW_SIZE, 4);
      current := Some(f);
      assert started == Sent(past) + f.data + f.status;
      HasStarted(f, 4);
    }

    method PutCsw(residue: word, status: byte)
      requires Configured()
      modifies readBuf
      ensures readBuf[..CSW_SIZE] == Csw(old(Tag(Wrapper())), residue, status)
    {
      ghost var tag := Tag(Wrapper());
      assert tag == readBuf[4..8];
      var signature, rest := Encode(CSW_SIGNATURE, 4), Encode(residue, 4);
      forall i | 0 <= i < 4 {
        readBuf[i] := signature[i];
      }
      forall i | 0 <= i < 4 {
        readBuf[8 + i] := rest[i];
      }
      readBuf[12] := status;
      assert readBuf[..CSW_SIZE] == signature + tag + rest + [status];
    }

    lemma HasStarted(f: Exchange, stage: int)
      requires Configured() && AllComplete(past) && current == Some(f)
      requires started == Sent(past) + f.data + f.status
      requires (stage == 3 && f.wrapper == Wrapper() && DataPhase(f) && f.status == []) || (stage == 4 && Complete(f))
      ensures Answering(stage)
    {
    }

    /** A command whose status has gone out is complete. */
    lemma IsComplete()
      requires Configured() && Answering(4)
      ensures Answering(1)
    {
    }

    /** What is known of the current command while its data is on the way. */
    lemma IsOpen(stage: int) returns (e: Exchange)
      requires Configured() && Answering(stage) && 2 <= stage <= 3
      ensures current == Some(e) && AllComplete(past) && e.wrapper == Wrapper()
      ensures e.status == [] && started == Sent(past) + e.data
      ensures stage == 2 ==> e == Taken(Wrapper()) && Op(e.wrapper) == WRITE_10
      ensures stage == 3 ==> DataPhase(e) && started != [] && started[|started| - 1] == e.data[0]
    {
      e := current.value;
      assert e.status == [] && started == Sent(past) + e.data + [] == Sent(past) + e.data;
    }

    /** usb_dev_bulk_xfer in normal mode; 2 if a command wrapper did not come. From an orderly
        state the receive endpoint is left behind, occupied by a write that has been given up,
        exactly if this call is one too many without a packet in the middle of that write. */
    method BulkXfer() returns (res: nat)
      requires Valid()
      modifies this, readBuf, dataBuf
      ensures Valid() && old(pushed) <= pushed && old(started) <= started && old(past) <= past
      ensures old(Orderly()) ==> (Orderly() <==> !old(transferState == 2 && rxState != 0 && ReadTimesOut()))
      ensures old(transferState == 2 && Waiting()) ==>
                && rxState == old(rxState) && unprocessedSize == old(unprocessedSize) && notReady == old(notReady) + 1
                && asked == old(asked) + 1 && transferState == if notReady >= RX_LIMIT then 1 else 2
      ensures old(transferState <= 1 && CommandComes()) ==>
        current.Some? && current.value.wrapper == old(FifoBytes(bytesRead, CBW_SIZE))
      ensures old(transferState == 2) ==>
        transferState == if old(ReadEnds(size)) then 4 else if old(ReadTimesOut()) then 1 else 2
      ensures old(transferState == 3) ==> transferState == if old(SendEnds()) then 4 else 3
      ensures old(transferState == 4) ==> transferState == if old(SendEnds()) then 1 else 4
      ensures old(transferState == 2 && rxState != 0 && unprocessedSize > 0 && bits(asked)) ==>
        unprocessedSize < old(unprocessedSize)
      ensures old(transferState == 2 && rxState == 0 && bits(asked) && size >= maxRx) ==>
        rxState == 1 && unprocessedSize == old(size) - maxRx
      ensures old(transferState >= 3 && FreeToSend()) ==>
        if old(unprocessedSize) > 0 then unprocessedSize < old(unprocessedSize) else txState == 2
    {
      res := 0;
      if transferState <= 1 {
        ghost var accepted, s, count;
        res, accepted, s, count := AwaitCommand();
      } else if transferState == 2 {
        ghost var s, count := ContinueRead();
      } else if transferState == 3 {
        ContinueData();
      } else {
        ContinueStatus();
      }
    }

    /** Sending the data of a command. The status follows once the last packet is out, and not
        before; it counts the data that was sent. */
    method ContinueData()
      requires Valid() && transferState == 3
      modifies this, readBuf
      ensures Valid() && rxState == 0 && past == old(past)
      ensures old(pushed) <= pushed && old(started) <= started
      ensures transferState == if old(SendEnds()) then 4 else 3
      ensures old(FreeToSend()) ==>
        if old(unprocessedSize) > 0 then unprocessedSize < old(unprocessedSize) else txState == 2
      ensures transferState == 3 ==> current == old(current)
      ensures transferState == 4 ==> AllPackets(old(started), maxTx) <= pushed
      ensures transferState == 4 ==> current == Some(Finished(old(current.value)))
    {
      hide Receiving, Agrees, Answering, AllComplete, DataPhase, Complete, Sent, AllPackets, Packets, Split, Csw,
           BlockBytes;
      ghost var e := IsOpen(3);
      var res := UsbTransfer(writeData, size);
      if res == 1 {
        FinishSending();
        sizeDone := size;
        size := 0;
        DataAnswered(e);
        SameForDisk(e, Finished(e));
        SendCsw(Residue(Wrapper(), sizeDone), 0, e);
      }
    }

    /** `e` with the status that follows its data. */
    ghost function Finished(e: Exchange): Exchange {
      e.(status := StatusAfter(e.wrapper, Moved(e)))
    }

    lemma DataAnswered(e: Exchange)
      requires DataPhase(e) && e.status == []
      ensures Complete(Finished(e)) && Moved(e) == |e.data[0]| && Op(e.wrapper) != WRITE_10
    {
      hide Csw, BlockBytes;
    }

    /** Sending the status; the next command follows. */
    method ContinueStatus()
      requires Valid() && transferState == 4
      modifies this
      ensures Valid() && rxState == 0 && transferState == if old(SendEnds()) then 1 else 4
      ensures old(FreeToSend()) ==>
        if old(unprocessedSize) > 0 then unprocessedSize < old(unprocessedSize) else txState == 2
      ensures old(pushed) <= pushed && started == old(started) && past == old(past) && current == old(current)
      ensures disk == old(disk)
      ensures transferState == 1 ==> pushed == AllPackets(started, maxTx)
    {
      hide Receiving, Agrees, Answering, AllComplete, DataPhase, Complete, Sent, AllPackets, Packets, Split, Csw,
           BlockBytes;
      IsComplete();
      var res := UsbTransfer(writeData, size);
      if res == 1 {
        FinishSending();
        sizeDone := size;
        size := 0;
        transferState := 1;
      }
    }

    /** Once the last packet is out, all started transfers are on the wire. */
    lemma FinishSending()
      requires maxTx > 0 && started != [] && size <= writeData.Length && started[|started| - 1] == writeData[..size]
      requires before == AllPackets(started[..|started| - 1], maxTx)
      requires pushed == before + Packets(writeData[..size], maxTx)
      ensures pushed == AllPackets(started, maxTx)
    {
    }

    /** Receiving the data of a write command. The status follows the last byte, and not before;
        a write whose data does not come is given up. */
    method ContinueRead() returns (ghost s: word, ghost count: nat)
      requires Valid() && transferState == 2
      modifies this, readBuf, dataBuf
      ensures Valid() && past == old(past) && old(pushed) <= pushed && old(started) <= started
      ensures transferState == if old(ReadEnds(size)) then 4 else if old(ReadTimesOut()) then 1 else 2
      ensures old(rxState != 0 && unprocessedSize > 0 && bits(asked)) ==> unprocessedSize < old(unprocessedSize)
      ensures old(rxState == 0 && bits(asked) && size >= maxRx) ==> rxState == 1 && unprocessedSize == old(size) - maxRx
      ensures transferState == 4 ==> rxState == 0 && Answered(old(Wrapper())) && Asks(old(Wrapper()), s, count)
      ensures transferState == 4 ==> WroteOut(old(Wrapper()), s, count, old(disk),
                                              old(if rxState == 0 then bits(asked + 1) else bits(asked)))
      ensures transferState == 2 ==> current == old(current)
      ensures transferState == 1 ==> rxState == old(rxState) && current == Some(old(current.value).(givenUp := true))
      ensures old(Waiting()) ==>
        rxState == old(rxState) && unprocessedSize == old(unprocessedSize) && notReady == old(notReady) + 1
      ensures old(Waiting()) ==> asked == old(asked) + 1
    {
      hide Agrees, InOrder, Answering, AllComplete, DataPhase, Complete, Sent, AllPackets, Packets, Split, Csw,
           BlockBytes, Sending, Asks, WroteOut;
      ghost var e := IsOpen(2);
      s, count := SomethingAsked(e.wrapper);
      var res := UsbRead(writeData, size);
      if res == 1 {
        WriteOut(e, s, count);
      } else if res == 2 {
        GiveUp(e);
      }
    }

    /** The data did not come. */
    method GiveUp(ghost e: Exchange)
      requires Configured() && TxConsistent() && txState == 0 && RxConsistent() && Signed(Wrapper())
      requires current == Some(e) && e == Taken(Wrapper()) && Op(e.wrapper) == WRITE_10
      requires AllComplete(past) && started == Sent(past) + e.data && Agrees(Some(e))
      modifies this`transferState, this`current
      ensures Valid() && transferState == 1 && current == Some(e.(givenUp := true))
    {
      hide Sent, AllComplete, BlockBytes, Receiving, AllPackets, Agrees, Csw;
      SameForDisk(e, e.(givenUp := true));
      transferState := 1;
      current := Some(e.(givenUp := true));
    }

    /** The current exchange is the write `w` with its status, and what was received for it are the
        last bytes that the FIFO delivered. */
    ghost predicate Answered(w: Cbw)
      reads this`current, this`bytesRead
    {
      && current.Some? && current.value.wrapper == w && current.value.status != []
      && BlockBytes(w) <= bytesRead
      && current.value.received == Some(FifoBytes(bytesRead - BlockBytes(w), BlockBytes(w)))
    }

    /** The write `w` of `count` sectors at `s` on the disk `d` fails exactly if the driver does or
        beyond the disk, and else stores `data`. */
    ghost predicate Writes(w: Cbw, s: word, count: nat, d: seq<byte>, driverFails: bool, failed: bool, data: seq<byte>)
      requires |data| == Portion(count)
      reads this`disk
    {
      var at := (parts(w[13] % 16) + s % 0x80_0000) % 0x1_0000_0000 * 512;
      && failed == (driverFails || at + count * 512 > |d|)
      && disk == if failed then d else Stored(d, at, data, count * 512 - |data|, behind)
    }

    /** ... and the status tells so. */
    ghost predicate WroteOut(w: Cbw, s: word, count: nat, d: seq<byte>, driverFails: bool)
      reads this`current, this`disk
    {
      && current.Some? && current.value.received.Some? && |current.value.received.value| == Portion(count)
      && var data, status := current.value.received.value, current.value.status;
      && (status == FailureStatus(w) || status == StatusAfter(w, Portion(count)))
      && Writes(w, s, count, d, driverFails, status == FailureStatus(w), data)
    }

    lemma HasWritten(w: Cbw, s: word, count: nat, d: seq<byte>, driverFails: bool, failed: bool)
      requires current.Some? && current.value.status == WriteStatus(w, failed) && Asks(w, s, count)
      requires current.value.received.Some? && |current.value.received.value| == Portion(count)
      requires Writes(w, s, count, d, driverFails, failed, current.value.received.value)
      ensures WroteOut(w, s, count, d, driverFails)
    {
      hide Asks, Portion, BlockBytes, AllBytes, Writes, StatusAfter, FailureStatus;
      AskedSector(w, s, count);
      StatusesDiffer(w);
    }

    /** svc_diskwrite. It takes as many bytes as the command block says, also from behind the buffer. */
    method DiskWrite(ghost e: Exchange, ghost s: word, ghost count: nat) returns (failed: bool)
      requires Asks(e.wrapper, s, count) && Configured() && Agrees(Some(e))
      requires e == Taken(Wrapper()) && Op(e.wrapper) == WRITE_10
      requires |taken| == BlockBytes(e.wrapper) && dataBuf[..|taken|] == taken
      modifies this`asked, this`disk
      ensures |taken| == Portion(count) && Writes(e.wrapper, s, count, old(disk), old(bits(asked)), failed, taken)
      ensures Agrees(Some(e.(received := Some(taken), status := WriteStatus(e.wrapper, failed))))
    {
      hide Csw, ReadsAllTrue, DiskAfter, Patch, Stored, Asks, Portion, AllBytes, BlockBytes, WriteAt;
      StatusesDiffer(e.wrapper);
      AskedSector(e.wrapper, s, count);
      Places(e.wrapper, s, count, parts);
      var w := Wrapper();
      failed := StatusBit();
      if failed || WriteAt(w, parts) + AllBytes(w) > |disk| {
        return true;
      }
      var more := AllBytes(w) - BlockBytes(w);
      var data := dataBuf[..BlockBytes(w)] + seq<byte>(more, i requires 0 <= i < more => behind(i));
      assert data == Written(e.(received := Some(taken)), behind);
      StoredInOnePiece(disk, WriteAt(w, parts), dataBuf[..BlockBytes(w)], more, behind);
      disk := Patch(disk, WriteAt(w, parts), data);
    }

    /** The data is complete: it goes to the disk, and a status follows. */
    method WriteOut(ghost e: Exchange, ghost s: word, ghost count: nat)
      requires AtRest(e) && Agrees(Some(e)) && e == Taken(Wrapper()) && Op(e.wrapper) == WRITE_10
      requires Asks(e.wrapper, s, count)
      requires size == BlockBytes(e.wrapper) == |taken| && writeData == dataBuf && dataBuf[..size] == taken && InOrder()
      modifies this, readBuf
      ensures Valid() && rxState == 0 && transferState == 4
      ensures old(pushed) <= pushed && old(started) <= started && past == old(past)
      ensures Answered(e.wrapper)
      ensures WroteOut(e.wrapper, s, count, old(disk), old(bits(asked)))
    {
      hide Writes, WroteOut, WriteStatus, Portion, Asks, AllComplete, DataPhase, Complete, Sent, AllPackets, Csw,
           AllBytes, BlockBytes, Sending, Receiving,
           Answering, Agrees,
        FifoBytes, Written, WriteAt, StatusAfter, FailureStatus, RxConsistent;
      ghost var f := e.(received := Some(taken));
      var failed := DiskWrite(e, s, count);
      current := Some(f);
      AnswerWrite(failed, f);
      HasWritten(e.wrapper, s, count, old(disk), old(bits(asked)), failed);
    }

    /** The status of a write, by the result of svc_diskwrite. */
    method AnswerWrite(failed: bool, ghost f: Exchange)
      requires AtRest(f) && f == Taken(Wrapper()).(received := f.received) && Op(f.wrapper) == WRITE_10
      requires f.received.Some? && |f.received.value| == BlockBytes(f.wrapper) == size
      requires Agrees(Some(f.(status := WriteStatus(f.wrapper, failed))))
      modifies this`processedData, this`offset, this`unprocessedSize, this`processedSize, this`txState, this`pushed,
               this`before, this`asked, this`writeData, this`size, this`sizeDone, this`started, this`transferState,
               this`current,
               readBuf
      ensures Valid() && rxState == 0 && transferState == 4 && old(pushed) <= pushed && old(started) <= started
      ensures current == Some(f.(status := WriteStatus(f.wrapper, failed)))
    {
      hide AllComplete, DataPhase, Sent, AllPackets, Csw, AllBytes, BlockBytes, Sending, Receiving, Answering, Agrees,
           RxConsistent;
      if !failed {
        sizeDone := size;
        size := 0;
      }
      SendCsw(if failed then Announced(Wrapper()) else Residue(Wrapper(), sizeDone), if failed then 1 else 0, f);
    }

    /** What makes sure that a command is taken up. */
    predicate CommandComes()
      reads this`rxInterrupts, this`rxState, this`asked, this`bytesRead
    {
      && rxInterrupts > 0 && rxState == 0
      && bits(asked) && bits(asked + 1) && bits(asked + 2)
      && Signed(FifoBytes(bytesRead, CBW_SIZE))
    }

    /** Waiting for a command wrapper, and acting on it. A command is taken up only after an
        interrupt, with its signature and all its bytes, as the FIFO delivers them. But while the
        endpoint is occupied by a write that was given up, it is the rest of that write which is
        read, and that write which is taken up once more. */
    method AwaitCommand() returns (res: nat, ghost accepted: bool, ghost s: word, ghost count: nat)
      requires Valid() && transferState <= 1
      modifies this, readBuf, dataBuf
      ensures Valid() && (old(rxState) == 0 ==> Orderly())
      ensures old(pushed) <= pushed && old(started) <= started && old(past) <= past
      ensures !accepted ==>
        transferState == old(transferState) && past == old(past) && current == old(current) && started == old(started)
      ensures accepted ==>
        old(rxInterrupts) > 0 && past == old(Exchanges()) && current.Some? && Signed(current.value.wrapper)
      ensures accepted && old(rxState) == 0 ==> current.value.wrapper == FifoBytes(old(bytesRead), CBW_SIZE)
      ensures accepted && old(rxState) != 0 ==> current.value.wrapper == old(Wrapper()) && old(Stale())
      ensures old(CommandComes()) ==> accepted
      ensures accepted ==> Asks(current.value.wrapper, s, count)
      ensures old(CommandComes()) && current.value.wrapper[15] == 0x28 ==>
        SendsSectors(Taken(current.value.wrapper), s, count, old(bits(asked + 3)))
    {
      hide Asks, SendsSectors, Answering, RxConsistent, TxConsistent, Stale, Signed, FifoBytes, Exchanges, Wrapper;
      res, accepted, s, count := 0, false, 0, 0;
      if rxInterrupts == 0 {
        return;
      }
      rxInterrupts := rxInterrupts - 1;
      var ready := StatusBit();
      if !ready {
        return;
      }
      var rightLength := StatusBit();
      if !rightLength {
        return;
      }
      res, accepted, s, count := FetchCommand();
    }

    /** Reads the wrapper and acts on it, if it is signed. */
    method FetchCommand() returns (res: nat, ghost accepted: bool, ghost s: word, ghost count: nat)
      requires Valid() && transferState <= 1
      modifies this, readBuf, dataBuf
      ensures Valid() && (old(rxState) == 0 ==> Orderly())
      ensures old(pushed) <= pushed && old(started) <= started && old(past) <= past
      ensures !accepted ==>
        transferState == old(transferState) && past == old(past) && current == old(current) && started == old(started)
      ensures accepted ==> past == old(Exchanges()) && current.Some? && Signed(current.value.wrapper)
      ensures accepted && old(rxState) == 0 ==> current.value.wrapper == FifoBytes(old(bytesRead), CBW_SIZE)
      ensures accepted && old(rxState) != 0 ==> current.value.wrapper == old(Wrapper()) && old(Stale())
      ensures old(rxState) == 0 && bits(old(asked)) && Signed(FifoBytes(old(bytesRead), CBW_SIZE)) ==> accepted
      ensures accepted ==> Asks(current.value.wrapper, s, count)
      ensures accepted && old(rxState == 0 && bits(asked)) && current.value.wrapper[15] == 0x28 ==>
        SendsSectors(Taken(current.value.wrapper), s, count, old(bits(asked + 1)))
    {
      hide Asks, SendsSectors, Answering, RxConsistent, TxConsistent, Stale, Signed, FifoBytes, BlockBytes;
      var received := ReadCbw();
      if !received {
        return 2, false, 0, 0;
      }
      if !Signed(Wrapper()) {
        return 0, false, 0, 0;
      }
      Accept();
      s, count := SomethingAsked(Wrapper());
      RunCommand(Op(Wrapper()), current.value, s, count);
      res, accepted := 0, true;
    }

    /** The loop that reads the command wrapper. */
    method ReadCbw() returns (received: bool)
      requires Valid() && transferState <= 1
      modifies this, readBuf, dataBuf
      ensures Valid() && transferState == old(transferState) && rxInterrupts == old(rxInterrupts)
      ensures pushed == old(pushed) && started == old(started) && past == old(past) && current == old(current)
      ensures old(rxState) == 0 || received ==> rxState == 0
      ensures received && old(rxState) == 0 ==> Wrapper() == FifoBytes(old(bytesRead), CBW_SIZE)
      ensures received && old(rxState) != 0 ==> Wrapper() == old(Wrapper()) && Signed(Wrapper()) && old(Stale())
      ensures old(rxState == 0 && bits(asked)) ==> received && asked == old(asked) + 1
    {
      hide Agrees, Answering, TxConsistent, RxConsistent, FifoBytes, BlockBytes;
      var res := 0;
      while res == 0
        invariant Valid() && transferState == old(transferState) && rxInterrupts == old(rxInterrupts) && res <= 2
        invariant pushed == old(pushed) && started == old(started) && past == old(past) && current == old(current)
        invariant old(rxState) == 0 || res == 1 ==> rxState == 0
        invariant old(rxState) == 0 && res != 1 ==> bytesRead == old(bytesRead)
        invariant old(rxState) == 0 && res == 1 ==> Wrapper() == FifoBytes(old(bytesRead), CBW_SIZE)
        invariant old(rxState) != 0 ==> old(Stale()) && readBuf[..] == old(readBuf[..]) && (res == 0 ==> rxState != 0)
        invariant old(rxState == 0 && bits(asked)) ==>
          (res == 1 && asked == old(asked) + 1) || (res == 0 && asked == old(asked))
        decreases if rxState != 0 then unprocessedSize else 0, if res == 0 then 1 else 0, RX_LIMIT - notReady
      {
        res := TryCbw();
      }
      received := res == 1;
    }

    /** One turn of that loop. */
    method TryCbw() returns (res: nat)
      requires Valid() && transferState <= 1
      modifies this`processedData, this`offset, this`unprocessedSize, this`processedSize, this`rxState, this`notReady,
               this`taken, this`asked, this`bytesRead, readBuf, dataBuf
      ensures Valid() && res <= 2 && (res == 1 ==> rxState == 0)
      ensures old(rxState) == 0 ==> rxState == 0 && asked == old(asked) + 1
      ensures old(rxState == 0 && bits(asked)) ==> res == 1
      ensures old(rxState) == 0 ==>
        if res == 1 then Wrapper() == FifoBytes(old(bytesRead), CBW_SIZE) else bytesRead == old(bytesRead)
      ensures old(rxState) != 0 ==> readBuf[..] == old(readBuf[..]) && (res == 0 ==> rxState != 0)
      ensures rxState != 0 ==> unprocessedSize <= old(unprocessedSize)
      ensures res == 0 && (rxState != 0 ==> unprocessedSize == old(unprocessedSize)) ==>
        old(notReady) < notReady < RX_LIMIT
    {
      hide Agrees, FifoBytes, AllComplete, Complete, Sent, AllPackets, BlockBytes, Sending;
      res := UsbRead(readBuf, CBW_SIZE);
    }

    /** The command in the buffer becomes the current one. */
    ghost method Accept()
      requires Valid() && transferState <= 1 && rxState == 0
      modifies this`past, this`current
      ensures AtRest(Taken(Wrapper())) && Agrees(current) && past == old(Exchanges())
    {
      hide ReadsAllTrue, DiskAfter, AllComplete, Complete, Sent, Sending, Receiving, Answering;
      WholeHistory(transferState);
      past := Exchanges();
      current := Some(Taken(Wrapper()));
      assert started == Sent(past) + [];
      NothingDone(Taken(Wrapper()));
    }

    /** A command that has just been taken up has done nothing. */
    lemma NothingDone(e: Exchange)
      requires e.status == [] == e.data && disk == DiskAfter(origin, past, parts, behind)
      requires ReadsAllTrue(origin, past, parts, behind)
      ensures Agrees(Some(e))
    {
    }

    /** All commands taken up since the last bus reset. */
    ghost function Exchanges(): seq<Exchange>
      reads this`past, this`current
    {
      past + (if current.Some? then [current.value] else [])
    }

    lemma WholeHistory(stage: int)
      requires Configured() && Answering(stage) && stage <= 1 && Agrees(current)
      ensures AllComplete(Exchanges()) && started == Sent(Exchanges())
      ensures disk == DiskAfter(origin, Exchanges(), parts, behind) && ReadsAllTrue(origin, Exchanges(), parts, behind)
    {
      hide Complete, ReadsTrue, Applied;
      if current.Some? {
        SentLast(past, current.value);
        OneMore(origin, past, current.value, parts, behind);
      } else {
        assert Exchanges() == past;
      }
    }

    /** What the machine does with the command it has taken up. Nothing at all is done exactly if
        the command is unknown; what the others start, `Valid` tells by way of `DataPhase` and
        `Complete`. */
    method RunCommand(op: byte, ghost e: Exchange, ghost s: word, ghost count: nat)
      requires AtRest(e) && Agrees(Some(e)) && e == Taken(Wrapper()) && Op(e.wrapper) == op
      requires Signed(Wrapper()) && transferState <= 1 && Asks(e.wrapper, s, count)
      modifies this, readBuf, dataBuf
      ensures Valid() && Orderly() && past == old(past) && old(pushed) <= pushed && old(started) <= started
      ensures current.Some? && current.value.wrapper == e.wrapper
      ensures op !in {0x00, 0x1e, 0x2f, 0x12, 0x23, 0x25, 0x1a, 0x03, 0x28, 0x2a} <==>
        transferState <= 1 && current == Some(e)
      ensures transferState <= 1 && current == Some(e) ==>
        transferState == old(transferState) && started == old(started)
      ensures op in {0x00, 0x1e, 0x2f} ==> transferState == 4
      ensures op == 0x12 ==> transferState == 3 && Replies(e, inquiryData[..])
      ensures op == 0x1a ==> transferState == 3 && Replies(e, modeData[..])
      ensures op == 0x03 ==> transferState == 3 && Replies(e, senseData[..])
      ensures op == 0x23 ==>
        transferState == 3 && Replies(e, [0, 0, 0, 8] + Be(counts(e.wrapper[13] % 16)) + [2, 0, 2, 0])
      ensures op == 0x25 ==>
        transferState == 3 && Replies(e, Be((counts(e.wrapper[13] % 16) - 1) % 0x1_0000_0000) + [0, 0, 2, 0])
      ensures op == 0x28 ==> SendsSectors(e, s, count, old(bits(asked)))
    {
      hide AllComplete, Sent, AllPackets, Packets, Split, Csw, BlockBytes, Sending, Receiving, Agrees, Asks, Be,
           SendsSectors;
      if StatusOnly(op) || FixedSize(op) > 0 { NoDiskCommand(e); }
      if op == 0x00 || op == 0x1e || op == 0x2f {
        SendCsw(0, 0, e);
      } else if op == 0x12 {
        SendReply(inquiryData, 36, e);
      } else if op == 0x23 {
        var capacities := FormatCapacities(counts(Wrapper()[13] % 0x10));
        SendReply(capacities, 12, e);
      } else if op == 0x25 {
        var capacity := Capacity((counts(Wrapper()[13] % 0x10) - 1) % 0x1_0000_0000);
        SendReply(capacity, 8, e);
      } else if op == READ_10 {
        RunRead(e, s, count);
      } else if op == 0x1a {
        SendReply(modeData, 4, e);
      } else if op == 0x03 {
        SendReply(senseData, 18, e);
      } else if op == WRITE_10 {
        RunWrite(e);
      } else {
        assert started == Sent(past) + e.data + e.status;
      }
    }

    /** A fixed reply is cut at the announced length. */
    method SendReply(data: array<byte>, size: nat, ghost e: Exchange)
      requires AtRest(e) && e == Taken(Wrapper()) && 0 < size == data.Length == FixedSize(Op(e.wrapper))
      requires forall f: Exchange :: f.wrapper == e.wrapper ==> Agrees(Some(f))
      modifies this`processedData, this`offset, this`unprocessedSize, this`processedSize, this`txState, this`pushed,
               this`before, this`asked, this`writeData, this`size, this`sizeDone, this`started, this`transferState,
               this`current
      ensures Valid() && rxState == 0 && old(pushed) <= pushed && old(started) <= started
      ensures transferState == 3 && Replies(e, data[..])
    {
      hide TxConsistent, Agrees, AllComplete, Sent, AllPackets, Packets, Split, Csw, BlockBytes, Sending, Receiving;
      var n := Min(Announced(Wrapper()), size);
      assert data[..n] == data[..][..n] && data[..size] == data[..];
      SendData(data, n, e);
    }

    /** The current command sends `reply`, or as much of it as the host has announced. */
    ghost predicate Replies(e: Exchange, reply: seq<byte>)
      reads this`current
    {
      var length := Announced(e.wrapper);
      current == Some(e.(data := [if length < |reply| then reply[..length] else reply]))
    }

    /** READ(10) of `count` sectors at `s` fails exactly if the driver does or beyond the disk, and
        else sends what is on the disk. */
    ghost predicate SendsSectors(e: Exchange, s: word, count: nat, driverFails: bool)
      reads this`current, this`disk, this`transferState
    {
      var at := (s + parts(e.wrapper[13] % 16)) % 0x1_0000_0000 * 512;
      if driverFails || at + count * 512 > |disk|
      then transferState == 4 && current == Some(e.(status := FailureStatus(e.wrapper)))
      else transferState == 3 && current == Some(e.(data := [disk[at..at + Portion(count)]]))
    }

    /** The reply to READ FORMAT CAPACITIES for a partition of `n` sectors. */
    method FormatCapacities(n: word) returns (r: array<byte>)
      ensures fresh(r) && r[..] == [0, 0, 0, 8] + Be(n) + [2, 0, 2, 0]
    {
      r := new byte[12];
      r[0], r[1], r[2], r[3], r[8], r[9], r[10], r[11] := 0, 0, 0, 8, 2, 0, 2, 0;
      r[4], r[5], r[6], r[7] := n / 0x100_0000, n / 0x1_0000 % 0x100, n / 0x100 % 0x100, n % 0x100;
    }

    /** The reply to READ CAPACITY for a partition that ends with sector `last`. */
    method Capacity(last: word) returns (r: array<byte>)
      ensures fresh(r) && r[..] == Be(last) + [0, 0, 2, 0]
    {
      r := new byte[8];
      r[4], r[5], r[6], r[7] := 0, 0, 2, 0;
      r[0], r[1], r[2], r[3] := last / 0x100_0000, last / 0x1_0000 % 0x100, last / 0x100 % 0x100, last % 0x100;
    }

    /** Other commands than READ(10) and WRITE(10) do not touch the disk. */
    lemma NoDiskCommand(e: Exchange)
      requires Agrees(Some(e)) && Op(e.wrapper) != READ_10 && Op(e.wrapper) != WRITE_10
      ensures forall f: Exchange :: f.wrapper == e.wrapper ==> Agrees(Some(f))
    {
      forall f: Exchange | f.wrapper == e.wrapper ensures Agrees(Some(f)) { SameForDisk(e, f); }
    }

    /** svc_diskread fails if its driver does, or beyond the disk. */
    predicate ReadFails()
      requires readBuf.Length == 256
      reads this`disk, this`asked, readBuf
    {
      bits(asked) || ReadAt(Wrapper(), parts) + AllBytes(Wrapper()) > |disk|
    }

    /** svc_diskread, into the data buffer. */
    method DiskRead() returns (failed: bool)
      requires Configured()
      modifies this`asked, dataBuf
      ensures failed == old(ReadFails())
      ensures !failed ==>
        var at, n := ReadAt(Wrapper(), parts), BlockBytes(Wrapper());
        at + n <= |disk| && dataBuf[..n] == disk[at..at + n]
    {
      hide ReadAt, AllBytes;
      var at, n := ReadAt(Wrapper(), parts), BlockBytes(Wrapper());
      failed := StatusBit();
      if failed || at + AllBytes(Wrapper()) > |disk| {
        return true;
      }
      forall i | 0 <= i < n {
        dataBuf[i] := disk[at + i];
      }
    }

    /** READ(10) sends from the disk as much as its command block says, whatever the host announced. */
    method RunRead(ghost e: Exchange, ghost s: word, ghost count: nat)
      requires AtRest(e) && Agrees(Some(e)) && e == Taken(Wrapper()) && Op(e.wrapper) == READ_10
      requires Asks(e.wrapper, s, count)
      modifies this, readBuf, dataBuf
      ensures Valid() && rxState == 0 && past == old(past) && old(pushed) <= pushed && old(started) <= started
      ensures current.Some? && current.value.wrapper == e.wrapper && transferState >= 3
      ensures disk == old(disk) && SendsSectors(e, s, count, old(bits(asked)))
    {
      hide AllComplete, Sent, AllPackets, Packets, Split, Csw, AllBytes, BlockBytes, Sending, Receiving, Agrees,
           ReadAt, Asks;
      AskedSector(e.wrapper, s, count);
      Places(e.wrapper, s, count, parts);
      var failed := DiskRead();
      if failed {
        SameForDisk(e, e.(status := FailureStatus(e.wrapper)));
        SendCsw(Announced(Wrapper()), 1, e);
      } else {
        ReadFromDisk(e, dataBuf[..BlockBytes(Wrapper())]);
        SendData(dataBuf, BlockBytes(Wrapper()), e);
      }
    }

    lemma ReadFromDisk(e: Exchange, data: seq<byte>)
      requires Agrees(Some(e)) && Op(e.wrapper) == READ_10
      requires ReadAt(e.wrapper, parts) + BlockBytes(e.wrapper) <= |disk|
      requires data == disk[ReadAt(e.wrapper, parts)..ReadAt(e.wrapper, parts) + BlockBytes(e.wrapper)]
      ensures Agrees(Some(e.(data := [data])))
    {
    }

    /** WRITE(10): the data phase starts at once, with a first attempt to read. */
    method RunWrite(ghost e: Exchange)
      requires AtRest(e) && Agrees(Some(e)) && e == Taken(Wrapper()) && Op(e.wrapper) == WRITE_10
      requires Signed(Wrapper()) && transferState <= 1
      modifies this, readBuf, dataBuf
      ensures Valid() && Orderly() && past == old(past) && old(pushed) <= pushed && old(started) <= started
      ensures transferState == if old(ReadEnds(BlockBytes(Wrapper()))) then 4 else if old(ReadTimesOut()) then 1 else 2
      ensures transferState == 4 ==> Answered(e.wrapper)
      ensures transferState == 2 ==> current == Some(e)
      ensures transferState == 1 ==> current == Some(e.(givenUp := true))
    {
      hide Agrees, AllComplete, Answering, Sent, AllPackets, BlockBytes, Sending, Signed;
      writeData := dataBuf;
      size := BlockBytes(Wrapper());
      sizeDone := 0;
      transferState := 2;
      IsUnderWay(e);
      ghost var s, count := ContinueRead();
    }

    lemma IsUnderWay(e: Exchange)
      requires Configured() && AllComplete(past) && current == Some(e) && started == Sent(past) + e.data
      requires e == Taken(Wrapper()) && Op(e.wrapper) == WRITE_10
      ensures Answering(2)
    {
      assert started == Sent(past) + e.data + e.status;
    }

    /** A host that falls silent in the middle of a write leaves the endpoint occupied. */
    method HostFallsSilent()
      requires Valid() && transferState == 2 && Waiting() && forall k :: k >= asked ==> !bits(k)
      modifies this, readBuf, dataBuf
      ensures Valid() && !Orderly()
    {
      while transferState == 2
        invariant Valid() && 1 <= transferState <= 2 && Waiting()
        invariant forall k :: k >= asked ==> !bits(k)
        decreases transferState, RX_LIMIT - notReady
      {
        var res := BulkXfer();
      }
    }

    /** The bus reset part of usb_bus_irq_handler_dev: a transfer under way is given up. */
    method BusReset()
      requires Configured()
      modifies this`rxInterrupts, this`txState, this`rxState, this`transferState, this`started, this`pushed,
               this`past, this`current,
               this`origin
      ensures Valid() && Orderly() && transferState == 0 && Exchanges() == [] && origin == disk == old(disk)
    {
      hide Complete, Applied, ReadsTrue, Sending, Receiving, Packets, Split, Stale, Signed, BlockBytes;
      rxInterrupts := 0;
      txState := 0;
      rxState := 0;
      transferState := 0;
      started, pushed, past, current, origin := [], [], [], None, disk;
    }

    /** usb_irq_handler, for receive interrupts of the bulk endpoint, bus resets, and a turn of the
        main loop. */
    method Handle(event: Event)
      requires Valid()
      modifies this, readBuf, dataBuf
      ensures Valid()
      ensures event.Reset? ==> Orderly() && transferState == 0 && Exchanges() == [] && origin == disk == old(disk)
      ensures event.RxInterrupts? ==>
        rxInterrupts == old(rxInterrupts) + event.count && transferState == old(transferState)
      ensures event.Poll? && old(transferState <= 1 && CommandComes()) ==>
        current.Some? && current.value.wrapper == old(FifoBytes(bytesRead, CBW_SIZE))
      ensures event.Poll? && old(transferState == 2) ==>
        transferState == if old(ReadEnds(size)) then 4 else if old(ReadTimesOut()) then 1 else 2
      ensures event.Poll? && old(transferState >= 3) ==>
        transferState == if !old(SendEnds()) then old(transferState) else if old(transferState) == 3 then 4 else 1
    {
      hide Answering, Agrees, TxConsistent, RxConsistent, FifoBytes, BlockBytes;
      match event
      case Reset =>
        BusReset();
      case RxInterrupts(count) =>
        rxInterrupts := rxInterrupts + count;
      case Poll =>
        var res := BulkXfer();
    }

    /** Any run: commands, data, interrupts and resets at any time, whatever the hardware answers.
        The cursor has at most one owner, everything sent is on the wire, in order and in packets,
        and it consists of the whole answers to the commands taken up since the last reset. Every
        READ(10) among them sent what the disk held then, and the disk is what the writes made of it. */
    method Run(events: seq<Event>)
      requires Valid()
      modifies this, readBuf, dataBuf
      ensures Valid() && (txState == 0 || rxState == 0)
      ensures txState == 0 ==> pushed == AllPackets(started, maxTx)
      ensures transferState <= 1 ==> AllComplete(Exchanges()) && started == Sent(Exchanges())
      ensures transferState <= 1 ==> disk == DiskAfter(origin, Exchanges(), parts, behind)
      ensures transferState <= 1 ==> ReadsAllTrue(origin, Exchanges(), parts, behind)
    {
      for i := 0 to |events|
        invariant Valid()
      {
        Handle(events[i]);
      }
      if transferState <= 1 { WholeHistory(transferState); }
    }
  }
}
