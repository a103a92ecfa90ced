/**
 The CDC class bootloader: the task that fetches a command byte by byte from the host's packets,
 executes it on the memories and answers in packets of its own.
 */
module CdcBootloader {
  import opened Bytes
  import opened Hardware
  import opened FlashImage
  import opened CdcSpec

  const TX_SIZE := 16      // CDC_TXRX_EPSIZE

  /** A transfer as the USB bulk protocol ends it (USB 2.0, section 5.8.3): full packets, then one
      that is short or empty. */
  ghost predicate IsTransfer(packets: seq<seq<byte>>, bytes: seq<byte>) {
    && packets != []
    && Flatten(packets) == bytes
    && (forall i :: 0 <= i < |packets| - 1 ==> |packets[i]| == TX_SIZE)
    && |packets[|packets| - 1]| < TX_SIZE
  }

  class Bootloader {
    const flash: Flash
    const eeprom: Eeprom
    const rx: BulkOut
    const tx: InEndpoint
    const bootStart: nat

    var currAddress: nat
    var run: bool

    constructor (flash: Flash, eeprom: Eeprom, rx: BulkOut, tx: InEndpoint, bootStart: nat)
      requires flash.Valid() && flash.Blank() && bootStart <= |flash.mem| && Offset(flash.pageSize, bootStart) == 0
      requires tx.size == TX_SIZE && tx.bank == [] && tx.sent == []
      ensures Valid() && tx.sent == [] && View() == State(0, true, flash.mem, eeprom.mem)
      ensures this.flash == flash && this.eeprom == eeprom && this.rx == rx && this.tx == tx
      ensures this.bootStart == bootStart
    {
      this.flash, this.eeprom, this.rx, this.tx, this.bootStart := flash, eeprom, rx, tx, bootStart;
      currAddress, run := 0, true;
    }

    ghost predicate Valid()
      reads this, flash, eeprom, tx
    {
      && flash.Valid() && flash.Blank()
      && View().Fits(flash.pageSize, bootStart)
      && tx.size == TX_SIZE && tx.bank == []
    }

    ghost function View(): State
      reads this, flash, eeprom
    {
      State(currAddress, run, flash.mem, eeprom.mem)
    }

    /** What has been answered to the command in progress; full packets are already with the host. */
    ghost predicate Answering(sent0: seq<seq<byte>>, reply: seq<byte>)
      reads tx
    {
      && tx.size == TX_SIZE && |tx.bank| <= TX_SIZE
      && sent0 <= tx.sent
      && (forall i :: |sent0| <= i < |tx.sent| ==> |tx.sent[i]| == TX_SIZE)
      && Flatten(tx.sent[|sent0|..]) + tx.bank == reply
    }

    /** WriteNextResponseByte */
    method Respond(b: byte, ghost sent0: seq<seq<byte>>, ghost reply: seq<byte>)
      requires Answering(sent0, reply)
      modifies tx
      ensures Answering(sent0, reply + [b])
    {
      if |tx.bank| == TX_SIZE {
        FlattenSnoc(tx.sent[|sent0|..], tx.bank);
        assert (tx.sent + [tx.bank])[|sent0|..] == tx.sent[|sent0|..] + [tx.bank];
        tx.Send();
      }
      tx.Write8(b);
    }

    /** The end of CDC_Task: the bank goes to the host, with an empty packet after a full one. */
    method Flush(ghost sent0: seq<seq<byte>>, ghost reply: seq<byte>)
      requires Answering(sent0, reply)
      modifies tx
      ensures tx.bank == [] && sent0 <= tx.sent && IsTransfer(tx.sent[|sent0|..], reply)
    {
      var isEndpointFull := |tx.bank| == TX_SIZE;
      FlattenSnoc(tx.sent[|sent0|..], tx.bank);
      assert (tx.sent + [tx.bank])[|sent0|..] == tx.sent[|sent0|..] + [tx.bank];
      tx.Send();
      if isEndpointFull {
        FlattenSnoc(tx.sent[|sent0|..], []);
        assert (tx.sent + [[]])[|sent0|..] == tx.sent[|sent0|..] + [[]];
        tx.Send();
      }
    }

    /** The flash branch of a block read. */
    method ReadFlash(blockSize: word, ghost sent0: seq<seq<byte>>)
      requires currAddress % 2 == 0 && currAddress + blockSize <= |flash.mem| && Answering(sent0, [])
      modifies this`currAddress, tx
      ensures currAddress == old(currAddress) + blockSize / 2 * 2
      ensures Answering(sent0, flash.mem[old(currAddress)..old(currAddress) + blockSize])
    {
      var remaining, highByte := blockSize, 0;
      ghost var a, i := currAddress, 0;
      while remaining > 0
        invariant 0 <= i == blockSize - remaining && highByte == i % 2 && currAddress == a + i / 2 * 2
        invariant Answering(sent0, flash.mem[a..a + i])
      {
        remaining := remaining - 1;
        Respond(flash.mem[currAddress + highByte], sent0, flash.mem[a..a + i]);
        SliceSnoc(flash.mem, a, a + i);
        if highByte != 0 {
          currAddress := currAddress + 2;
        }
        highByte := 1 - highByte;
        i := i + 1;
      }
    }

    /** The EEPROM branch of a block read. */
    method ReadEeprom(blockSize: word, ghost sent0: seq<seq<byte>>)
      requires currAddress % 2 == 0 && currAddress / 2 + blockSize <= |eeprom.mem| && Answering(sent0, [])
      modifies this`currAddress, tx
      ensures currAddress == old(currAddress) + 2 * blockSize
      ensures Answering(sent0, eeprom.mem[old(currAddress) / 2..old(currAddress) / 2 + blockSize])
    {
      var remaining := blockSize;
      ghost var a, i := currAddress / 2, 0;
      while remaining > 0
        invariant 0 <= i == blockSize - remaining && currAddress == 2 * (a + i)
        invariant Answering(sent0, eeprom.mem[a..a + i])
      {
        remaining := remaining - 1;
        Respond(eeprom.mem[currAddress / 2], sent0, eeprom.mem[a..a + i]);
        SliceSnoc(eeprom.mem, a, a + i);
        currAddress := currAddress + 2;
        i := i + 1;
      }
    }

    /** The EEPROM branch of a block write. */
    method StoreEeprom(blockSize: nat)
      requires currAddress % 2 == 0 && currAddress / 2 + blockSize <= |eeprom.mem| && blockSize <= |rx.Stream()|
      modifies this`currAddress, eeprom, rx
      ensures currAddress == old(currAddress) + 2 * blockSize
      ensures eeprom.mem == Overlay(old(eeprom.mem), old(currAddress) / 2, old(rx.Stream())[..blockSize])
      ensures rx.Stream() == old(rx.Stream())[blockSize..]
    {
      var remaining := blockSize;
      ghost var a, i, mem0, input := currAddress / 2, 0, eeprom.mem, rx.Stream();
      while remaining > 0
        invariant 0 <= i == blockSize - remaining && currAddress == 2 * (a + i)
        invariant rx.Stream() == input[i..]
        invariant eeprom.mem == Overlay(mem0, a, input[..i])
      {
        remaining := remaining - 1;
        var b := rx.Fetch();
        OverlaySnoc(mem0, a, input[..i], b);
        assert input[..i] + [b] == input[..i + 1];
        eeprom.Write(currAddress / 2, b);
        currAddress := currAddress + 2;
        i := i + 1;
      }
    }

    /** The byte loop of a flash block write. */
    method LoadBlock(blockSize: nat, ghost mem0: seq<byte>, ghost q: nat, ghost s: nat, ghost fw: seq<byte>)
      requires blockSize <= |rx.Stream()| && blockSize <= flash.pageSize && fw == WholePart(rx.Stream()[..blockSize])
      requires Loading(flash, mem0, q, s, fw, 0, 0) && currAddress == q + s
      modifies this`currAddress, flash, rx
      ensures Loading(flash, mem0, q, s, fw, 0, |fw|) && currAddress == q + s + |fw|
      ensures rx.Stream() == old(rx.Stream())[blockSize..]
    {
      hide Loading;
      var remaining, highByte, lowByte: byte := blockSize, false, 0;
      ghost var k, input := 0, rx.Stream();    // k bytes are loaded
      while remaining > 0
        invariant k % 2 == 0 && 0 <= remaining && k + remaining == if highByte then blockSize - 1 else blockSize
        invariant highByte ==> k < blockSize && lowByte == input[k]
        invariant rx.Stream() == input[blockSize - remaining..]
        invariant Loading(flash, mem0, q, s, fw, 0, k) && currAddress == q + s + k
      {
        remaining := remaining - 1;
        var b := rx.Fetch();
        if highByte {
          LoadWord(flash, currAddress, Word(lowByte, b), mem0, q, s, fw, 0, k);
          currAddress := currAddress + 2;
          k := k + 2;
        } else {
          lowByte := b;
        }
        highByte := !highByte;
      }
    }

    /** The page of the current address is erased and ready to be loaded. */
    method PreparePage(ghost fw: seq<byte>)
      requires flash.Valid() && flash.Blank() && currAddress % 2 == 0 && currAddress < |flash.mem|
      modifies flash
      ensures var p := flash.pageSize;
              flash.Valid() && |flash.mem| == |old(flash.mem)|
              && Loading(flash, WithErased(old(flash.mem), PageStart(p, currAddress), p), PageStart(p, currAddress),
                         Offset(p, currAddress), fw, 0, 0)
    {
      flash.Erase(currAddress);
      BeginLoading(flash, currAddress, fw);
    }

    /** boot_page_write at the end of a block. */
    method CommitBlock(pageStartAddress: nat, ghost mem0: seq<byte>, ghost q: nat, ghost s: nat, ghost block: seq<byte>)
      requires |block| <= flash.pageSize && pageStartAddress == q + s < |flash.mem|
      requires Loading(flash, WithErased(mem0, q, flash.pageSize), q, s, WholePart(block), 0, |WholePart(block)|)
      modifies flash
      ensures flash.Valid() && flash.Blank() && flash.mem == BlockWritten(mem0, flash.pageSize, q + s, block)
    {
      BlockCommitted(mem0, flash.pageSize, q, s, block);
      assert PageStart(flash.pageSize, pageStartAddress) == q by { InPage(flash.pageSize, q, s); }
      flash.Commit(pageStartAddress);
    }

    /** The flash branch of a block write: one page is erased, loaded and committed. */
    method StoreFlash(blockSize: nat)
      requires flash.Valid() && flash.Blank() && currAddress % 2 == 0 && currAddress < |flash.mem|
      requires blockSize <= flash.pageSize && blockSize <= |rx.Stream()|
      modifies this`currAddress, flash, rx
      ensures flash.Valid() && flash.Blank() && currAddress == old(currAddress) + blockSize / 2 * 2
      ensures flash.mem == BlockWritten(old(flash.mem), flash.pageSize, old(currAddress), old(rx.Stream())[..blockSize])
      ensures rx.Stream() == old(rx.Stream())[blockSize..]
    {
      var p, pageStartAddress := flash.pageSize, currAddress;
      ghost var mem0, q, s := flash.mem, PageStart(p, currAddress), Offset(p, currAddress);
      ghost var block := rx.Stream()[..blockSize];
      ghost var fw := WholePart(block);
      PreparePage(fw);
      LoadBlock(blockSize, WithErased(mem0, q, p), q, s, fw);
      CommitBlock(pageStartAddress, mem0, q, s, block);
    }

    /** A block read, after its header. */
    method ReadBlock(memoryType: byte, blockSize: word, ghost sent0: seq<seq<byte>>)
      requires Valid() && Answering(sent0, []) && InRange(flash.pageSize, View(), BlockRead(memoryType, blockSize))
      modifies this`currAddress, tx
      ensures View() == Execute(flash.pageSize, bootStart, old(View()), BlockRead(memoryType, blockSize))
      ensures Answering(sent0, Reply(flash.pageSize, old(View()), BlockRead(memoryType, blockSize)))
    {
      if memoryType == FLASH {
        ReadFlash(blockSize, sent0);
      } else {
        ReadEeprom(blockSize, sent0);
      }
    }

    /** A block write, after its header. */
    method WriteBlock(memoryType: byte, blockSize: word,
                      ghost block: seq<byte>, ghost rest: seq<byte>, ghost sent0: seq<seq<byte>>)
      requires Valid() && Answering(sent0, []) && InRange(flash.pageSize, View(), BlockWrite(memoryType, block))
      requires rx.Stream() == block + rest && |block| == blockSize
      modifies this`currAddress, flash, eeprom, rx, tx
      ensures flash.Valid() && flash.Blank()
      ensures View() == Execute(flash.pageSize, bootStart, old(View()), BlockWrite(memoryType, block))
      ensures Answering(sent0, [ACK]) && rx.Stream() == rest
    {
      assert rx.Stream()[..blockSize] == block && rx.Stream()[blockSize..] == rest;
      if memoryType == FLASH {
        StoreFlash(blockSize);
      } else {
        StoreEeprom(blockSize);
      }
      Respond(ACK, sent0, []);
    }

    /** Block size, high byte first, and memory type. */
    method FetchHeader() returns (blockSize: word, memoryType: byte)
      requires |rx.Stream()| >= 3
      modifies rx
      ensures blockSize == Word(old(rx.Stream())[1], old(rx.Stream())[0]) && memoryType == old(rx.Stream())[2]
      ensures rx.Stream() == old(rx.Stream())[3..]
    {
      var hi := rx.Fetch();
      var lo := rx.Fetch();
      blockSize := Word(lo, hi);
      memoryType := rx.Fetch();
    }

    /** ReadWriteMemoryBlock, after its command byte; `rest` is what follows the block. */
    method MemoryBlock(write: bool, ghost c: Command, ghost rest: seq<byte>, ghost sent0: seq<seq<byte>>)
      requires Valid() && Answering(sent0, []) && InRange(flash.pageSize, View(), c)
      requires c.BlockWrite? || c.BlockRead? || c.UnknownMemory?
      requires write == (c.BlockWrite? || (c.UnknownMemory? && c.write))
      requires rx.Stream() == Encode(c)[1..] + rest
      modifies this`currAddress, flash, eeprom, rx, tx
      ensures flash.Valid() && flash.Blank() && View() == Execute(flash.pageSize, bootStart, old(View()), c)
      ensures Answering(sent0, Reply(flash.pageSize, old(View()), c))
      ensures rx.Stream() == rest
    {
      BlockHeader(flash.pageSize, View(), c);
      var blockSize, memoryType := FetchHeader();
      assert rx.Stream() == Encode(c)[4..] + rest;
      if memoryType != FLASH && memoryType != EEPROM {
        Respond(FAIL, sent0, []);
      } else if !write {
        ReadBlock(memoryType, blockSize, sent0);
      } else {
        WriteBlock(memoryType, blockSize, c.block, rest, sent0);
      }
    }

    /** The commands without a block, after their command byte. */
    method ShortCommand(command: byte, ghost c: Command, ghost rest: seq<byte>, ghost sent0: seq<seq<byte>>)
      requires Valid() && Answering(sent0, []) && InRange(flash.pageSize, View(), c)
      requires !c.BlockWrite? && !c.BlockRead? && !c.UnknownMemory?
      requires command == Encode(c)[0] && rx.Stream() == Encode(c)[1..] + rest
      modifies this, flash, eeprom, rx, tx
      ensures flash.Valid() && flash.Blank() && View() == Execute(flash.pageSize, bootStart, old(View()), c)
      ensures Answering(sent0, Reply(flash.pageSize, old(View()), c))
      ensures rx.Stream() == rest
    {
      if command == 0x45 {
        run := false;
        Respond(ACK, sent0, []);
      } else if command == 0x41 {
        var hi := rx.Fetch();
        var lo := rx.Fetch();
        currAddress := ByteAddress(hi, lo);
        Respond(ACK, sent0, []);
      } else if command == 0x65 {
        EraseApplication(flash, bootStart);
        Respond(ACK, sent0, []);
      } else if command == 0x44 {
        var b := rx.Fetch();
        eeprom.Write(currAddress / 2, b);
        currAddress := currAddress + 2;
        Respond(ACK, sent0, []);
      } else if command == 0x64 {
        Respond(eeprom.mem[currAddress / 2], sent0, []);
        currAddress := currAddress + 2;
      } else {
        assert command == 27;
      }
    }

    /** CDC_Task: one command, its answer as a complete transfer, and the acknowledgement, which drops
        whatever else the last packet held. */
    method Task(ghost c: Command, ghost rest: seq<byte>) returns (ghost dropped: seq<byte>)
      requires Valid() && InRange(flash.pageSize, View(), c)
      requires rx.Stream() == Encode(c) + rest
      modifies this, flash, eeprom, rx, tx
      ensures Valid() && View() == Execute(flash.pageSize, bootStart, old(View()), c)
      ensures old(tx.sent) <= tx.sent
      ensures IsTransfer(tx.sent[|old(tx.sent)|..], Reply(flash.pageSize, old(View()), c))
      ensures rest == dropped + rx.Stream() && rx.bank == []
    {
      ghost var sent0, reply := tx.sent, Reply(flash.pageSize, View(), c);
      var command := rx.Fetch();
      assert rx.Stream() == Encode(c)[1..] + rest;
      if command == 0x42 || command == 0x67 {
        MemoryBlock(command == 0x42, c, rest, sent0);
      } else {
        ShortCommand(command, c, rest, sent0);
      }
      Flush(sent0, reply);
      dropped := rx.Acknowledge();
    }
  }
}
