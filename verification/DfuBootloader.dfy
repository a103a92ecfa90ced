/**
 The DFU class bootloader: static variables updated by its control-request handlers, with the loops
 that move words and bytes between endpoint packets, the flash page buffer and the EEPROM.
 Every handler is proved to compute the function of the same name in `DfuSpec`.
 */
module DfuBootloader {
  import opened Bytes
  import opened Hardware
  import opened FlashImage
  import Spec = DfuSpec

  class Bootloader {
    const part: Spec.Part
    const flash: Flash
    const eeprom: Eeprom
    const data: array<byte>

    var secure: bool
    var state: Spec.DfuState
    var status: Spec.DfuStatus
    var waitForExit: bool
    var run: bool
    var command: byte
    var dataSize: word
    var response: byte
    var page64k: byte
    var startAddr: word
    var endAddr: word

    constructor (part: Spec.Part, secureMode: bool, flash: Flash, eeprom: Eeprom)
      requires part.Valid() && flash.Valid() && flash.pageSize == part.pageSize && flash.Blank()
      requires part.bootStart <= |flash.mem| && |eeprom.mem| <= 0x1_0000
      ensures Valid() && View().Reachable()
      ensures this.flash == flash && this.eeprom == eeprom && this.part == part && fresh(data)
      ensures secure == secureMode && state == Spec.Idle && status == Spec.Ok && !waitForExit && run
      ensures page64k == 0 && startAddr == 0 && endAddr == 0 && command == 0 && response == 0
    {
      this.part, this.flash, this.eeprom := part, flash, eeprom;
      data := new byte[5](_ => 0);
      secure, state, status, waitForExit, run := secureMode, Spec.Idle, Spec.Ok, false, true;
      command, dataSize, response, page64k, startAddr, endAddr := 0, 0, 0, 0, 0, 0;
    }

    ghost predicate Valid()
      reads this, flash, eeprom, data
    {
      && flash.Valid() && flash.pageSize == part.pageSize
      && flash.Blank()
      && data.Length == 5
      && View().Fits(part)
    }

    ghost function View(): Spec.Session
      reads this, flash, eeprom, data
    {
      Spec.Session(secure, state, status, waitForExit, run, command, data[..], dataSize, response,
                   page64k, startAddr, endAddr, flash.mem, eeprom.mem)
    }

    /** DiscardFillerBytes: an iteration that has to fetch a packet discards nothing. */
    method DiscardFiller(out: ControlOut, count: nat)
      requires out.Valid() && out.size == Spec.PACKET && count <= Spec.PACKET
      requires |out.bank| >= count || (out.pending != [] && |out.bank| + |out.pending| >= count)
      modifies out
      ensures (out.bank, out.pending) == Spec.Discarded(old(out.bank), old(out.pending), count)
    {
      ghost var b, p := out.bank, out.pending;
      var left := count;
      while left > 0
        invariant 0 <= left <= count && (out.bank, out.pending) == Spec.Discarded(b, p, count - left)
      {
        if out.bank == [] {
          out.NextPacket();
        } else {
          var _ := out.Read8();
        }
        left := left - 1;
      }
    }

    /** One turn of the word loop: the next word of the stage is stored. */
    method TransferWord(out: ControlOut, currAddress: nat, pageAddress: nat, wordsInPage: nat, last: bool,
                        ghost mem0: seq<byte>, ghost q: nat, ghost s: nat, ghost fw: seq<byte>,
                        ghost c: nat, ghost pos: nat)
      returns (pageAddress': nat, wordsInPage': nat, ghost c': nat)
      requires out.Valid() && out.size == Spec.PACKET && |out.Stage()| >= 2
      requires out.pending != [] ==> |out.bank| % 2 == 0
      requires pos % 2 == 0 && currAddress == q + s + pos && pageAddress == q + s + c
      requires 2 * wordsInPage == pos - c < flash.pageSize
      requires Loading(flash, mem0, q, s, fw, c, pos) && pos + 2 <= |fw| && q + |fw| <= |flash.mem|
      requires out.Stage()[0] == fw[pos] && out.Stage()[1] == fw[pos + 1] && last == (pos + 2 == |fw|)
      modifies flash, out
      ensures out.Valid() && out.Stage() == old(out.Stage())[2..] && (out.pending != [] ==> |out.bank| % 2 == 0)
      ensures flash.Valid() && |flash.mem| == old(|flash.mem|)
      ensures last ==> flash.Blank() && flash.mem == Programmed(mem0, flash.pageSize, q + s, fw)
      ensures !last ==> Loading(flash, mem0, q, s, fw, c', pos + 2) && pageAddress' == q + s + c'
                        && 2 * wordsInPage' == pos + 2 - c' < flash.pageSize
    {
      var w := out.NextWord();
      pageAddress', wordsInPage', c' :=
        StoreWord(flash, w, currAddress, pageAddress, wordsInPage, last, mem0, q, s, fw, c, pos);
    }

    /** The word loop of a flash download: words go to the page buffer, full pages to flash. */
    method ProgramWords(out: ControlOut, start: nat, words: nat, ghost q: nat, ghost s: nat, ghost fw: seq<byte>)
      requires out.Valid() && out.size == Spec.PACKET && out.bank == []
      requires start == q + s && 0 < 2 * words <= |out.pending| && q + 2 * words <= |flash.mem|
      requires fw == out.pending[..2 * words] && Loading(flash, flash.mem, q, s, fw, 0, 0)
      modifies flash, out
      ensures flash.Valid() && flash.Blank()
      ensures flash.mem == Programmed(old(flash.mem), flash.pageSize, start, fw)
      ensures out.Valid() && out.Stage() == old(out.pending)[2 * words..]
    {
      var p := flash.pageSize;
      var wordsRemaining, wordsInPage := words, 0;
      var currAddress, pageAddress := start, start;
      ghost var stage, mem0 := out.pending, flash.mem;
      assert flash.Valid() && q + |fw| <= |flash.mem|;
      hide Loading, Programmed;
      ghost var c: nat, pos: nat := 0, 0;
      while wordsRemaining > 0
        invariant flash.Valid() && out.Valid() && |flash.mem| == |mem0|
        invariant 0 <= wordsRemaining <= words && pos == 2 * (words - wordsRemaining) && currAddress == start + pos
        invariant out.Stage() == stage[pos..] && (out.pending != [] ==> |out.bank| % 2 == 0)
        invariant wordsRemaining > 0 ==>
                    Loading(flash, mem0, q, s, fw, c, pos) && pageAddress == start + c && 2 * wordsInPage == pos - c < p
        invariant wordsRemaining == 0 ==> flash.Blank() && flash.mem == Programmed(mem0, p, start, fw)
      {
        wordsRemaining := wordsRemaining - 1;
        DropWord(stage, pos);
        pageAddress, wordsInPage, c :=
          TransferWord(out, currAddress, pageAddress, wordsInPage, wordsRemaining == 0, mem0, q, s, fw, c, pos);
        currAddress, pos := currAddress + 2, pos + 2;
      }
    }

    /** The flash branch of a download, whose first page has been erased. */
    method ProgramFlash(out: ControlOut, start: nat, words: nat)
      requires flash.Valid() && flash.Blank() && out.Valid() && out.size == Spec.PACKET && out.bank == []
      requires start % 2 == 0 && 0 < 2 * words <= |out.pending|
      requires PageStart(flash.pageSize, start) + 2 * words <= |flash.mem|
      requires PageStart(flash.pageSize, start) in flash.erased
      requires flash.mem == WithErased(flash.mem, PageStart(flash.pageSize, start), flash.pageSize)
      modifies flash, out
      ensures flash.Valid() && flash.Blank()
      ensures flash.mem == Programmed(old(flash.mem), flash.pageSize, start, old(out.pending)[..2 * words])
      ensures out.Valid() && out.Stage() == old(out.pending)[2 * words..]
    {
      ghost var fw := out.pending[..2 * words];
      BeginLoading(flash, start, fw);
      ProgramWords(out, start, words, PageStart(flash.pageSize, start), Offset(flash.pageSize, start), fw);
    }

    /** The EEPROM branch of a download, which moves the start address along. */
    method ProgramEeprom(out: ControlOut, n: nat)
      requires out.Valid() && n <= |out.Stage()| && startAddr + n <= |eeprom.mem| <= 0x1_0000
      modifies this`startAddr, eeprom, out
      ensures startAddr == (old(startAddr) + n) % 0x1_0000
      ensures eeprom.mem == Overlay(old(eeprom.mem), old(startAddr), old(out.Stage())[..n])
      ensures out.Valid() && out.Stage() == old(out.Stage())[n..]
    {
      var bytesRemaining := n;
      ghost var stage, mem0, start: nat, i: nat := out.Stage(), eeprom.mem, startAddr, 0;
      while bytesRemaining > 0
        invariant i == n - bytesRemaining && out.Valid() && startAddr == (start + i) % 0x1_0000
        invariant out.Stage() == stage[i..]
        invariant eeprom.mem == Overlay(mem0, start, stage[..i])
      {
        bytesRemaining := bytesRemaining - 1;
        var b := out.NextByte();
        OverlaySnoc(mem0, start, stage[..i], b);
        assert stage[..i] + [b] == stage[..i + 1];
        eeprom.Write(startAddr, b);
        startAddr, i := (startAddr + 1) % 0x1_0000, i + 1;
      }
    }

    /** The blank check of ProcessMemReadCommand. */
    method BlankCheck()
      requires Valid()
      modifies this`page64k, this`startAddr, this`state, this`status
      ensures var a := Spec.ScanBlank(flash.mem, part.bootStart, 0);
              if a < part.bootStart then
                page64k == a / 0x1_0000 % 256 && startAddr == a % 0x1_0000
                && state == Spec.Error && status == Spec.ErrCheckErased
              else
                page64k == old(page64k) && startAddr == old(startAddr)
                && state == old(state) && status == old(status)
    {
      var currFlashAddress := 0;
      while currFlashAddress < part.bootStart
        invariant 0 <= currFlashAddress <= part.bootStart
        invariant Spec.ScanBlank(flash.mem, part.bootStart, 0)
                  == Spec.ScanBlank(flash.mem, part.bootStart, currFlashAddress)
        invariant page64k == old(page64k) && startAddr == old(startAddr)
        invariant state == old(state) && status == old(status)
      {
        if flash.mem[currFlashAddress] != ERASED {
          page64k := currFlashAddress / 0x1_0000 % 256;
          startAddr := currFlashAddress % 0x1_0000;
          state, status := Spec.Error, Spec.ErrCheckErased;
          break;
        }
        currFlashAddress := currFlashAddress + 1;
      }
    }

    /** LoadStartEndAddresses */
    method LoadAddresses()
      requires data.Length == 5
      modifies this`startAddr, this`endAddr
      ensures View() == Spec.LoadAddresses(old(View()))
    {
      startAddr, endAddr := Word(data[2], data[1]), Word(data[4], data[3]);
    }

    /** The page of the start address is erased. */
    method EraseFirstPage()
      requires Valid() && View().FlashAddr() < |flash.mem|
      modifies flash
      ensures var q := PageStart(part.pageSize, View().FlashAddr());
              && q in flash.erased && Valid()
              && View() == old(View()).(flash := WithErased(old(flash.mem), q, part.pageSize))
    {
      flash.Erase(page64k * 0x1_0000 + startAddr);
    }

    /** ProcessMemProgCommand */
    method MemProg()
      requires Valid()
      requires data[0] == 0 ==> Spec.LoadAddresses(View()).FlashAddr() < |flash.mem|
      modifies this`startAddr, this`endAddr, this`state, flash
      ensures Valid() && View() == Spec.MemProg(part, old(View()))
      ensures data[0] == 0 ==> PageStart(part.pageSize, View().FlashAddr()) in flash.erased
    {
      hide PageStart, WithErased;
      if data[0] == 0 || data[0] == 1 {
        LoadAddresses();
        if data[0] == 0 {
          EraseFirstPage();
        }
        state := Spec.DnloadIdle;
      }
    }

    /** ProcessMemReadCommand */
    method MemRead()
      requires Valid()
      modifies this`page64k, this`startAddr, this`endAddr, this`state, this`status
      ensures Valid() && View() == Spec.MemRead(part, old(View()))
    {
      if data[0] == 0 || data[0] == 2 {
        LoadAddresses();
        state := Spec.UploadIdle;
      } else if data[0] == 1 {
        BlankCheck();
      }
    }

    /** ProcessWriteCommand */
    method WriteCommand()
      requires Valid()
      modifies this`waitForExit, this`run, this`secure, flash
      ensures Valid() && View() == Spec.WriteCommand(part, old(View()))
    {
      if data[0] == 3 {
        waitForExit := true;
        if dataSize == 0 && data[1] != 0 {
          run := false;
        }
      } else if data[0] == 0 && data[1] == 0xFF {
        EraseApplication(flash, part.bootStart);
        secure := false;
      }
    }

    /** ProcessReadCommand */
    method ReadCommand()
      requires Valid()
      modifies this`response
      ensures Valid() && View() == Spec.ReadCommand(part, old(View()))
    {
      if data[0] == 0 && data[1] < |part.info| {
        response := part.info[data[1]];
      } else if data[0] == 1 && 0x30 <= data[1] < 0x30 + |part.signature| {
        response := part.signature[data[1] - 0x30];
      }
    }

    /** ProcessBootloaderCommand */
    method ProcessCommand()
      requires Valid() && Spec.CommandInRange(View())
      modifies this, flash
      ensures Valid() && View() == Spec.ProcessCommand(part, old(View()))
      ensures !old(secure) && command == Spec.PROG_START && data[0] == 0 ==>
                PageStart(part.pageSize, View().FlashAddr()) in flash.erased
    {
      if secure && !((command == Spec.WRITE && data[0] == 0 && data[1] == 0xFF) || command == Spec.READ) {
        state, status := Spec.Error, Spec.ErrWrite;
        return;
      }
      if command == Spec.PROG_START {
        MemProg();
      } else if command == Spec.DISP_DATA {
        MemRead();
      } else if command == Spec.WRITE {
        WriteCommand();
      } else if command == Spec.READ {
        ReadCommand();
      } else if command == Spec.CHANGE_BASE_ADDR && data[0] == 3 && data[1] == 0 {
        page64k := data[2];
      }
    }

    /** The command byte and up to five parameters from the first packet of the data stage. */
    method LoadHeader(out: ControlOut)
      requires Valid() && out.Valid() && out.size == Spec.PACKET && out.bank == []
      requires 0 < |out.pending| < 0x1_0000
      modifies this`command, this`dataSize, data, out
      ensures Valid() && View() == Spec.LoadHeader(old(View()), old(out.pending))
      ensures old(|out.pending|) >= Spec.PACKET ==>
                out.bank == old(out.pending)[6..Spec.PACKET] && out.pending == old(out.pending)[Spec.PACKET..]
    {
      ghost var stage, data0 := out.pending, data[..];
      dataSize := |out.pending|;
      out.NextPacket();
      command := out.Read8();
      dataSize := dataSize - 1;
      var dataByte := 0;
      while dataByte < 5 && out.bank != []
        invariant 0 <= dataByte <= Spec.HeaderLength(stage)
        invariant out.bank == stage[1 + dataByte..Min(Spec.PACKET, |stage|)]
        invariant out.pending == stage[Min(Spec.PACKET, |stage|)..]
        invariant forall j :: 0 <= j < 5 ==> data[j] == if j < dataByte then stage[1 + j] else data0[j]
        invariant command == stage[0] && dataSize == |stage| - 1 - dataByte
      {
        data[dataByte] := out.Read8();
        dataSize := dataSize - 1;
        dataByte := dataByte + 1;
      }
      assert dataByte == Spec.HeaderLength(stage);
      assert data[..] == stage[1..1 + dataByte] + data0[dataByte..];
    }

    /** The filler and the alignment bytes in front of the firmware. */
    method SkipFillers(out: ControlOut, ghost stage: seq<byte>)
      requires out.Valid() && out.size == Spec.PACKET && |stage| >= Spec.PACKET + startAddr % Spec.PACKET
      requires out.bank == stage[6..Spec.PACKET] && out.pending == stage[Spec.PACKET..]
      modifies out
      ensures out.Stage() == stage[Spec.ReadFrom(startAddr)..]
      ensures startAddr % Spec.PACKET == 0 ==> out.bank == []
    {
      DiscardFiller(out, Spec.FILLER);
      assert out.bank == [] && out.pending == stage[Spec.PACKET..];
      DiscardFiller(out, startAddr % Spec.PACKET);
      ghost var k, rest := startAddr % Spec.PACKET, stage[Spec.PACKET..];
      ghost var m := Min(Spec.PACKET, |rest|);
      if k > 0 {
        // at a packet boundary all but one of the turns discard a byte
        assert out.bank == rest[..m][k - 1..] && out.pending == rest[m..];
        assert rest[..m][k - 1..] + rest[m..] == rest[k - 1..];
      }
    }

    /** A download into flash, from the first word to the end address. */
    method DownloadFlash(out: ControlOut, ghost stage: seq<byte>)
      requires Valid() && out.Valid() && out.size == Spec.PACKET && data[0] == 0
      requires Spec.StageFits(part, View(), stage)
      requires out.Stage() == stage[Spec.ReadFrom(startAddr)..]
      requires startAddr % Spec.PACKET == 0 ==> out.bank == []
      requires Spec.Consumed(View()) > 0 ==>
                 var q := PageStart(part.pageSize, View().FlashAddr());
                 q in flash.erased && flash.mem == WithErased(flash.mem, q, part.pageSize)
      modifies this`startAddr, flash, out
      ensures Valid() && View() == Spec.Download(part, old(View()), stage)
      ensures out.Valid() && |out.Stage()| >= Spec.SUFFIX
    {
      var wordsRemaining := (endAddr - startAddr + 1) % 0x1_0000 / 2;
      Spec.FlashDownloadIs(part, View(), stage, wordsRemaining);
      if wordsRemaining > 0 {
        var start := page64k * 0x1_0000 + startAddr;
        assert start == View().FlashAddr();
        ProgramFlash(out, start, wordsRemaining);
      }
      startAddr := endAddr;
    }

    /** A download into EEPROM. */
    method DownloadEeprom(out: ControlOut, ghost stage: seq<byte>)
      requires Valid() && out.Valid() && data[0] != 0
      requires Spec.StageFits(part, View(), stage)
      requires out.Stage() == stage[Spec.ReadFrom(startAddr)..]
      modifies this`startAddr, eeprom, out
      ensures Valid() && View() == Spec.Download(part, old(View()), stage)
      ensures out.Valid() && |out.Stage()| >= Spec.SUFFIX
    {
      Spec.EepromDownloadIs(part, View(), stage, out.Stage());
      hide Spec.Download, Spec.StageFits, Overlay;
      ProgramEeprom(out, (endAddr - startAddr + 1) % 0x1_0000);
    }

    /** The data stage of a download, after its header. */
    method Download(out: ControlOut, ghost stage: seq<byte>)
      requires Valid() && out.Valid() && out.size == Spec.PACKET
      requires Spec.StageFits(part, View(), stage)
      requires out.bank == stage[6..Spec.PACKET] && out.pending == stage[Spec.PACKET..]
      requires data[0] == 0 && Spec.Consumed(View()) > 0 ==>
                 var q := PageStart(part.pageSize, View().FlashAddr());
                 q in flash.erased && flash.mem == WithErased(flash.mem, q, part.pageSize)
      modifies this`startAddr, flash, eeprom, out
      ensures Valid() && View() == Spec.Download(part, old(View()), stage)
    {
      SkipFillers(out, stage);
      if data[0] == 0 {
        DownloadFlash(out, stage);
      } else {
        DownloadEeprom(out, stage);
      }
      DiscardFiller(out, Spec.SUFFIX);
    }

    /** The command part of DFU_DNLOAD: the bootloader's last command, then the one in the data stage. */
    method ReceiveCommand(out: ControlOut)
      requires Valid() && View().Reachable()
      requires out.Valid() && out.size == Spec.PACKET && out.bank == []
      requires Spec.Completes(part, View(), out.pending)
      modifies this, flash, data, out
      ensures Valid() && View() == Spec.AfterCommand(part, old(View()), old(out.pending))
      ensures old(|out.pending|) >= Spec.PACKET ==>
                out.bank == old(out.pending)[6..Spec.PACKET] && out.pending == old(out.pending)[Spec.PACKET..]
      ensures var s, stage := old(View()), old(out.pending);
              stage != [] && !Spec.LoadHeader(Spec.AfterExit(part, s, |stage|), stage).secure
              && command == Spec.PROG_START && data[0] == 0 ==>
                PageStart(part.pageSize, View().FlashAddr()) in flash.erased
    {
      ghost var s0, stage := View(), out.pending;
      dataSize := |out.pending|;
      if waitForExit {
        ProcessCommand();
        waitForExit := false;
      }
      assert View() == Spec.AfterExit(part, s0, |stage|);
      if dataSize != 0 {
        LoadHeader(out);
        ProcessCommand();
      }
    }

    /** DFU_DNLOAD */
    method DnLoad(out: ControlOut)
      requires Valid() && View().Reachable()
      requires out.Valid() && out.size == Spec.PACKET && out.bank == []
      requires Spec.Completes(part, View(), out.pending)
      modifies this, flash, eeprom, data, out
      ensures Valid() && View() == Spec.DnLoad(part, old(View()), old(out.pending))
    {
      ghost var s0, stage := View(), out.pending;
      ReceiveCommand(out);
      hide Spec.AfterCommand, Spec.AfterExit, Spec.LoadHeader, Spec.Download;
      if state == Spec.DnloadIdle {
        if dataSize == 0 {
          state := Spec.Idle;
        } else {
          if Spec.Consumed(View()) > 1 {
            Spec.ProgrammingIsPrepared(part, s0, stage);
          }
          Download(out, stage);
        }
      }
    }

    /** One word into the IN bank, which is sent first when it is full. */
    method PutWord(tx: InEndpoint, w: word)
      requires tx.size == Spec.PACKET && |tx.bank| <= Spec.PACKET && |tx.bank| % 2 == 0
      requires forall i :: 0 <= i < |tx.sent| ==> |tx.sent[i]| == Spec.PACKET
      modifies tx
      ensures 0 < |tx.bank| <= Spec.PACKET && |tx.bank| % 2 == 0
      ensures forall i :: 0 <= i < |tx.sent| ==> |tx.sent[i]| == Spec.PACKET
      ensures tx.Written() == old(tx.Written()) + [w % 256, w / 256]
    {
      if |tx.bank| == Spec.PACKET {
        tx.Send();
      }
      tx.Write8(w % 256);
      tx.Write8(w / 256);
    }

    /** The flash branch of DFU_UPLOAD. */
    method UploadFlash(tx: InEndpoint, start: nat, words: nat)
      requires tx.size == Spec.PACKET && tx.bank == [] && tx.sent == []
      requires start + 2 * words <= |flash.mem|
      modifies tx
      ensures tx.Written() == flash.mem[start..][..2 * words] && |tx.bank| <= Spec.PACKET
      ensures forall i :: 0 <= i < |tx.sent| ==> |tx.sent[i]| == Spec.PACKET
    {
      var wordsRemaining, currAddress := words, start;
      while wordsRemaining > 0
        invariant currAddress == start + 2 * (words - wordsRemaining)
        invariant |tx.bank| <= Spec.PACKET && |tx.bank| % 2 == 0
        invariant forall i :: 0 <= i < |tx.sent| ==> |tx.sent[i]| == Spec.PACKET
        invariant tx.Written() == flash.mem[start..currAddress]
      {
        wordsRemaining := wordsRemaining - 1;
        PutWord(tx, Word(flash.mem[currAddress], flash.mem[currAddress + 1]));
        WordBytes(flash.mem[currAddress], flash.mem[currAddress + 1]);
        SliceSnoc(flash.mem, start, currAddress);
        SliceSnoc(flash.mem, start, currAddress + 1);
        currAddress := currAddress + 2;
      }
      assert flash.mem[start..currAddress] == flash.mem[start..][..2 * words];
    }

    /** The EEPROM branch of DFU_UPLOAD, which moves the start address along. */
    method UploadEeprom(tx: InEndpoint, n: nat)
      requires tx.size == Spec.PACKET && tx.bank == [] && tx.sent == []
      requires startAddr + n <= |eeprom.mem| <= 0x1_0000
      modifies this`startAddr, tx
      ensures startAddr == (old(startAddr) + n) % 0x1_0000
      ensures tx.Written() == eeprom.mem[old(startAddr)..][..n] && |tx.bank| <= Spec.PACKET
      ensures forall i :: 0 <= i < |tx.sent| ==> |tx.sent[i]| == Spec.PACKET
    {
      var bytesRemaining := n;
      ghost var start: nat, i: nat := startAddr, 0;
      while bytesRemaining > 0
        invariant i == n - bytesRemaining && startAddr == (start + i) % 0x1_0000
        invariant |tx.bank| <= Spec.PACKET
        invariant forall i :: 0 <= i < |tx.sent| ==> |tx.sent[i]| == Spec.PACKET
        invariant tx.Written() == eeprom.mem[start..start + i]
      {
        bytesRemaining := bytesRemaining - 1;
        if |tx.bank| == Spec.PACKET {
          tx.Send();
        }
        tx.Write8(eeprom.mem[startAddr]);
        SliceSnoc(eeprom.mem, start, start + i);
        startAddr, i := (startAddr + 1) % 0x1_0000, i + 1;
      }
    }

    /** The memory branch of DFU_UPLOAD. */
    method UploadMemory(tx: InEndpoint)
      requires Valid() && Spec.UploadInRange(View()) && state == Spec.UploadIdle
      requires tx.size == Spec.PACKET && tx.bank == [] && tx.sent == []
      modifies this`startAddr, tx
      ensures View() == Spec.UpLoad(old(View()), dataSize).(state := state)
      ensures tx.Written() == Spec.UpLoadReply(old(View()))
      ensures forall i :: 0 <= i < |tx.sent| ==> |tx.sent[i]| == Spec.PACKET
    {
      var bytesRemaining := (endAddr - startAddr + 1) % 0x1_0000;
      if data[0] == 0 {
        UploadFlash(tx, page64k * 0x1_0000 + startAddr, bytesRemaining / 2);
        startAddr := endAddr;
      } else if data[0] == 2 {
        UploadEeprom(tx, bytesRemaining);
      }
    }

    /** DFU_UPLOAD when no memory is to be read: the address a blank check stopped at, or the response of
        the last read command. */
    method UploadResponse(tx: InEndpoint)
      requires Valid() && state != Spec.UploadIdle
      requires tx.size == Spec.PACKET && tx.bank == [] && tx.sent == []
      modifies tx
      ensures tx.Written() == Spec.UpLoadReply(View()) && tx.sent == []
    {
      if state == Spec.Error && data[0] == 1 {
        tx.Write8(startAddr % 256);
        tx.Write8(startAddr / 256);
      } else {
        tx.Write8(response);
      }
    }

    /** Endpoint_ClearIN at the end of an upload: everything written has been sent, in full packets. */
    method SendLast(tx: InEndpoint)
      requires forall i :: 0 <= i < |tx.sent| ==> |tx.sent[i]| == Spec.PACKET
      modifies tx
      ensures Flatten(tx.sent) == old(tx.Written()) && Spec.FullPackets(tx.sent)
    {
      tx.Send();
      assert tx.Written() == Flatten(tx.sent);
    }

    /** DFU_UPLOAD */
    method UpLoad(tx: InEndpoint, wLength: word)
      requires Valid() && Spec.UploadInRange(View())
      requires tx.size == Spec.PACKET && tx.bank == [] && tx.sent == []
      modifies this`startAddr, this`state, this`dataSize, tx
      ensures Valid() && View() == Spec.UpLoad(old(View()), wLength)
      ensures Flatten(tx.sent) == Spec.UpLoadReply(old(View())) && Spec.FullPackets(tx.sent)
    {
      Spec.ReplyIgnoresSize(View(), wLength);
      dataSize := wLength;
      if state == Spec.UploadIdle {
        UploadMemory(tx);
        state := Spec.Idle;
      } else {
        UploadResponse(tx);
      }
      SendLast(tx);
    }

    /** The six bytes of DFU_GETSTATUS: status, poll timeout, state and the index of no string. */
    method SendStatus(tx: InEndpoint)
      requires tx.size == Spec.PACKET && tx.bank == [] && tx.sent == []
      modifies tx
      ensures Flatten(tx.sent) == [Spec.StatusCode(status), 0, 0, 0, Spec.StateCode(state), 0]
    {
      tx.Write8(Spec.StatusCode(status));
      tx.Write8(0);
      tx.Write8(0);
      tx.Write8(0);
      tx.Write8(Spec.StateCode(state));
      tx.Write8(0);
      SendLast(tx);
    }

    /** The requests that only tell or reset status and state. */
    method StatusRequest(r: Spec.Request, tx: InEndpoint)
      requires Valid() && !r.DnLoadRequest? && !r.UpLoadRequest?
      requires tx.size == Spec.PACKET && tx.bank == [] && tx.sent == []
      modifies this`state, this`status, this`dataSize, tx
      ensures Valid() && View() == Spec.Handle(part, old(View()), r)
      ensures Flatten(tx.sent) == Spec.Reply(part, old(View()), r)
    {
      dataSize := r.length;
      match r {
        case GetStatus(_) =>
          SendStatus(tx);
        case ClrStatus(_) =>
          status := Spec.Ok;
        case GetState(_) =>
          tx.Write8(Spec.StateCode(state));
          SendLast(tx);
        case Abort(_) =>
          state := Spec.Idle;
      }
    }

    /** EVENT_USB_Device_ControlRequest: any request the device completes is answered as specified and
        keeps the invariant. */
    method ControlRequest(r: Spec.Request, out: ControlOut, tx: InEndpoint)
      requires Valid() && View().Reachable() && Spec.Enabled(part, View(), r)
      requires out.Valid() && out.size == Spec.PACKET && out.bank == []
      requires r.DnLoadRequest? ==> out.pending == r.stage
      requires tx.size == Spec.PACKET && tx.bank == [] && tx.sent == []
      modifies this, flash, eeprom, data, out, tx
      ensures Valid() && View().Reachable() && View() == Spec.Handle(part, old(View()), r)
      ensures Flatten(tx.sent) == Spec.Reply(part, old(View()), r)
    {
      Spec.HandleKeeps(part, View(), r);
      match r {
        case DnLoadRequest(_) => DnLoad(out);
        case UpLoadRequest(n) => UpLoad(tx, n);
        case _ => StatusRequest(r, tx);
      }
    }
  }
}
