/**
 The HID bootloader and the host program that drives it: a file of Intel HEX lines ends up in flash.
 */
module HidLoader {
  import opened Bytes
  import opened Hardware
  import opened FlashImage
  import opened IntelHex
  import opened IntelHexTheorems

  const EP_SIZE := 8                          // FIXED_CONTROL_ENDPOINT_SIZE
  const START_APPLICATION: word := 0xFFFF     // COMMAND_STARTAPPLICATION

  // ---------------------------------------------------------------- addresses on the wire

  /** The parts the host knows, with their block sizes. */
  predicate IsPart(codeSize: nat, block: nat) {
    (block == 128 && (codeSize == 0x2000 || codeSize == 0x4000 || codeSize == 0x8000))
    || (block == 256 && (codeSize == 0x1_0000 || codeSize == 0x2_0000))
  }

  /** How the host spells a block address: two bytes, of the address itself or of its upper part. */
  function HostAddress(codeSize: nat, addr: nat): (byte, byte) {
    if codeSize < 0x1_0000 then (addr % 256, addr / 256 % 256) else (addr / 256 % 256, addr / 0x1_0000 % 256)
  }

  /** How the device reads it: parts whose flash ends above 0xFFFF take it for the upper part. */
  function DeviceAddress(codeSize: nat, w: word): nat {
    if codeSize - 1 > 0xFFFF then w as int * 256 else w
  }

  /** The device reads the address the host means. */
  predicate Agrees(codeSize: nat, addr: nat) {
    var (lo, hi) := HostAddress(codeSize, addr);
    DeviceAddress(codeSize, Word(lo, hi)) == addr
  }

  lemma SmallAgrees(codeSize: nat, addr: nat)
    requires addr < codeSize < 0x1_0000
    ensures Agrees(codeSize, addr)
  {
    assert addr / 256 % 256 == addr / 256;
  }

  lemma LargeAgrees(addr: nat)
    requires addr < 0x2_0000 && addr % 256 == 0
    ensures Agrees(0x2_0000, addr)
  {
    var k := addr / 256;
    assert addr / 0x1_0000 == k / 256;
    assert k / 256 % 256 == k / 256;
    assert k == k % 256 + 256 * (k / 256);
  }

  lemma NotAgrees(addr: nat)
    requires 0 < addr < 0x1_0000 && addr % 256 == 0
    ensures var (lo, hi) := HostAddress(0x1_0000, addr); DeviceAddress(0x1_0000, Word(lo, hi)) == addr / 256 < 256
    ensures !Agrees(0x1_0000, addr)
  {
    assert addr / 0x1_0000 == 0 && addr / 256 % 256 == addr / 256;
  }

  /** Host and device agree on all block addresses of the part. */
  ghost predicate AllAgree(codeSize: nat, block: nat)
    requires 0 < block
  {
    forall addr: nat :: addr < codeSize && Offset(block, addr) == 0 ==> Agrees(codeSize, addr)
  }

  /** Host and device agree on every block address of a part exactly when it is not the 64 KiB one. */
  lemma AddressesAgree(codeSize: nat, block: nat)
    requires IsPart(codeSize, block)
    ensures AllAgree(codeSize, block) <==> codeSize != 0x1_0000
  {
    if codeSize == 0x1_0000 {
      NotAgrees(256);
      assert Offset(256, 256) == 0;
    } else {
      forall addr: nat | addr < codeSize && Offset(block, addr) == 0 ensures Agrees(codeSize, addr) {
        OffsetIs256(addr);
        if codeSize == 0x2_0000 { LargeAgrees(addr); } else { SmallAgrees(codeSize, addr); }
      }
    }
  }

  // ---------------------------------------------------------------- the device

  /** A page of `bytes` was written to `addr`. At an even address they are all in flash; at an odd one the page is
      left unspecified. Either way no other page has changed. */
  ghost predicate PageWritten(mem0: seq<byte>, mem: seq<byte>, p: nat, addr: nat, bytes: seq<byte>)
    requires 0 < p
  {
    var q := PageStart(p, addr);
    && |mem| == |mem0|
    && (addr % 2 == 0 ==> mem == Programmed(mem0, p, addr, bytes))
    && (forall a :: 0 <= a < |mem| && !(q <= a < q + p) ==> mem[a] == mem0[a])
  }

  class Device {
    const flash: Flash
    const codeSize: nat        // FLASHEND + 1
    var run: bool

    constructor (flash: Flash, codeSize: nat)
      requires flash.Valid() && flash.Blank() && IsPart(codeSize, flash.pageSize) && codeSize <= |flash.mem|
      ensures Valid() && this.flash == flash && this.codeSize == codeSize && run
    {
      this.flash, this.codeSize, run := flash, codeSize, true;
    }

    ghost predicate Valid()
      reads this, flash
    {
      flash.Valid() && flash.Blank() && IsPart(codeSize, flash.pageSize) && codeSize <= |flash.mem|
    }

    /** One word goes to the page buffer. */
    method FillWord(addr: nat, w: word, ghost mem0: seq<byte>, ghost q: nat, ghost s: nat, ghost fw: seq<byte>,
                    ghost pos: nat)
      requires flash.Valid() && pos % 2 == 0 && pos + 2 <= |fw| == flash.pageSize && addr == q + s + pos
      requires Offset(flash.pageSize, q) == 0 && w == Word(fw[pos], fw[pos + 1])
      requires s % 2 == 0 ==> Loading(flash, mem0, q, s, fw, 0, pos)
      modifies flash
      ensures flash.Valid() && flash.mem == old(flash.mem) && flash.erased == old(flash.erased)
      ensures s % 2 == 0 ==> Loading(flash, mem0, q, s, fw, 0, pos + 2)
    {
      OffsetParity(flash.pageSize, q);
      if addr % 2 == 0 {
        LoadWord(flash, addr, w, mem0, q, s, fw, 0, pos);
      } else {
        flash.Fill(addr, w);
      }
    }

    /** The page words of a report go to the page buffer. */
    method LoadPage(out: ControlOut, pageAddress: nat,
                    ghost mem0: seq<byte>, ghost q: nat, ghost s: nat, ghost fw: seq<byte>)
      requires out.Valid() && out.size == EP_SIZE && (out.pending != [] ==> |out.bank| % 2 == 0)
      requires |out.Stage()| >= flash.pageSize && fw == out.Stage()[..flash.pageSize] && pageAddress == q + s
      requires flash.Valid() && Offset(flash.pageSize, q) == 0
      requires s % 2 == 0 ==> Loading(flash, mem0, q, s, fw, 0, 0)
      modifies flash, out
      ensures flash.Valid() && flash.mem == old(flash.mem) && flash.erased == old(flash.erased)
      ensures s % 2 == 0 ==> Loading(flash, mem0, q, s, fw, 0, |fw|)
    {
      ghost var stage := out.Stage();
      assert IsPageSize(flash.pageSize);
      hide Loading, Offset;
      for pageWord := 0 to flash.pageSize / 2
        invariant out.Valid() && out.Stage() == stage[2 * pageWord..] && (out.pending != [] ==> |out.bank| % 2 == 0)
        invariant flash.Valid() && flash.mem == old(flash.mem) && flash.erased == old(flash.erased)
        invariant s % 2 == 0 ==> Loading(flash, mem0, q, s, fw, 0, 2 * pageWord)
      {
        DropWord(stage, 2 * pageWord);
        var w := out.NextWord();
        FillWord(pageAddress + 2 * pageWord, w, mem0, q, s, fw, 2 * pageWord);
      }
    }

    /** One page: erased, loaded, committed. */
    method ProgramPage(out: ControlOut, pageAddress: nat)
      requires flash.Valid() && flash.Blank() && out.Valid() && out.size == EP_SIZE
      requires |out.Stage()| >= flash.pageSize && (out.pending != [] ==> |out.bank| % 2 == 0)
      requires pageAddress < |flash.mem|
      modifies flash, out
      ensures flash.Valid() && flash.Blank() && |flash.mem| == |old(flash.mem)|
      ensures PageWritten(old(flash.mem), flash.mem, flash.pageSize, pageAddress, old(out.Stage())[..flash.pageSize])
    {
      hide Programmed, Offset, Partly, Buffered;
      ghost var p, mem0, fw := flash.pageSize, flash.mem, out.Stage()[..flash.pageSize];
      ghost var q, s := PageStart(p, pageAddress), Offset(p, pageAddress);
      PageStartAligned(p, pageAddress);
      OffsetParity(p, pageAddress);
      flash.Erase(pageAddress);
      if pageAddress % 2 == 0 {
        BeginLoading(flash, pageAddress, fw);
        OnePage(mem0, p, q, s, fw);
      }
      LoadPage(out, pageAddress, WithErased(mem0, q, p), q, s, fw);
      flash.Commit(pageAddress);
    }

    /** The SetReport request: a page to program, or the command to start the application. */
    method SetReport(out: ControlOut)
      requires Valid() && out.Valid() && out.size == EP_SIZE && out.bank == [] && |out.pending| >= 2
      requires var w := Word(out.pending[0], out.pending[1]);
               w == START_APPLICATION
               || (DeviceAddress(codeSize, w) < |flash.mem| && |out.pending| >= 2 + flash.pageSize)
      modifies this, flash, out
      ensures Valid() && |flash.mem| == |old(flash.mem)|
      ensures var w, stage := Word(old(out.pending)[0], old(out.pending)[1]), old(out.pending);
              if w == START_APPLICATION then !run && flash.mem == old(flash.mem)
              else run == old(run)
                   && PageWritten(old(flash.mem), flash.mem, flash.pageSize, DeviceAddress(codeSize, w),
                                  stage[2..2 + flash.pageSize])
    {
      hide Programmed, PageWritten;
      ghost var stage := out.pending;
      var w := out.NextWord();
      if w == START_APPLICATION {
        run := false;
      } else {
        assert out.Stage()[..flash.pageSize] == stage[2..2 + flash.pageSize];
        ProgramPage(out, DeviceAddress(codeSize, w));
      }
    }
  }

  // ---------------------------------------------------------------- what ends up in flash

  /** The block of `a` is the first one or holds a loaded byte. */
  ghost predicate Used(mask: seq<bool>, block: nat, a: nat)
    requires 0 < block
  {
    var q := PageStart(block, a);
    q == 0 || exists i :: q <= i < q + block && i < |mask| && mask[i]
  }

  /** The byte the host sends for address `a` of the block at `q`: a block that reaches the end of the host's
      memory is sent as all 0xFF. */
  function Sent(image: seq<byte>, mask: seq<bool>, block: nat, q: nat, a: nat): byte
    requires |image| == |mask|
  {
    if q + block < MAX_MEMORY_SIZE && a < |mask| && mask[a] then image[a] else ERASED
  }

  /** Used blocks hold what the host sends; every other block is as it was. Blocks from address `end` on are not
      considered. */
  ghost function Flashed(mem: seq<byte>, image: seq<byte>, mask: seq<bool>, block: nat, end: nat): (r: seq<byte>)
    requires |image| == |mask| && 0 < block
    ensures |r| == |mem|
  {
    seq(|mem|, a requires 0 <= a < |mem| =>
      if a < end && Used(mask, block, a) then Sent(image, mask, block, PageStart(block, a), a) else mem[a])
  }

  /** What the host is meant to bring about: used blocks hold the image, with erased bytes in its gaps. */
  ghost function Intended(mem: seq<byte>, image: seq<byte>, mask: seq<bool>, block: nat, end: nat): (r: seq<byte>)
    requires |image| == |mask| && 0 < block
    ensures |r| == |mem|
  {
    seq(|mem|, a requires 0 <= a < |mem| =>
      if a < end && Used(mask, block, a) then if a < |mask| && mask[a] then image[a] else ERASED else mem[a])
  }

  /** The last block of the host's memory holds nothing but 0xFF. */
  ghost predicate LastBlockEmpty(image: seq<byte>, mask: seq<bool>, block: nat)
    requires |image| == |mask|
  {
    forall a :: MAX_MEMORY_SIZE - block <= a < MAX_MEMORY_SIZE && 0 <= a < |mask| && mask[a] ==> image[a] == ERASED
  }

  lemma {:induction false} LastPage(block: nat, a: nat)
    requires IsPageSize(block) && a < MAX_MEMORY_SIZE
    ensures PageStart(block, a) + block < MAX_MEMORY_SIZE <==> a < MAX_MEMORY_SIZE - block
  {
    OffsetIs128(a);
    OffsetIs256(a);
  }

  lemma {:induction false} HoldsItself(mask: seq<bool>, block: nat, a: nat)
    requires 0 < block && a < |mask| && mask[a]
    ensures Used(mask, block, a)
  {
    assert PageStart(block, a) <= a < PageStart(block, a) + block;
  }

  /** Nothing is loaded behind the first block. */
  ghost predicate FirstBlockOnly(mask: seq<bool>, block: nat) {
    forall i :: block <= i < |mask| ==> !mask[i]
  }

  /** Every block the host sends goes where the host means it to. */
  ghost predicate Reaches(codeSize: nat, mask: seq<bool>, block: nat) {
    codeSize != 0x1_0000 || FirstBlockOnly(mask, block)
  }

  /** Host and device agree on the addresses of all blocks in use. */
  ghost predicate UsedAgree(codeSize: nat, mask: seq<bool>, block: nat)
    requires 0 < block
  {
    forall addr: nat :: addr < codeSize && Offset(block, addr) == 0 && Used(mask, block, addr) ==>
      Agrees(codeSize, addr)
  }

  /** On the 64 KiB part a loaded byte behind the first block is in a block on whose address they do not agree. */
  lemma {:induction false} UsedDisagree(mask: seq<bool>, i: nat)
    requires |mask| == MAX_MEMORY_SIZE && 256 <= i < |mask| && mask[i]
    ensures !UsedAgree(0x1_0000, mask, 256)
  {
    hide Agrees;
    var addr := i / 256 * 256;
    OffsetIs256(addr);
    assert Used(mask, 256, addr) by { assert addr <= i < addr + 256; }
    NotAgrees(addr);
  }

  /** `Reaches`, by the addresses. */
  lemma {:induction false} ReachesExact(codeSize: nat, mask: seq<bool>, block: nat)
    requires IsPart(codeSize, block) && |mask| == MAX_MEMORY_SIZE
    ensures Reaches(codeSize, mask, block) <==> UsedAgree(codeSize, mask, block)
  {
    assert Agrees(0x1_0000, 0);
    hide Agrees, Offset;
    if codeSize != 0x1_0000 {
      AddressesAgree(codeSize, block);
    } else if FirstBlockOnly(mask, block) {
      forall addr: nat | addr < codeSize && Offset(256, addr) == 0 && Used(mask, 256, addr) ensures addr == 0 {
        OffsetIs256(addr);
      }
    } else {
      var i :| block <= i < |mask| && mask[i];
      UsedDisagree(mask, i);
    }
  }

  /** The flash after the blocks below `end`, where `mem0` was before: exactly what the host sent, if every block
      goes where it should. On the 64 KiB part the device takes all other blocks for the first one; what is behind
      that stays as it was. */
  ghost predicate Outcome(codeSize: nat, mem0: seq<byte>, mem: seq<byte>, image: seq<byte>, mask: seq<bool>,
                          block: nat, end: nat)
    requires |image| == |mask| && 0 < block
  {
    && |mem| == |mem0|
    && if Reaches(codeSize, mask, block) then mem == Flashed(mem0, image, mask, block, end)
       else forall a :: block <= a < |mem| ==> mem[a] == mem0[a]
  }

  /** What the host sends is what is meant, exactly when the part ends below the host's last block or that block
      holds nothing. */
  lemma {:induction false} SentExact(mem: seq<byte>, image: seq<byte>, mask: seq<bool>, codeSize: nat, block: nat)
    requires IsPart(codeSize, block) && codeSize <= |mem| && |image| == |mask| == MAX_MEMORY_SIZE
    ensures Flashed(mem, image, mask, block, codeSize) == Intended(mem, image, mask, block, codeSize)
            <==> codeSize < 0x1_0000 || LastBlockEmpty(image, mask, block)
  {
    var f, w := Flashed(mem, image, mask, block, codeSize), Intended(mem, image, mask, block, codeSize);
    if codeSize < 0x1_0000 || LastBlockEmpty(image, mask, block) {
      forall a | 0 <= a < |mem| ensures f[a] == w[a] {
        if a < codeSize && a < MAX_MEMORY_SIZE { LastPage(block, a); }
      }
    } else {
      var a :| MAX_MEMORY_SIZE - block <= a < MAX_MEMORY_SIZE && mask[a] && image[a] != ERASED;
      LastPage(block, a);
      HoldsItself(mask, block, a);
      assert f[a] != w[a];
    }
  }

  /** The files a part can be programmed with: any below 64 KiB; one that fits into the first block for the 64 KiB
      part; one with nothing in the host's last block for the part above. */
  ghost predicate Programmable(codeSize: nat, image: seq<byte>, mask: seq<bool>, block: nat)
    requires |image| == |mask|
  {
    && (codeSize == 0x1_0000 ==> FirstBlockOnly(mask, block))
    && (codeSize == 0x2_0000 ==> LastBlockEmpty(image, mask, block))
  }

  /** Every run of `size` bytes of flash ends as meant. */
  ghost predicate AlwaysAsMeant(size: nat, codeSize: nat, image: seq<byte>, mask: seq<bool>, block: nat)
    requires |image| == |mask| && 0 < block
  {
    forall mem0, mem :: |mem0| == size && Outcome(codeSize, mem0, mem, image, mask, block, codeSize) ==>
      mem == Intended(mem0, image, mask, block, codeSize)
  }

  /** On the 64 KiB part a byte behind the first block does not get there. */
  lemma {:induction false} Lost(mem0: seq<byte>, image: seq<byte>, mask: seq<bool>, block: nat, i: nat)
    requires |image| == |mask| == MAX_MEMORY_SIZE && IsPart(0x1_0000, block) && |mem0| >= 0x1_0000
    requires block <= i < |mask| && mask[i] && mem0[i] != image[i]
    ensures Outcome(0x1_0000, mem0, mem0, image, mask, block, 0x1_0000)
    ensures mem0 != Intended(mem0, image, mask, block, 0x1_0000)
  {
    HoldsItself(mask, block, i);
    assert Intended(mem0, image, mask, block, 0x1_0000)[i] == image[i];
  }

  /** Whatever was there before, the flash ends up as meant if and only if the file suits the part. */
  lemma {:induction false} FlashedExact(size: nat, image: seq<byte>, mask: seq<bool>, codeSize: nat, block: nat)
    requires IsPart(codeSize, block) && codeSize <= size && |image| == |mask| == MAX_MEMORY_SIZE
    ensures AlwaysAsMeant(size, codeSize, image, mask, block) <==> Programmable(codeSize, image, mask, block)
  {
    if codeSize == 0x1_0000 && !FirstBlockOnly(mask, block) {
      var i :| block <= i < |mask| && mask[i];
      var mem0 := seq<byte>(size, _ => if image[i] == 0 then 1 else 0);
      Lost(mem0, image, mask, block, i);
      assert !AlwaysAsMeant(size, codeSize, image, mask, block);
    } else {
      assert Reaches(codeSize, mask, block);
      forall mem0, mem | |mem0| == size && Outcome(codeSize, mem0, mem, image, mask, block, codeSize)
        ensures mem == Intended(mem0, image, mask, block, codeSize) <==> Programmable(codeSize, image, mask, block)
      {
        SentExact(mem0, image, mask, codeSize, block);
      }
      var mem0 := seq<byte>(size, _ => 0);
      assert Outcome(codeSize, mem0, Flashed(mem0, image, mask, block, codeSize), image, mask, block, codeSize);
    }
  }

  /** Nothing is done to a block that is not used. */
  lemma {:induction false} SkippedBlock(mem: seq<byte>, image: seq<byte>, mask: seq<bool>, block: nat, addr: nat)
    requires |image| == |mask| && 0 < block && Offset(block, addr) == 0
    requires addr > 0 && forall i :: addr <= i < addr + block && i < |mask| ==> !mask[i]
    ensures Flashed(mem, image, mask, block, addr + block) == Flashed(mem, image, mask, block, addr)
  {
    forall a | addr <= a < addr + block ensures !Used(mask, block, a) { InPage(block, addr, a - addr); }
  }

  /** The bytes the host sends for a block. */
  function BlockData(image: seq<byte>, mask: seq<bool>, block: nat, addr: nat): (r: seq<byte>)
    requires |image| == |mask|
    ensures |r| == block
  {
    seq<byte>(block, i requires 0 <= i < block => Sent(image, mask, block, addr, addr + i))
  }

  /** Programming a used block. */
  lemma {:induction false} ProgrammedBlockAt(mem: seq<byte>, image: seq<byte>, mask: seq<bool>,
                                             block: nat, addr: nat, a: nat)
    requires |image| == |mask| && 0 < block && addr + block <= |mem| && Offset(block, addr) == 0
    requires addr == 0 || exists i :: addr <= i < addr + block && i < |mask| && mask[i]
    requires a < |mem|
    ensures Flashed(mem, image, mask, block, addr + block)[a]
            == PageHolding(Flashed(mem, image, mask, block, addr), block, addr, BlockData(image, mask, block, addr))[a]
  {
    if addr <= a < addr + block { InPage(block, addr, a - addr); }
  }

  lemma {:induction false} ProgrammedBlock(mem: seq<byte>, image: seq<byte>, mask: seq<bool>, block: nat, addr: nat)
    requires |image| == |mask| && 0 < block && addr + block <= |mem| && Offset(block, addr) == 0
    requires addr == 0 || exists i :: addr <= i < addr + block && i < |mask| && mask[i]
    ensures Programmed(Flashed(mem, image, mask, block, addr), block, addr, BlockData(image, mask, block, addr))
            == Flashed(mem, image, mask, block, addr + block)
  {
    var before, data := Flashed(mem, image, mask, block, addr), BlockData(image, mask, block, addr);
    var r, w := PageHolding(before, block, addr, data), Flashed(mem, image, mask, block, addr + block);
    AlignedPage(before, block, addr, data);
    forall a | 0 <= a < |mem| ensures r[a] == w[a] { ProgrammedBlockAt(mem, image, mask, block, addr, a); }
  }

  // ---------------------------------------------------------------- the host

  /** The report buffer for a block: its address, then its bytes. */
  method FillReport(reader: Reader, codeSize: nat, block: nat, addr: nat, buf: array<byte>)
    requires reader.Valid() && buf.Length == 260 && buf != reader.image && block <= 256
    modifies buf
    ensures buf[..2 + block] == [HostAddress(codeSize, addr).0, HostAddress(codeSize, addr).1]
                                + BlockData(reader.image[..], reader.mask[..], block, addr)
  {
    buf[0], buf[1] := HostAddress(codeSize, addr).0, HostAddress(codeSize, addr).1;
    reader.GetData(addr, block, buf, 2);
    ghost var data := BlockData(reader.image[..], reader.mask[..], block, addr);
    forall i | 2 <= i < 2 + block ensures buf[i] == data[i - 2] {
      assert data[i - 2] == Sent(reader.image[..], reader.mask[..], block, addr, addr + (i - 2));
    }
  }

  /** Where the report for a block goes. */
  lemma {:induction false} ReportAddress(codeSize: nat, block: nat, addr: nat, lo: byte, hi: byte)
    requires IsPart(codeSize, block) && addr < codeSize && Offset(block, addr) == 0
    requires (lo, hi) == HostAddress(codeSize, addr)
    ensures var w := Word(lo, hi);
            var at := DeviceAddress(codeSize, w);
            w != START_APPLICATION && if codeSize == 0x1_0000 && addr > 0 then at < block else at == addr && at % 2 == 0
  {
    OffsetParity(block, addr);
    if codeSize >= 0x1_0000 {
      OffsetIs256(addr);
      if codeSize == 0x2_0000 { LargeAgrees(addr); } else if addr > 0 { NotAgrees(addr); }
    } else {
      SmallAgrees(codeSize, addr);
    }
  }

  /** A block that was sent to where it belongs, or to the first one instead. */
  lemma {:induction false} BlockSent(codeSize: nat, mem0: seq<byte>, mem: seq<byte>, mem': seq<byte>,
                                     image: seq<byte>, mask: seq<bool>, block: nat, addr: nat, at: nat)
    requires IsPart(codeSize, block) && |image| == |mask| == MAX_MEMORY_SIZE
    requires addr + block <= codeSize <= |mem| && Offset(block, addr) == 0
    requires addr == 0 || exists i :: addr <= i < addr + block && i < |mask| && mask[i]
    requires Outcome(codeSize, mem0, mem, image, mask, block, addr)
    requires PageWritten(mem, mem', block, at, BlockData(image, mask, block, addr))
    requires if codeSize == 0x1_0000 && addr > 0 then at < block else at == addr && at % 2 == 0
    ensures Outcome(codeSize, mem0, mem', image, mask, block, addr + block)
  {
    hide Programmed, Flashed, BlockData, Used;
    if Reaches(codeSize, mask, block) {
      assert codeSize == 0x1_0000 ==> addr == 0;
      ProgrammedBlock(mem0, image, mask, block, addr);
    } else {
      assert PageStart(block, at) == 0;
    }
  }

  /** One block goes to the device. */
  method SendBlock(reader: Reader, device: Device, addr: nat, buf: array<byte>, ghost mem0: seq<byte>)
    requires reader.Valid() && device.Valid() && buf.Length == 260 && buf != reader.image
    requires addr + device.flash.pageSize <= device.codeSize && Offset(device.flash.pageSize, addr) == 0
    requires addr == 0
             || exists i :: addr <= i < addr + device.flash.pageSize && i < reader.mask.Length && reader.mask[i]
    requires Outcome(device.codeSize, mem0, device.flash.mem, reader.image[..], reader.mask[..],
                     device.flash.pageSize, addr)
    modifies buf, device, device.flash
    ensures device.Valid() && device.run == old(device.run)
    ensures Outcome(device.codeSize, mem0, device.flash.mem, reader.image[..], reader.mask[..],
                    device.flash.pageSize, addr + device.flash.pageSize)
  {
    var codeSize, block := device.codeSize, device.flash.pageSize;
    ghost var mem, data := device.flash.mem, BlockData(reader.image[..], reader.mask[..], block, addr);
    FillReport(reader, codeSize, block, addr, buf);
    var out := new ControlOut(EP_SIZE, buf[..2 + block]);
    hide Outcome, PageWritten, HostAddress, DeviceAddress, BlockData;
    ghost var at := DeviceAddress(codeSize, Word(out.pending[0], out.pending[1]));
    ReportAddress(codeSize, block, addr, out.pending[0], out.pending[1]);
    assert out.pending[2..2 + block] == data;
    device.SetReport(out);
    BlockSent(codeSize, mem0, mem, device.flash.mem, reader.image[..], reader.mask[..], block, addr, at);
  }

  /** A block lies below the end of the host's memory, or behind it. */
  lemma {:induction false} BlockBelow(block: nat, addr: nat)
    requires IsPageSize(block) && Offset(block, addr) == 0
    ensures addr < MAX_MEMORY_SIZE ==> addr + block <= MAX_MEMORY_SIZE
  {
    OffsetIs128(addr);
    OffsetIs256(addr);
  }

  /** A block that is not used is as it was. */
  lemma {:induction false} BlockSkipped(codeSize: nat, mem0: seq<byte>, mem: seq<byte>, image: seq<byte>,
                                        mask: seq<bool>, block: nat, addr: nat)
    requires |image| == |mask| && 0 < block && Offset(block, addr) == 0
    requires addr > 0 && forall i :: addr <= i < addr + block && i < |mask| ==> !mask[i]
    requires Outcome(codeSize, mem0, mem, image, mask, block, addr)
    ensures Outcome(codeSize, mem0, mem, image, mask, block, addr + block)
  {
    hide Flashed;
    SkippedBlock(mem0, image, mask, block, addr);
  }

  /** One turn of the programming loop. */
  method HandleBlock(reader: Reader, device: Device, addr: nat, buf: array<byte>, ghost mem0: seq<byte>)
    requires reader.Valid() && device.Valid() && buf.Length == 260 && buf != reader.image
    requires addr + device.flash.pageSize <= device.codeSize && Offset(device.flash.pageSize, addr) == 0
    requires Outcome(device.codeSize, mem0, device.flash.mem, reader.image[..], reader.mask[..],
                     device.flash.pageSize, addr)
    modifies buf, device, device.flash
    ensures device.Valid() && device.run == old(device.run)
    ensures Outcome(device.codeSize, mem0, device.flash.mem, reader.image[..], reader.mask[..],
                    device.flash.pageSize, addr + device.flash.pageSize)
  {
    hide Outcome;
    var block := device.flash.pageSize;
    var used := reader.BytesWithinRange(addr, addr + block - 1);
    BlockBelow(block, addr);
    if addr > 0 && !used {
      BlockSkipped(device.codeSize, mem0, device.flash.mem, reader.image[..], reader.mask[..], block, addr);
    } else {
      SendBlock(reader, device, addr, buf, mem0);
    }
  }

  /** The report that starts the application. */
  method Reboot(device: Device, buf: array<byte>)
    requires device.Valid() && buf.Length == 260
    modifies buf, device, device.flash
    ensures device.Valid() && !device.run && device.flash.mem == old(device.flash.mem)
  {
    buf[0], buf[1] := 0xFF, 0xFF;
    forall i | 2 <= i < buf.Length { buf[i] := 0; }
    var out := new ControlOut(EP_SIZE, buf[..2 + device.flash.pageSize]);
    device.SetReport(out);
  }

  lemma {:induction false} NothingSent(codeSize: nat, mem: seq<byte>, image: seq<byte>, mask: seq<bool>, block: nat)
    requires |image| == |mask| && 0 < block
    ensures Outcome(codeSize, mem, mem, image, mask, block, 0)
  {
    assert Flashed(mem, image, mask, block, 0) == mem;
  }

  /** The programming loop and the reboot of main. */
  method ProgramDevice(reader: Reader, device: Device, rebootAfterProgramming: bool)
    requires reader.Valid() && device.Valid()
    modifies device, device.flash
    ensures device.Valid() && device.run == (old(device.run) && !rebootAfterProgramming)
    ensures Outcome(device.codeSize, old(device.flash.mem), device.flash.mem, reader.image[..], reader.mask[..],
                    device.flash.pageSize, device.codeSize)
  {
    var buf := new byte[260](_ => 0);
    var addr, codeSize, block := 0, device.codeSize, device.flash.pageSize;
    ghost var mem0 := device.flash.mem;
    assert Offset(block, codeSize) == 0 by {
      OffsetIs128(codeSize);
      OffsetIs256(codeSize);
    }
    NothingSent(codeSize, mem0, reader.image[..], reader.mask[..], block);
    hide Outcome;
    while addr < codeSize
      invariant 0 <= addr <= codeSize && Offset(block, addr) == 0
      invariant device.Valid() && device.run == old(device.run)
      invariant Outcome(codeSize, mem0, device.flash.mem, reader.image[..], reader.mask[..], block, addr)
    {
      PageRoom(block, addr, codeSize);
      PageFacts(block, addr, 0, 0);
      HandleBlock(reader, device, addr, buf, mem0);
      addr := addr + block;
    }
    if rebootAfterProgramming {
      Reboot(device, buf);
    }
  }

  /** The whole host program on the lines of a file: a damaged file stops it before the device is touched. */
  method LoadAndProgram(lines: seq<string>, device: Device, rebootAfterProgramming: bool) returns (ok: bool)
    requires device.Valid()
    modifies device, device.flash
    ensures device.Valid()
    ensures var (l, good) := ReadLines(EMPTY, lines);
            && ok == good
            && (if good then
                  Outcome(device.codeSize, old(device.flash.mem), device.flash.mem, l.image, l.mask,
                          device.flash.pageSize, device.codeSize)
                else device.flash.mem == old(device.flash.mem))
            && device.run == (old(device.run) && !(good && rebootAfterProgramming))
  {
    hide Outcome;
    var reader := new Reader();
    var num := reader.ReadIntelHex(lines);
    ok := num >= 0;
    if ok {
      ProgramDevice(reader, device, rebootAfterProgramming);
    }
  }

  // ---------------------------------------------------------------- from records to flash

  /** Some record has a byte in the block at `q`. */
  ghost predicate Loaded(spans: seq<Span>, block: nat, q: nat) {
    exists i :: q <= i < q + block && i < MAX_MEMORY_SIZE && LastByte(spans, i).Some?
  }

  /** The reader's image and mask say what the records say. */
  lemma {:induction false} ReaderHolds(l: Loader, rs: seq<Record>)
    requires AllInRange(EMPTY, rs) && l == ApplyAll(EMPTY, rs)
    ensures forall i :: 0 <= i < MAX_MEMORY_SIZE ==>
              var last := LastByte(Spans(0, rs), i);
              l.mask[i] == last.Some? && l.image[i] == match last case Some(b) => b case None => ERASED
  {
    forall i | 0 <= i < MAX_MEMORY_SIZE
      ensures var last := LastByte(Spans(0, rs), i);
              l.mask[i] == last.Some? && l.image[i] == match last case Some(b) => b case None => ERASED
    {
      ImageOf(EMPTY, rs, i);
    }
  }

  /** The flash meant by a file of records: a block that is the first one or holds a byte of some record reads as
      the records say, later ones winning, with erased bytes in between; the rest of the flash is as it was. */
  ghost function OfRecords(mem: seq<byte>, spans: seq<Span>, block: nat, codeSize: nat): (r: seq<byte>)
    requires 0 < block
    ensures |r| == |mem|
  {
    seq(|mem|, a requires 0 <= a < |mem| =>
      if a < codeSize && (PageStart(block, a) == 0 || Loaded(spans, block, PageStart(block, a))) then
        match if a < MAX_MEMORY_SIZE then LastByte(spans, a) else None case Some(b) => b case None => ERASED
      else mem[a])
  }

  lemma {:induction false} IntendedIs(mem: seq<byte>, l: Loader, rs: seq<Record>, block: nat, codeSize: nat)
    requires AllInRange(EMPTY, rs) && l == ApplyAll(EMPTY, rs) && 0 < block
    ensures Intended(mem, l.image, l.mask, block, codeSize) == OfRecords(mem, Spans(0, rs), block, codeSize)
  {
    ReaderHolds(l, rs);
    var spans := Spans(0, rs);
    hide ApplyAll, AllInRange, Spans, LastByte, PageStart;
    forall a: nat
      ensures Used(l.mask, block, a) <==> PageStart(block, a) == 0 || Loaded(spans, block, PageStart(block, a))
    {
    }
  }

  /** What suits a part, by the records: see `Programmable`. */
  ghost predicate Suits(spans: seq<Span>, codeSize: nat, block: nat) {
    && (codeSize == 0x1_0000 ==> forall i :: block <= i < MAX_MEMORY_SIZE ==> LastByte(spans, i).None?)
    && (codeSize == 0x2_0000 ==>
          forall i :: MAX_MEMORY_SIZE - block <= i < MAX_MEMORY_SIZE ==> LastByte(spans, i) in {None, Some(ERASED)})
  }

  lemma {:induction false} SuitsIs(l: Loader, rs: seq<Record>, codeSize: nat, block: nat)
    requires AllInRange(EMPTY, rs) && l == ApplyAll(EMPTY, rs) && IsPart(codeSize, block)
    ensures Programmable(codeSize, l.image, l.mask, block) <==> Suits(Spans(0, rs), codeSize, block)
  {
    ReaderHolds(l, rs);
    hide ApplyAll, AllInRange, Spans, LastByte;
  }

  /** End to end: the file of any list of records is read, and whatever was in flash before, it ends up as the
      records say if and only if they suit the part. */
  lemma FileToFlash(size: nat, rs: seq<Record>, more: seq<string>, codeSize: nat, block: nat)
    requires AllInRange(EMPTY, rs) && ApplyAll(EMPTY, rs).extended < MAX_MEMORY_SIZE
    requires IsPart(codeSize, block) && codeSize <= size
    ensures var (l, good) := ReadLines(EMPTY, Lines(rs) + ([Line(END_BYTES)] + more));
            && good
            && ((forall mem0, mem ::
                   |mem0| == size && Outcome(codeSize, mem0, mem, l.image, l.mask, block, codeSize) ==>
                   mem == OfRecords(mem0, Spans(0, rs), block, codeSize))
                <==> Suits(Spans(0, rs), codeSize, block))
  {
    ReadWritten(EMPTY, rs, more);
    var l := ApplyAll(EMPTY, rs);
    SuitsIs(l, rs, codeSize, block);
    FlashedExact(size, l.image, l.mask, codeSize, block);
    hide Outcome, OfRecords, Intended, Programmable, Suits;
    forall mem0
      ensures Intended(mem0, l.image, l.mask, block, codeSize) == OfRecords(mem0, Spans(0, rs), block, codeSize)
    {
      IntendedIs(mem0, l, rs, block, codeSize);
    }
  }

  /** One run, by the records: see `FlashRecords`. */
  lemma {:induction false} RunExact(mem0: seq<byte>, mem: seq<byte>, l: Loader, rs: seq<Record>,
                                    codeSize: nat, block: nat)
    requires AllInRange(EMPTY, rs) && l == ApplyAll(EMPTY, rs) && IsPart(codeSize, block) && codeSize <= |mem0|
    requires Outcome(codeSize, mem0, mem, l.image, l.mask, block, codeSize)
    ensures var suits := Suits(Spans(0, rs), codeSize, block);
            if codeSize != 0x1_0000 || suits then
              mem == OfRecords(mem0, Spans(0, rs), block, codeSize) <==> suits
            else forall a :: block <= a < |mem| ==> mem[a] == mem0[a]
  {
    SuitsIs(l, rs, codeSize, block);
    IntendedIs(mem0, l, rs, block, codeSize);
    SentExact(mem0, l.image, l.mask, codeSize, block);
    hide OfRecords, Intended, Flashed, Spans, ApplyAll, AllInRange, Suits;
  }

  /** End to end, on the device: the flash holds what the records say if and only if they suit the part. Records
      that do not suit the 64 KiB part leave everything behind the first block as it was. */
  method FlashRecords(rs: seq<Record>, more: seq<string>, device: Device, rebootAfterProgramming: bool)
    returns (ok: bool)
    requires device.Valid() && AllInRange(EMPTY, rs) && ApplyAll(EMPTY, rs).extended < MAX_MEMORY_SIZE
    modifies device, device.flash
    ensures device.Valid() && ok && |device.flash.mem| == |old(device.flash.mem)|
    ensures var block, mem0 := device.flash.pageSize, old(device.flash.mem);
            var suits := Suits(Spans(0, rs), device.codeSize, block);
            if device.codeSize != 0x1_0000 || suits then
              device.flash.mem == OfRecords(mem0, Spans(0, rs), block, device.codeSize) <==> suits
            else forall a :: block <= a < |mem0| ==> device.flash.mem[a] == mem0[a]
  {
    ghost var mem0, l := device.flash.mem, ApplyAll(EMPTY, rs);
    ReadWritten(EMPTY, rs, more);
    hide OfRecords, Suits, Spans, ApplyAll, AllInRange, Reaches, Flashed;
    ok := LoadAndProgram(Lines(rs) + ([Line(END_BYTES)] + more), device, rebootAfterProgramming);
    RunExact(mem0, device.flash.mem, l, rs, device.codeSize, device.flash.pageSize);
  }
}
