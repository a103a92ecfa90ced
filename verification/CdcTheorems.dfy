/** What a host can rely on when it programs and reads memory through the CDC bootloader. */
module CdcTheorems {
  import opened Bytes
  import opened Hardware
  import opened FlashImage
  import opened CdcSpec

  /** The word address the host sends arrives exactly when it is below 0x4000. Its top bit is lost, and the next one
      is sign-extended. */
  lemma SetAddressExact(hi: byte, lo: byte)
    ensures ByteAddress(hi, lo) == 2 * (hi * 256 + lo) <==> hi < 0x40
    ensures ByteAddress(hi, lo) == 2 * (hi % 0x80 * 256 + lo) + if hi % 0x80 < 0x40 then 0 else 0xFFFF_0000
  {
    if hi < 0x40 {
      assert hi * 512 < 0x8000;
    } else if hi < 0x80 {
      assert hi * 512 % 0x1_0000 == hi * 512;
    } else {
      assert hi * 512 % 0x1_0000 == hi * 512 - 0x1_0000;
    }
  }

  /** A host's bytes as a device may read them: the letters of AVR109, sizes with the high byte first. */
  function Decode(stream: seq<byte>): Option<(Command, seq<byte>)> {
    if stream == [] then None
    else match stream[0]
      case 0x41 => if |stream| >= 3 then Some((SetAddress(stream[1], stream[2]), stream[3..])) else None    // 'A'
      case 0x42 =>                                                                                          // 'B'
        if |stream| < 4 then None
        else
          var n: word, m := 256 * stream[1] as int + stream[2], stream[3];
          if m != 0x46 && m != 0x45 then Some((UnknownMemory(true, n, m), stream[4..]))
          else if |stream| < 4 + n then None
          else Some((BlockWrite(m, stream[4..4 + n]), stream[4 + n..]))
      case 0x67 =>                                                                                          // 'g'
        if |stream| < 4 then None
        else
          var n: word, m := 256 * stream[1] as int + stream[2], stream[3];
          Some((if m != 0x46 && m != 0x45 then UnknownMemory(false, n, m) else BlockRead(m, n), stream[4..]))
      case 0x65 => Some((EraseFlash, stream[1..]))                                                          // 'e'
      case 0x44 => if |stream| >= 2 then Some((WriteEeprom(stream[1]), stream[2..])) else None              // 'D'
      case 0x64 => Some((ReadEeprom, stream[1..]))                                                          // 'd'
      case 0x45 => Some((Exit, stream[1..]))                                                                // 'E'
      case 27 => Some((Sync, stream[1..]))
      case _ => None
  }

  /** Commands can be told apart and told from what follows them. */
  lemma DecodeEncode(p: nat, s: State, c: Command, rest: seq<byte>)
    requires IsPageSize(p) && InRange(p, s, c)
    ensures Decode(Encode(c) + rest) == Some((c, rest))
  {
    var stream := Encode(c) + rest;
    if c.BlockWrite? || c.BlockRead? || c.UnknownMemory? {
      BlockHeader(p, s, c);
      assert stream[1..4] == Encode(c)[1..4] && stream[3] == c.memory;
      if c.BlockWrite? {
        var n := |c.block|;
        assert 256 * stream[1] as int + stream[2] == n;
        assert stream[4..4 + n] == c.block && stream[4 + n..] == rest;
      } else {
        assert stream[4..] == rest;
      }
    } else {
      assert stream[|Encode(c)|..] == rest;
    }
  }

  /** A run of commands: the state before and after each. */
  ghost predicate Run(p: nat, bootStart: nat, states: seq<State>, commands: seq<Command>) {
    && |states| == |commands| + 1
    && states[0].Fits(p, bootStart)
    && (forall i {:trigger commands[i]} :: 0 <= i < |commands| ==>
          states[i].Fits(p, bootStart) && InRange(p, states[i], commands[i])
          && states[i + 1] == Execute(p, bootStart, states[i], commands[i]))
  }

  /** The answers of a run, one after the other, from command `i` on. */
  ghost function Answers(p: nat, states: seq<State>, commands: seq<Command>, i: nat): seq<byte>
    requires i <= |commands| && |states| == |commands| + 1
    requires forall j :: i <= j < |commands| ==> InRange(p, states[j], commands[j])
    decreases |commands| - i
  {
    if i == |commands| then [] else Reply(p, states[i], commands[i]) + Answers(p, states, commands, i + 1)
  }

  /** The bytes of the block writes from command `i` up to command `n`. */
  function Blocks(commands: seq<Command>, i: nat, n: nat): seq<byte>
    requires i <= n <= |commands| && forall j :: i <= j < n ==> commands[j].BlockWrite?
    decreases n - i
  {
    if i == n then [] else commands[i].block + Blocks(commands, i + 1, n)
  }

  /** What a block at a page boundary leaves: its whole words, and the rest of its page erased. */
  lemma {:induction false} AlignedBlock(mem: seq<byte>, p: nat, a: nat, block: seq<byte>)
    requires IsPageSize(p) && |block| <= p && Offset(p, a) == 0
    ensures BlockWritten(mem, p, a, block) == PageHolding(mem, p, a, WholePart(block))
  {
    if |block| >= 2 {
      AlignedPage(mem, p, a, WholePart(block));
    } else {
      assert WithErased(mem, a, p) == PageHolding(mem, p, a, []) && WholePart(block) == [];
    }
  }

  /** A full page at a page boundary replaces exactly that page. */
  lemma {:induction false} FullPage(mem: seq<byte>, p: nat, a: nat, block: seq<byte>)
    requires IsPageSize(p) && |block| == p && Offset(p, a) == 0 && a + p <= |mem|
    ensures BlockWritten(mem, p, a, block) == Overlay(mem, a, block)
  {
    AlignedBlock(mem, p, a, block);
    assert WholePart(block) == block;
    assert PageHolding(mem, p, a, block) == Overlay(mem, a, block);
  }

  /** A page that is programmed holds bytes of the block or erased ones. */
  lemma {:induction false} TouchedByte(mem: seq<byte>, p: nat, a: nat, bytes: seq<byte>, x: nat)
    requires 0 < p && x < |mem| && PageStart(p, x) == PageStart(p, a) && bytes != []
    ensures var b := Programmed(mem, p, a, bytes)[x]; b == ERASED || b in bytes
  {
    assert Touched(p, a, |bytes|, x);
  }

  /** So no byte of the page is zero behind a block of ones. */
  lemma {:induction false} SpilledByte(mem: seq<byte>, p: nat, a: nat, block: seq<byte>, x: nat)
    requires 0 < p && x < |mem| && PageStart(p, x) == PageStart(p, a)
    requires forall i :: 0 <= i < |block| ==> block[i] == 1
    ensures BlockWritten(mem, p, a, block)[x] != 0
  {
    hide Programmed;
    if |block| >= 2 { TouchedByte(mem, p, a, WholePart(block), x); }
  }

  /** The byte of the page that a block does not cover is not kept. */
  lemma {:induction false} BlockSpills(mem: seq<byte>, p: nat, a: nat, block: seq<byte>)
    requires IsPageSize(p) && Offset(p, |mem|) == 0 && a < |mem| && a + |block| <= |mem| && |block| <= p
    requires |block| < p || Offset(p, a) > 0
    requires (forall i :: 0 <= i < |mem| ==> mem[i] == 0) && forall i :: 0 <= i < |block| ==> block[i] == 1
    ensures BlockWritten(mem, p, a, block) != Overlay(mem, a, block)
  {
    var q, o := PageStart(p, a), Offset(p, a);
    assert q + p <= |mem| && Offset(p, q) == 0 by {
      PageStartAligned(p, a);
      PageRoom(p, q, |mem|);
    }
    var x := if o > 0 then q else q + p - 1;
    assert Overlay(mem, a, block)[x] == 0;
    assert PageStart(p, x) == q by { InPage(p, q, x - q); }
    hide BlockWritten, Overlay;
    SpilledByte(mem, p, a, block, x);
  }

  /** A block lands where it should, with nothing else changed, for all contents, exactly when it is a full
      page at a page boundary: otherwise it erases or misplaces bytes of its page. */
  lemma BlockWrittenExact(size: nat, p: nat, a: nat, n: nat)
    requires IsPageSize(p) && Offset(p, size) == 0 && a % 2 == 0 && a < size && n <= p && a + n <= size
    ensures (forall mem: seq<byte>, block: seq<byte> :: |mem| == size && |block| == n ==>
               BlockWritten(mem, p, a, block) == Overlay(mem, a, block))
            <==> n == p && Offset(p, a) == 0
  {
    if n == p && Offset(p, a) == 0 {
      forall mem: seq<byte>, block: seq<byte> | |mem| == size && |block| == n
        ensures BlockWritten(mem, p, a, block) == Overlay(mem, a, block)
      {
        FullPage(mem, p, a, block);
      }
    } else {
      var mem: seq<byte>, block: seq<byte> := seq(size, _ => 0), seq(n, _ => 1);
      BlockSpills(mem, p, a, block);
    }
  }

  lemma OverlayTwice(mem: seq<byte>, at: nat, x: seq<byte>, y: seq<byte>)
    requires at + |x| + |y| <= |mem|
    ensures Overlay(Overlay(mem, at, x), at + |x|, y) == Overlay(mem, at, x + y)
  {
  }

  /** `t` is `s` after `bytes` were written to flash from the current address on. */
  ghost predicate Wrote(s: State, t: State, bytes: seq<byte>) {
    && s.addr + |bytes| <= |s.flash|
    && t == s.(addr := s.addr + |bytes|, flash := Overlay(s.flash, s.addr, bytes))
  }

  lemma WroteNothing(s: State)
    requires s.addr <= |s.flash|
    ensures Wrote(s, s, [])
  {
    assert Overlay(s.flash, s.addr, []) == s.flash;
  }

  lemma WroteBoth(s: State, t: State, u: State, x: seq<byte>, y: seq<byte>)
    requires Wrote(s, t, x) && Wrote(t, u, y)
    ensures Wrote(s, u, x + y)
  {
    OverlayTwice(s.flash, s.addr, x, y);
  }

  /** One full-page block write. */
  lemma FlashBlock(p: nat, bootStart: nat, s: State, block: seq<byte>)
    requires s.Fits(p, bootStart) && |block| == p && Offset(p, s.addr) == 0 && s.addr < |s.flash|
    ensures var t := Execute(p, bootStart, s, BlockWrite(FLASH, block));
            Wrote(s, t, block) && Offset(p, t.addr) == 0
  {
    PageRoom(p, s.addr, |s.flash|);
    FullPage(s.flash, p, s.addr, block);
    PageFacts(p, s.addr, 0, 0);
  }

  /** Consecutive full-page block writes to flash program the concatenation of the blocks. */
  lemma {:induction false} FlashBlocks(p: nat, bootStart: nat, states: seq<State>, commands: seq<Command>,
                                       i: nat, n: nat)
    requires Run(p, bootStart, states, commands) && i <= n <= |commands|
    requires forall j :: i <= j < n ==>
               commands[j].BlockWrite? && commands[j].memory == FLASH && |commands[j].block| == p
    requires Offset(p, states[i].addr) == 0 && states[i].addr <= |states[i].flash|
    ensures Wrote(states[i], states[n], Blocks(commands, i, n))
    decreases n - i
  {
    if i < n {
      FlashBlock(p, bootStart, states[i], commands[i].block);
      FlashBlocks(p, bootStart, states, commands, i + 1, n);
      WroteBoth(states[i], states[i + 1], states[n], commands[i].block, Blocks(commands, i + 1, n));
    } else {
      WroteNothing(states[i]);
    }
  }

  /** The address is at a page boundary after full pages. */
  lemma {:induction false} FlashBlocksAligned(p: nat, bootStart: nat, states: seq<State>, commands: seq<Command>,
                                              i: nat, n: nat)
    requires Run(p, bootStart, states, commands) && i <= n <= |commands|
    requires forall j :: i <= j < n ==>
               commands[j].BlockWrite? && commands[j].memory == FLASH && |commands[j].block| == p
    requires Offset(p, states[i].addr) == 0 && states[i].addr <= |states[i].flash|
    ensures Offset(p, states[n].addr) == 0
    decreases n - i
  {
    if i < n {
      FlashBlock(p, bootStart, states[i], commands[i].block);
      FlashBlocksAligned(p, bootStart, states, commands, i + 1, n);
    }
  }

  /** `t` is `s` after `bytes` were written to EEPROM from the current address on. */
  ghost predicate WroteEeprom(s: State, t: State, bytes: seq<byte>) {
    && s.addr / 2 + |bytes| <= |s.eeprom|
    && t == s.(addr := s.addr + 2 * |bytes|, eeprom := Overlay(s.eeprom, s.addr / 2, bytes))
  }

  lemma WroteEepromBoth(s: State, t: State, u: State, x: seq<byte>, y: seq<byte>)
    requires WroteEeprom(s, t, x) && WroteEeprom(t, u, y)
    ensures WroteEeprom(s, u, x + y)
  {
    OverlayTwice(s.eeprom, s.addr / 2, x, y);
  }

  lemma EepromBlock(p: nat, bootStart: nat, s: State, block: seq<byte>)
    requires s.Fits(p, bootStart) && InRange(p, s, BlockWrite(EEPROM, block))
    ensures WroteEeprom(s, Execute(p, bootStart, s, BlockWrite(EEPROM, block)), block)
  {
  }

  /** Consecutive block writes to EEPROM, of any sizes, write the concatenation of the blocks. */
  lemma {:induction false} EepromBlocks(p: nat, bootStart: nat, states: seq<State>, commands: seq<Command>,
                                        i: nat, n: nat)
    requires Run(p, bootStart, states, commands) && i <= n <= |commands|
    requires forall j :: i <= j < n ==> commands[j].BlockWrite? && commands[j].memory == EEPROM
    requires states[i].addr / 2 <= |states[i].eeprom|
    ensures WroteEeprom(states[i], states[n], Blocks(commands, i, n))
    decreases n - i
  {
    if i < n {
      EepromBlock(p, bootStart, states[i], commands[i].block);
      EepromBlocks(p, bootStart, states, commands, i + 1, n);
      WroteEepromBoth(states[i], states[i + 1], states[n], commands[i].block, Blocks(commands, i + 1, n));
    } else {
      assert Overlay(states[i].eeprom, states[i].addr / 2, []) == states[i].eeprom;
    }
  }

  // ---------------------------------------------------------------- reading

  /** The bytes asked for by the reads from the `i`-th on. */
  function Total(sizes: seq<nat>, i: nat): nat
    requires i <= |sizes|
    decreases |sizes| - i
  {
    if i == |sizes| then 0 else sizes[i] + Total(sizes, i + 1)
  }

  /** How far the address moves on when `n` bytes of flash are read. */
  function Words(n: nat): (w: nat)
    ensures w <= n <= w + 1 && (w == n <==> n % 2 == 0)
  {
    if n % 2 == 0 then n else n - 1
  }

  /** Where the `k`-th byte answered comes from, when flash is read from address `a` on in the `i`-th and
      following reads: the address moves on by whole words only. */
  function Source(a: nat, sizes: seq<nat>, i: nat, k: nat): (x: nat)
    requires i <= |sizes| && k < Total(sizes, i)
    ensures a <= x <= a + k
    decreases |sizes| - i
  {
    if k < sizes[i] then a + k else Source(a + Words(sizes[i]), sizes, i + 1, k - sizes[i])
  }

  /** What such reads answer. */
  function ReadAll(mem: seq<byte>, a: nat, sizes: seq<nat>, i: nat): (r: seq<byte>)
    requires i <= |sizes| && a + Total(sizes, i) <= |mem|
    ensures |r| == Total(sizes, i) && forall k :: 0 <= k < |r| ==> r[k] == mem[Source(a, sizes, i, k)]
  {
    seq(Total(sizes, i), k requires 0 <= k < Total(sizes, i) => mem[Source(a, sizes, i, k)])
  }

  /** Nothing is read behind a read of odd size. */
  predicate WholeWords(sizes: seq<nat>, i: nat)
    requires i <= |sizes|
    decreases |sizes| - i
  {
    i == |sizes| || if sizes[i] % 2 == 0 then WholeWords(sizes, i + 1) else Total(sizes, i + 1) == 0
  }

  /** Then every byte comes from where it should. */
  lemma {:induction false} WholeWordsSource(a: nat, sizes: seq<nat>, i: nat, k: nat)
    requires i <= |sizes| && WholeWords(sizes, i) && k < Total(sizes, i)
    ensures Source(a, sizes, i, k) == a + k
    decreases |sizes| - i
  {
    if k >= sizes[i] { WholeWordsSource(a + Words(sizes[i]), sizes, i + 1, k - sizes[i]); }
  }

  /** The first byte read is the one at the address. */
  lemma {:induction false} FirstSource(a: nat, sizes: seq<nat>, i: nat)
    requires i <= |sizes| && 0 < Total(sizes, i)
    ensures Source(a, sizes, i, 0) == a
    decreases |sizes| - i
  {
    if sizes[i] == 0 { FirstSource(a, sizes, i + 1); }
  }

  /** Otherwise some byte is read twice. */
  lemma {:induction false} RepeatedSource(a: nat, sizes: seq<nat>, i: nat) returns (k: nat)
    requires i <= |sizes| && !WholeWords(sizes, i)
    ensures 0 < k < Total(sizes, i) && Source(a, sizes, i, k) == a + k - 1 == Source(a, sizes, i, k - 1)
    decreases |sizes| - i
  {
    var n := sizes[i];
    if n % 2 == 0 {
      k := RepeatedSource(a + n, sizes, i + 1);
      k := k + n;
    } else {
      FirstSource(a + n - 1, sizes, i + 1);
      k := n;
    }
  }

  lemma WholeWordsRead(mem: seq<byte>, a: nat, sizes: seq<nat>, i: nat)
    requires i <= |sizes| && a + Total(sizes, i) <= |mem| && WholeWords(sizes, i)
    ensures ReadAll(mem, a, sizes, i) == mem[a..a + Total(sizes, i)]
  {
    forall k | 0 <= k < Total(sizes, i) ensures Source(a, sizes, i, k) == a + k { WholeWordsSource(a, sizes, i, k); }
  }

  /** Consecutive reads return consecutive bytes, for all contents, exactly when every read of odd size is
      followed by empty ones only. */
  lemma ReadAllExact(size: nat, a: nat, sizes: seq<nat>, i: nat)
    requires i <= |sizes| && a + Total(sizes, i) <= size
    ensures (forall mem: seq<byte> :: |mem| == size ==> ReadAll(mem, a, sizes, i) == mem[a..a + Total(sizes, i)])
            <==> WholeWords(sizes, i)
  {
    if WholeWords(sizes, i) {
      forall mem: seq<byte> | |mem| == size ensures ReadAll(mem, a, sizes, i) == mem[a..a + Total(sizes, i)] {
        WholeWordsRead(mem, a, sizes, i);
      }
    } else {
      var k := RepeatedSource(a, sizes, i);
      var mem: seq<byte> := seq(size, x => if x == a + k then 1 else 0);
      assert ReadAll(mem, a, sizes, i)[k] == 0 && mem[a..a + Total(sizes, i)][k] == 1;
    }
  }

  lemma {:induction false} SourceMoves(a: nat, b: nat, sizes: seq<nat>, i: nat, k: nat)
    requires i <= |sizes| && k < Total(sizes, i)
    ensures Source(a + b, sizes, i, k) == a + Source(b, sizes, i, k)
    decreases |sizes| - i
  {
    if k >= sizes[i] { SourceMoves(a, b + Words(sizes[i]), sizes, i + 1, k - sizes[i]); }
  }

  /** Reads depend on nothing but the range they cover. */
  lemma ReadRange(mem: seq<byte>, a: nat, payload: seq<byte>, sizes: seq<nat>, i: nat)
    requires a + |payload| <= |mem| && mem[a..a + |payload|] == payload
    requires i <= |sizes| && Total(sizes, i) <= |payload|
    ensures ReadAll(mem, a, sizes, i) == ReadAll(payload, 0, sizes, i)
  {
    forall k | 0 <= k < Total(sizes, i) ensures ReadAll(mem, a, sizes, i)[k] == ReadAll(payload, 0, sizes, i)[k] {
      SourceMoves(a, 0, sizes, i, k);
      assert mem[a..a + |payload|][Source(0, sizes, i, k)] == mem[a + Source(0, sizes, i, k)];
    }
  }

  /** The sizes of the block reads among the commands. */
  function Sizes(commands: seq<Command>): (sizes: seq<nat>)
    ensures |sizes| == |commands|
    ensures forall j :: 0 <= j < |commands| && commands[j].BlockRead? ==> sizes[j] == commands[j].size
  {
    seq(|commands|, j requires 0 <= j < |commands| => if commands[j].BlockRead? then commands[j].size else 0)
  }

  /** The address after a block read. */
  function Advanced(addr: nat, c: Command): nat
    requires c.BlockRead?
  {
    addr + if c.memory == FLASH then Words(c.size) else 2 * c.size as int
  }

  /** From command `i` on, blocks of one memory are read and nothing but the address changes. */
  ghost predicate Reading(p: nat, states: seq<State>, commands: seq<Command>, memory: byte, i: nat) {
    && |states| == |commands| + 1
    && forall j {:trigger commands[j]} :: i <= j < |commands| ==>
         && commands[j].BlockRead? && commands[j].memory == memory && InRange(p, states[j], commands[j])
         && states[j + 1] == states[j].(addr := Advanced(states[j].addr, commands[j]))
  }

  lemma ReadStep(p: nat, bootStart: nat, s: State, c: Command)
    requires s.Fits(p, bootStart) && c.BlockRead? && InRange(p, s, c)
    ensures Execute(p, bootStart, s, c) == s.(addr := Advanced(s.addr, c))
  {
  }

  lemma RunReads(p: nat, bootStart: nat, states: seq<State>, commands: seq<Command>, memory: byte, i: nat)
    requires Run(p, bootStart, states, commands) && i <= |commands|
    requires forall j :: i <= j < |commands| ==> commands[j].BlockRead? && commands[j].memory == memory
    ensures Reading(p, states, commands, memory, i)
  {
    forall j | i <= j < |commands|
      ensures InRange(p, states[j], commands[j])
              && states[j + 1] == states[j].(addr := Advanced(states[j].addr, commands[j]))
    {
      ReadStep(p, bootStart, states[j], commands[j]);
    }
  }

  /** The reply to one block read. */
  lemma ReplyLength(p: nat, s: State, c: Command)
    requires c.BlockRead? && InRange(p, s, c) && (c.memory == FLASH || c.memory == EEPROM)
    ensures |Reply(p, s, c)| == c.size
  {
  }

  lemma BlockReply(p: nat, s: State, c: Command)
    requires c.BlockRead? && InRange(p, s, c)
    ensures |Reply(p, s, c)| == c.size
    ensures forall k :: 0 <= k < c.size ==>
              Reply(p, s, c)[k] == if c.memory == FLASH then s.flash[s.addr + k] else s.eeprom[s.addr / 2 + k]
  {
  }

  lemma {:induction false} AnswersLength(p: nat, states: seq<State>, commands: seq<Command>, memory: byte, i: nat)
    requires i <= |commands| && (memory == FLASH || memory == EEPROM) && Reading(p, states, commands, memory, i)
    ensures |Answers(p, states, commands, i)| == Total(Sizes(commands), i)
    decreases |commands| - i
  {
    hide Reply, InRange, Advanced;
    if i < |commands| {
      var sizes := Sizes(commands);
      ReplyLength(p, states[i], commands[i]);
      AnswersLength(p, states, commands, memory, i + 1);
      assert Total(sizes, i) == commands[i].size + Total(sizes, i + 1);
    }
  }

  /** The bytes the bootloader answers to flash reads. */
  lemma {:induction false} FlashAnswer(p: nat, states: seq<State>, commands: seq<Command>, i: nat, k: nat)
    requires i <= |commands| && Reading(p, states, commands, FLASH, i) && k < Total(Sizes(commands), i)
    requires states[i].addr + Total(Sizes(commands), i) <= |states[i].flash|
    ensures |Answers(p, states, commands, i)| == Total(Sizes(commands), i)
    ensures Answers(p, states, commands, i)[k] == states[i].flash[Source(states[i].addr, Sizes(commands), i, k)]
    decreases |commands| - i
  {
    hide Reply, InRange;
    AnswersLength(p, states, commands, FLASH, i);
    BlockReply(p, states[i], commands[i]);
    var n: nat, reply, rest := commands[i].size, Reply(p, states[i], commands[i]), Answers(p, states, commands, i + 1);
    assert Answers(p, states, commands, i)[k] == if k < n then reply[k] else rest[k - n];
    if k >= n { FlashAnswer(p, states, commands, i + 1, k - n); }
  }

  lemma FlashReads(p: nat, states: seq<State>, commands: seq<Command>, i: nat)
    requires i <= |commands| && Reading(p, states, commands, FLASH, i)
    requires states[i].addr + Total(Sizes(commands), i) <= |states[i].flash|
    ensures Answers(p, states, commands, i) == ReadAll(states[i].flash, states[i].addr, Sizes(commands), i)
  {
    AnswersLength(p, states, commands, FLASH, i);
    forall k | 0 <= k < Total(Sizes(commands), i)
      ensures Answers(p, states, commands, i)[k] == states[i].flash[Source(states[i].addr, Sizes(commands), i, k)]
    {
      FlashAnswer(p, states, commands, i, k);
    }
  }

  lemma EepromByte(p: nat, s: State, c: Command, a: nat, k: nat)
    requires c.BlockRead? && c.memory == EEPROM && InRange(p, s, c) && s.addr == 2 * a && k < c.size
    ensures a + k < |s.eeprom| && |Reply(p, s, c)| == c.size && Reply(p, s, c)[k] == s.eeprom[a + k]
  {
  }

  /** Block reads of EEPROM, of any sizes, return consecutive bytes. */
  lemma {:induction false} EepromAnswer(p: nat, states: seq<State>, commands: seq<Command>, a: nat, i: nat, k: nat)
    requires i <= |commands| && Reading(p, states, commands, EEPROM, i) && k < Total(Sizes(commands), i)
    requires states[i].addr == 2 * a
    ensures |Answers(p, states, commands, i)| == Total(Sizes(commands), i)
    ensures a + k < |states[i].eeprom| && Answers(p, states, commands, i)[k] == states[i].eeprom[a + k]
    decreases |commands| - i
  {
    hide Reply, InRange;
    AnswersLength(p, states, commands, EEPROM, i);
    ReplyLength(p, states[i], commands[i]);
    assert states[i + 1].addr == 2 * (a + commands[i].size) && states[i + 1].eeprom == states[i].eeprom;
    assert Reading(p, states, commands, EEPROM, i + 1);
    hide Advanced, Sizes;
    var n: nat, reply, rest := commands[i].size, Reply(p, states[i], commands[i]), Answers(p, states, commands, i + 1);
    assert Answers(p, states, commands, i)[k] == if k < n then reply[k] else rest[k - n];
    if k < n {
      EepromByte(p, states[i], commands[i], a, k);
    } else {
      EepromAnswer(p, states, commands, a + n, i + 1, k - n);
    }
  }

  /** EEPROM reads of a range that holds `bytes`. */
  lemma EepromReadsFrom(p: nat, states: seq<State>, commands: seq<Command>, i: nat, a: nat, bytes: seq<byte>)
    requires i <= |commands| && Reading(p, states, commands, EEPROM, i) && states[i].addr == 2 * a
    requires Total(Sizes(commands), i) <= |bytes| && a + |bytes| <= |states[i].eeprom|
    requires states[i].eeprom[a..a + |bytes|] == bytes
    ensures Answers(p, states, commands, i) == bytes[..Total(Sizes(commands), i)]
  {
    AnswersLength(p, states, commands, EEPROM, i);
    forall k | 0 <= k < Total(Sizes(commands), i) ensures Answers(p, states, commands, i)[k] == bytes[k] {
      EepromAnswer(p, states, commands, a, i, k);
      assert states[i].eeprom[a..a + |bytes|][k] == states[i].eeprom[a + k];
    }
  }

  // ---------------------------------------------------------------- whole sessions

  /** A session: the address is set, blocks are written to a memory, the address is set again, and no more than
      was written is read back. */
  ghost predicate Session(p: nat, bootStart: nat, states: seq<State>, commands: seq<Command>, memory: byte, n: nat) {
    && Run(p, bootStart, states, commands) && n + 2 <= |commands|
    && commands[0].SetAddress? && commands[n + 1] == commands[0]
    && (forall j :: 1 <= j < n + 1 ==> commands[j].BlockWrite? && commands[j].memory == memory)
    && (forall j :: n + 2 <= j < |commands| ==> commands[j].BlockRead? && commands[j].memory == memory)
    && Total(Sizes(commands), n + 2) <= |Blocks(commands, 1, n + 1)|
  }

  lemma AddressSet(p: nat, bootStart: nat, states: seq<State>, commands: seq<Command>, i: nat)
    requires Run(p, bootStart, states, commands) && i < |commands| && commands[i].SetAddress?
    ensures states[i + 1] == states[i].(addr := ByteAddress(commands[i].hi, commands[i].lo))
  {
    var s, c := states[i], commands[i];
    assert s.Fits(p, bootStart) && states[i + 1] == Execute(p, bootStart, s, c);
  }

  lemma OverlayReads(mem: seq<byte>, a: nat, bytes: seq<byte>)
    requires a + |bytes| <= |mem|
    ensures Overlay(mem, a, bytes)[a..a + |bytes|] == bytes
  {
  }

  /** Reads of a flash range that holds `bytes`. */
  lemma FlashReadsFrom(p: nat, bootStart: nat, states: seq<State>, commands: seq<Command>, i: nat,
                       a: nat, bytes: seq<byte>)
    requires Run(p, bootStart, states, commands) && i <= |commands|
    requires forall j :: i <= j < |commands| ==> commands[j].BlockRead? && commands[j].memory == FLASH
    requires states[i].addr == a && Total(Sizes(commands), i) <= |bytes| && a + |bytes| <= |states[i].flash|
    requires states[i].flash[a..a + |bytes|] == bytes
    ensures Answers(p, states, commands, i) == ReadAll(bytes, 0, Sizes(commands), i)
  {
    RunReads(p, bootStart, states, commands, FLASH, i);
    FlashReads(p, states, commands, i);
    ReadRange(states[i].flash, a, bytes, Sizes(commands), i);
  }

  /** The last block of a session comes behind full pages and may be shorter. */
  lemma {:induction false} LastBlock(mem: seq<byte>, p: nat, a: nat, front: seq<byte>, block: seq<byte>)
    requires |block| <= p && a + |front| + p <= |mem|
    ensures PageHolding(Overlay(mem, a, front), p, a + |front|, block)[a..a + |front + block|] == front + block
  {
    var r := PageHolding(Overlay(mem, a, front), p, a + |front|, block);
    forall k | 0 <= k < |front + block| ensures r[a + k] == (front + block)[k] {
    }
  }

  lemma {:induction false} BlocksSnoc(commands: seq<Command>, i: nat, n: nat)
    requires i <= n < |commands| && forall j :: i <= j <= n ==> commands[j].BlockWrite?
    ensures Blocks(commands, i, n + 1) == Blocks(commands, i, n) + commands[n].block
    decreases n - i
  {
    var last := commands[n].block;
    if i == n {
      assert last + [] == last == [] + last;
    } else {
      var head, rest := commands[i].block, Blocks(commands, i + 1, n);
      BlocksSnoc(commands, i + 1, n);
      assert head + (rest + last) == head + rest + last;
    }
  }

  lemma {:induction false} FlashWrite(p: nat, bootStart: nat, s: State, block: seq<byte>)
    requires s.Fits(p, bootStart) && InRange(p, s, BlockWrite(FLASH, block)) && Offset(p, s.addr) == 0
    ensures s.addr + p <= |s.flash|
    ensures Execute(p, bootStart, s, BlockWrite(FLASH, block)).flash
            == PageHolding(s.flash, p, s.addr, WholePart(block))
  {
    PageRoom(p, s.addr, |s.flash|);
    AlignedBlock(s.flash, p, s.addr, block);
  }

  lemma {:induction false} EvenFront(front: seq<byte>, block: seq<byte>)
    requires |front| % 2 == 0
    ensures WholePart(front + block) == front + WholePart(block)
  {
    assert (|front| + |block|) / 2 * 2 == |front| + |block| / 2 * 2;
  }

  /** A last block behind full pages. */
  lemma {:induction false} WroteLast(p: nat, s: State, t: State, front: seq<byte>, block: seq<byte>, flash: seq<byte>)
    requires Wrote(s, t, front) && |front| % 2 == 0 && |block| <= p && t.addr + p <= |t.flash|
    requires flash == PageHolding(t.flash, p, t.addr, WholePart(block))
    ensures var bytes := WholePart(front + block);
            s.addr + |bytes| <= |flash| && flash[s.addr..s.addr + |bytes|] == bytes
  {
    var w := WholePart(block);
    assert WholePart(front + block) == front + w by { EvenFront(front, block); }
    LastBlock(s.flash, p, s.addr, front, w);
  }

  lemma LastWrite(p: nat, bootStart: nat, states: seq<State>, commands: seq<Command>, n: nat)
    requires Run(p, bootStart, states, commands) && n < |commands|
    requires commands[n].BlockWrite? && commands[n].memory == FLASH && Offset(p, states[n].addr) == 0
    ensures var s, block := states[n], commands[n].block;
            && |block| <= p && s.addr + p <= |s.flash| && s.addr % 2 == 0
            && states[n + 1].flash == PageHolding(s.flash, p, s.addr, WholePart(block))
  {
    FlashWrite(p, bootStart, states[n], commands[n].block);
  }

  /** The bytes a session leaves in flash. */
  lemma FlashWritten(p: nat, bootStart: nat, states: seq<State>, commands: seq<Command>, n: nat)
    requires Run(p, bootStart, states, commands) && n < |commands|
    requires forall j :: 1 <= j <= n ==> commands[j].BlockWrite? && commands[j].memory == FLASH
    requires forall j :: 1 <= j < n ==> |commands[j].block| == p
    requires Offset(p, states[1].addr) == 0 && states[1].addr <= |states[1].flash| && states[1].addr % 2 == 0
    ensures var a, bytes, flash := states[1].addr, WholePart(Blocks(commands, 1, n + 1)), states[n + 1].flash;
            a + |bytes| <= |flash| && flash[a..a + |bytes|] == bytes
  {
    if n > 0 {
      var front, t, block := Blocks(commands, 1, n), states[n], commands[n].block;
      assert Wrote(states[1], t, front) by { FlashBlocks(p, bootStart, states, commands, 1, n); }
      assert Offset(p, t.addr) == 0 by { FlashBlocksAligned(p, bootStart, states, commands, 1, n); }
      LastWrite(p, bootStart, states, commands, n);
      BlocksSnoc(commands, 1, n);
      WroteLast(p, states[1], t, front, block, states[n + 1].flash);
    }
  }

  /** A session of full-page writes to flash and a last, possibly shorter one, from a page boundary. */
  ghost predicate FlashSession(p: nat, bootStart: nat, states: seq<State>, commands: seq<Command>, n: nat) {
    && Session(p, bootStart, states, commands, FLASH, n)
    && (forall j :: 1 <= j < n ==> |commands[j].block| == p)
    && Offset(p, ByteAddress(commands[0].hi, commands[0].lo)) == 0
    && ByteAddress(commands[0].hi, commands[0].lo) <= |states[0].flash|
    && Total(Sizes(commands), n + 2) <= |WholePart(Blocks(commands, 1, n + 1))|
  }

  /** Its reads are answered from what was written, by whole words. */
  lemma FlashReadOut(p: nat, bootStart: nat, states: seq<State>, commands: seq<Command>, n: nat)
    requires FlashSession(p, bootStart, states, commands, n)
    ensures Answers(p, states, commands, n + 2)
            == ReadAll(WholePart(Blocks(commands, 1, n + 1)), 0, Sizes(commands), n + 2)
  {
    AddressSet(p, bootStart, states, commands, 0);
    FlashWritten(p, bootStart, states, commands, n);
    AddressSet(p, bootStart, states, commands, n + 1);
    FlashReadsFrom(p, bootStart, states, commands, n + 2, states[1].addr, WholePart(Blocks(commands, 1, n + 1)));
  }

  lemma PrefixOfWhole(bytes: seq<byte>, len: nat)
    requires len <= |WholePart(bytes)|
    ensures WholePart(bytes)[0..0 + len] == bytes[..len]
  {
  }

  /** Reading back what was written: the bytes come back as they were when every read of odd size is followed
      by empty ones only, and by `ReadAllExact` for all contents only then. */
  lemma FlashRoundTrip(p: nat, bootStart: nat, states: seq<State>, commands: seq<Command>, n: nat)
    requires FlashSession(p, bootStart, states, commands, n) && WholeWords(Sizes(commands), n + 2)
    ensures Answers(p, states, commands, n + 2) == Blocks(commands, 1, n + 1)[..Total(Sizes(commands), n + 2)]
  {
    var bytes, len := Blocks(commands, 1, n + 1), Total(Sizes(commands), n + 2);
    FlashReadOut(p, bootStart, states, commands, n);
    WholeWordsRead(WholePart(bytes), 0, Sizes(commands), n + 2);
    PrefixOfWhole(bytes, len);
  }

  /** How it goes wrong: two reads of one byte each are both answered with the first byte. */
  lemma RepeatedByte(p: nat, bootStart: nat, s: State) returns (states: seq<State>, commands: seq<Command>)
    requires s.Fits(p, bootStart) && s.addr + 4 <= |s.flash| && s.flash[s.addr..s.addr + 4] == [1, 2, 3, 4]
    ensures commands == [BlockRead(FLASH, 1), BlockRead(FLASH, 1)]
    ensures Run(p, bootStart, states, commands) && states[0] == s
    ensures Answers(p, states, commands, 0) == [1, 1]
  {
    commands := [BlockRead(FLASH, 1), BlockRead(FLASH, 1)];
    states := [s, s, s];
    assert s.flash[s.addr..s.addr + 1] == [s.flash[s.addr..s.addr + 4][0]];
    assert Answers(p, states, commands, 2) == [];
    assert Answers(p, states, commands, 1) == [1];
  }

  /** The same for EEPROM: blocks of any sizes on both sides return what was written. */
  lemma EepromRoundTrip(p: nat, bootStart: nat, states: seq<State>, commands: seq<Command>, n: nat)
    requires Session(p, bootStart, states, commands, EEPROM, n)
    requires ByteAddress(commands[0].hi, commands[0].lo) / 2 <= |states[0].eeprom|
    ensures Answers(p, states, commands, n + 2) == Blocks(commands, 1, n + 1)[..Total(Sizes(commands), n + 2)]
  {
    var a, bytes := ByteAddress(commands[0].hi, commands[0].lo), Blocks(commands, 1, n + 1);
    AddressSet(p, bootStart, states, commands, 0);
    EepromBlocks(p, bootStart, states, commands, 1, n + 1);
    OverlayReads(states[1].eeprom, a / 2, bytes);
    AddressSet(p, bootStart, states, commands, n + 1);
    RunReads(p, bootStart, states, commands, EEPROM, n + 2);
    EepromReadsFrom(p, states, commands, n + 2, a / 2, bytes);
  }

  // ---------------------------------------------------------------- erase, and EEPROM byte by byte

  /** After an erase the application section reads as 0xFF wherever it is read; the boot section, EEPROM and address
      are as they were. */
  lemma EraseThenRead(p: nat, bootStart: nat, s: State, n: word)
    requires s.Fits(p, bootStart) && s.addr + n <= |s.flash|
    ensures var t := Execute(p, bootStart, s, EraseFlash);
            && t.addr == s.addr && t.eeprom == s.eeprom && t.run == s.run && Reply(p, s, EraseFlash) == [0x0D]
            && Reply(p, t, BlockRead(0x46, n))
               == seq(n, i requires 0 <= i < n => if s.addr + i < bootStart then 0xFF else s.flash[s.addr + i])
  {
    var t := Execute(p, bootStart, s, EraseFlash);
    assert t == s.(flash := ApplicationErased(s.flash, bootStart));
    hide Execute;
    var reply := Reply(p, t, BlockRead(0x46, n));
    assert reply == t.flash[s.addr..s.addr + n];
    hide Reply;
    forall i | 0 <= i < n ensures reply[i] == if s.addr + i < bootStart then 0xFF else s.flash[s.addr + i] {
      assert reply[i] == t.flash[s.addr + i];
    }
  }

  /** A byte written to EEPROM comes back, every other byte stays, and both commands move on to the next one. */
  lemma EepromByteRoundTrip(p: nat, bootStart: nat, s: State, hi: byte, lo: byte, b: byte)
    requires s.Fits(p, bootStart) && hi < 0x40 && hi * 256 + lo < |s.eeprom|
    ensures var a := hi * 256 + lo;
            var s1 := Execute(p, bootStart, s, SetAddress(hi, lo));
            && InRange(p, s1, WriteEeprom(b)) && var s2 := Execute(p, bootStart, s1, WriteEeprom(b));
            && var s3 := Execute(p, bootStart, s2, SetAddress(hi, lo));
            && InRange(p, s3, ReadEeprom) && Reply(p, s3, ReadEeprom) == [b]
            && s2.eeprom == s.eeprom[a := b] && s2.flash == s.flash && s3.eeprom == s2.eeprom
            && s1.addr == 2 * a && s2.addr == 2 * (a + 1)
            && Execute(p, bootStart, s3, ReadEeprom) == s3.(addr := 2 * (a + 1))
            && Reply(p, s, SetAddress(hi, lo)) == Reply(p, s1, WriteEeprom(b)) == [0x0D]
  {
    SetAddressExact(hi, lo);
    hide ByteAddress;
  }

  /** Block writes are acknowledged, whatever the memory. */
  lemma WritesAcknowledged(p: nat, s: State, memory: byte, block: seq<byte>)
    requires InRange(p, s, BlockWrite(memory, block))
    ensures Reply(p, s, BlockWrite(memory, block)) == [0x0D]
  {
  }

  /** The commands that touch no memory: leaving the bootloader is acknowledged, an unknown memory is refused, and a
      synchronisation byte is not answered. */
  lemma Courtesies(p: nat, bootStart: nat, s: State, write: bool, size: word, memory: byte)
    requires s.Fits(p, bootStart) && memory != 0x46 && memory != 0x45
    ensures Reply(p, s, Exit) == [0x0D] && Execute(p, bootStart, s, Exit) == s.(run := false)
    ensures InRange(p, s, UnknownMemory(write, size, memory))
    ensures Reply(p, s, UnknownMemory(write, size, memory)) == [0x3F]
    ensures Execute(p, bootStart, s, UnknownMemory(write, size, memory)) == s
    ensures Reply(p, s, Sync) == [] && Execute(p, bootStart, s, Sync) == s
  {
  }
}
