/**
 The AVR109 commands of the CDC bootloader that address memory, as a host encodes them and as
 functions of the bootloader's state.
 */
module CdcSpec {
  import opened Bytes
  import opened Hardware
  import opened FlashImage

  const FLASH: byte := 0x46      // 'F'
  const EEPROM: byte := 0x45     // 'E'
  const ACK: byte := 0x0D
  const FAIL: byte := 0x3F       // '?'

  datatype Command =
    | SetAddress(hi: byte, lo: byte)
    | BlockWrite(memory: byte, block: seq<byte>)
    | BlockRead(memory: byte, size: word)
    | UnknownMemory(write: bool, size: word, memory: byte)
    | EraseFlash
    | WriteEeprom(b: byte)
    | ReadEeprom
    | Exit
    | Sync

  /** The bytes of a command on the wire. */
  function Encode(c: Command): seq<byte> {
    match c
    case SetAddress(hi, lo) => [0x41, hi, lo]
    case BlockWrite(m, block) => [0x42, |block| / 256 % 256, |block| % 256, m] + block
    case BlockRead(m, n) => [0x67, n / 256, n % 256, m]
    case UnknownMemory(w, n, m) => [if w then 0x42 else 0x67, n / 256, n % 256, m]
    case EraseFlash => [0x65]
    case WriteEeprom(b) => [0x44, b]
    case ReadEeprom => [0x64]
    case Exit => [0x45]
    case Sync => [27]
  }

  /** The bootloader's variables and the memories it works on. */
  datatype State = State(addr: nat, run: bool, flash: seq<byte>, eeprom: seq<byte>) {
    ghost predicate Fits(p: nat, bootStart: nat) {
      && IsPageSize(p)
      && Offset(p, |flash|) == 0 && Offset(p, bootStart) == 0 && bootStart <= |flash|
      && addr % 2 == 0
    }
  }

  /** Both bytes of the word address go through 16-bit arithmetic on their way to a byte address, and
      the high one is sign-extended to 32 bits. */
  function ByteAddress(hi: byte, lo: byte): (a: nat)
    ensures a % 2 == 0
  {
    var h := hi * 512 % 0x1_0000;
    (if h < 0x8000 then h else h + 0xFFFF_0000) + lo * 2
  }

  /** The host stays within the part's memories and the block size the bootloader announces. */
  predicate InRange(p: nat, s: State, c: Command) {
    match c
    case BlockWrite(m, block) =>
      if m == FLASH then |block| <= p && s.addr < |s.flash|
      else m == EEPROM && |block| < 0x1_0000 && s.addr / 2 + |block| <= |s.eeprom|
    case BlockRead(m, n) =>
      if m == FLASH then s.addr + n <= |s.flash|
      else m == EEPROM && s.addr / 2 + n <= |s.eeprom|
    case UnknownMemory(_, _, m) => m != FLASH && m != EEPROM
    case WriteEeprom(_) => s.addr / 2 < |s.eeprom|
    case ReadEeprom => s.addr / 2 < |s.eeprom|
    case _ => true
  }

  /** The header of a block command: its size, its memory, and nothing else before the block itself. */
  lemma BlockHeader(p: nat, s: State, c: Command)
    requires c.BlockWrite? || c.BlockRead? || c.UnknownMemory?
    requires IsPageSize(p) && InRange(p, s, c)
    ensures |Encode(c)| >= 4
    ensures Word(Encode(c)[2], Encode(c)[1]) == (if c.BlockWrite? then |c.block| else c.size)
    ensures Encode(c)[3] == c.memory
    ensures Encode(c)[4..] == if c.BlockWrite? then c.block else []
  {
  }

  /** The whole words of some bytes; an odd last byte is lost. */
  function WholePart(bytes: seq<byte>): (w: seq<byte>)
    ensures |w| <= |bytes| <= |w| + 1 && |w| % 2 == 0
  {
    bytes[..|bytes| / 2 * 2]
  }

  /** Flash after one block: whole words only, in the one page that was erased for it. */
  function BlockWritten(mem: seq<byte>, p: nat, addr: nat, block: seq<byte>): (r: seq<byte>)
    requires 0 < p
    ensures |r| == |mem|
  {
    if |block| < 2 then WithErased(mem, PageStart(p, addr), p) else Programmed(mem, p, addr, WholePart(block))
  }

  /** Committing a loaded block gives just that flash. */
  lemma {:induction false} BlockCommitted(mem0: seq<byte>, p: nat, q: nat, s: nat, block: seq<byte>)
    requires s < p && Offset(p, q) == 0 && |block| <= p
    ensures var mem, fw := WithErased(mem0, q, p), WholePart(block);
            WithCommitted(Partly(mem, Programmed(mem, p, q + s, fw), p, q, 0), q, Buffered(p, s, fw, 0, |fw|))
            == BlockWritten(mem0, p, q + s, block)
  {
    if |block| < 2 {
      EmptyPage(mem0, p, q, s);
      assert WholePart(block) == [] && PageStart(p, q + s) == q by { InPage(p, q, s); }
    } else {
      OnePage(mem0, p, q, s, WholePart(block));
    }
  }

  /** The state after a command. */
  function Execute(p: nat, bootStart: nat, s: State, c: Command): (t: State)
    requires s.Fits(p, bootStart) && InRange(p, s, c)
    ensures t.Fits(p, bootStart)
    ensures |t.flash| == |s.flash| && |t.eeprom| == |s.eeprom|
  {
    match c
    case SetAddress(hi, lo) => s.(addr := ByteAddress(hi, lo))
    case BlockWrite(m, block) =>
      if m == FLASH then
        s.(flash := BlockWritten(s.flash, p, s.addr, block), addr := s.addr + |block| / 2 * 2)
      else
        s.(eeprom := Overlay(s.eeprom, s.addr / 2, block), addr := s.addr + 2 * |block|)
    case BlockRead(m, n) => s.(addr := s.addr + (if m == FLASH then n / 2 * 2 else 2 * n))
    case EraseFlash => s.(flash := ApplicationErased(s.flash, bootStart))
    case WriteEeprom(b) => s.(eeprom := s.eeprom[s.addr / 2 := b], addr := s.addr + 2)
    case ReadEeprom => s.(addr := s.addr + 2)
    case Exit => s.(run := false)
    case _ => s
  }

  /** What the host is answered. */
  function Reply(p: nat, s: State, c: Command): seq<byte>
    requires InRange(p, s, c)
  {
    match c
    case BlockRead(m, n) => if m == FLASH then s.flash[s.addr..s.addr + n] else s.eeprom[s.addr / 2..s.addr / 2 + n]
    case ReadEeprom => [s.eeprom[s.addr / 2]]
    case UnknownMemory(_, _, _) => [FAIL]
    case Sync => []
    case _ => [ACK]
  }
}
