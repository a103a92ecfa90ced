/**
 What the DFU bootloader computes, as functions on values: the state its control requests act on,
 the command interpreter, and the memory images that programming, erasing and reading work on.
 */
module DfuSpec {
  import opened Bytes
  import opened Hardware
  import opened FlashImage

  const PACKET := 32       // FIXED_CONTROL_ENDPOINT_SIZE
  const FILLER := 26       // DFU_FILLER_BYTES_SIZE
  const SUFFIX := 16       // DFU_FILE_SUFFIX_SIZE

  const PROG_START: byte := 0x01
  const DISP_DATA: byte := 0x03
  const WRITE: byte := 0x04
  const READ: byte := 0x05
  const CHANGE_BASE_ADDR: byte := 0x06

  datatype DfuState = Idle | DnloadIdle | UploadIdle | Error
  datatype DfuStatus = Ok | ErrWrite | ErrCheckErased

  /** The part the bootloader was built for. */
  datatype Part = Part(pageSize: nat, bootStart: nat, info: seq<byte>, signature: seq<byte>) {
    ghost predicate Valid() {
      && IsPageSize(pageSize)
      && Offset(pageSize, bootStart) == 0
    }
  }

  /** The bootloader's static variables together with the memories it programs. */
  datatype Session = Session(
    secure: bool, state: DfuState, status: DfuStatus, waitForExit: bool, run: bool,
    command: byte, data: seq<byte>, dataSize: word, response: byte,
    page64k: byte, startAddr: word, endAddr: word,
    flash: seq<byte>, eeprom: seq<byte>)
  {
    ghost predicate Fits(p: Part) {
      && p.Valid()
      && |data| == 5
      && Offset(p.pageSize, |flash|) == 0
      && p.bootStart <= |flash|
      && |eeprom| <= 0x1_0000
    }

    /** Number of bytes from the start to the end address, in 16-bit arithmetic. */
    function Length(): word {
      (endAddr - startAddr + 1) % 0x1_0000
    }

    /** What holds between requests, however the host behaves: only the start-application command,
        outside secure mode, leaves the bootloader waiting to exit, a finished download has used up its address
        range, and secure mode never coexists with a state that programs or reads out memory. */
    ghost predicate Reachable() {
      && |data| == 5
      && (waitForExit ==> command == WRITE && data[0] == 3 && !secure)
      && (state == DnloadIdle ==> Length() <= 1)
      && (secure ==> state != DnloadIdle && state != UploadIdle)
    }

    /** Flash address made of the 64KB page and the 16-bit start address. */
    function FlashAddr(): nat {
      page64k * 0x1_0000 + startAddr
    }
  }

  // ---------------------------------------------------------------- memory images

  /** Lowest address from `a` on that is not blank, or `bootStart`. */
  function ScanBlank(mem: seq<byte>, bootStart: nat, a: nat): (r: nat)
    requires a <= bootStart <= |mem|
    ensures a <= r <= bootStart
    ensures forall b :: a <= b < r ==> mem[b] == ERASED
    ensures r < bootStart ==> mem[r] != ERASED
    decreases bootStart - a
  {
    if a == bootStart || mem[a] != ERASED then a else ScanBlank(mem, bootStart, a + 1)
  }

  // ---------------------------------------------------------------- the command interpreter

  /** Start and end address from the five parameter bytes. */
  function LoadAddresses(s: Session): Session
    requires |s.data| == 5
  {
    s.(startAddr := Word(s.data[2], s.data[1]), endAddr := Word(s.data[4], s.data[3]))
  }

  function MemProg(p: Part, s: Session): Session
    requires s.Fits(p)
  {
    if s.data[0] == 0 || s.data[0] == 1 then
      var t := LoadAddresses(s);
      t.(state := DnloadIdle,
         flash := if s.data[0] == 0 then WithErased(s.flash, PageStart(p.pageSize, t.FlashAddr()), p.pageSize)
                  else s.flash)
    else s
  }

  function MemRead(p: Part, s: Session): Session
    requires s.Fits(p)
  {
    if s.data[0] == 0 || s.data[0] == 2 then
      LoadAddresses(s).(state := UploadIdle)
    else if s.data[0] == 1 then
      var a := ScanBlank(s.flash, p.bootStart, 0);
      if a < p.bootStart then
        s.(page64k := a / 0x1_0000 % 256, startAddr := a % 0x1_0000, state := Error, status := ErrCheckErased)
      else s
    else s
  }

  function WriteCommand(p: Part, s: Session): Session
    requires s.Fits(p)
  {
    if s.data[0] == 3 then
      s.(waitForExit := true, run := if s.dataSize == 0 && s.data[1] != 0 then false else s.run)
    else if s.data[0] == 0 && s.data[1] == 0xFF then
      s.(flash := ApplicationErased(s.flash, p.bootStart), secure := false)
    else s
  }

  function ReadCommand(p: Part, s: Session): Session
    requires |s.data| == 5
  {
    if s.data[0] == 0 && s.data[1] < |p.info| then s.(response := p.info[s.data[1]])
    else if s.data[0] == 1 && 0x30 <= s.data[1] < 0x30 + |p.signature| then
      s.(response := p.signature[s.data[1] - 0x30])
    else s
  }

  /** Is the loaded command one of the two that secure mode lets through? */
  predicate AllowedWhenSecure(s: Session)
    requires |s.data| == 5
  {
    (s.command == WRITE && s.data[0] == 0 && s.data[1] == 0xFF) || s.command == READ
  }

  function ProcessCommand(p: Part, s: Session): (r: Session)
    requires s.Fits(p)
    ensures r.Fits(p) && |r.flash| == |s.flash| && r.eeprom == s.eeprom
    ensures r.command == s.command && r.data == s.data && r.dataSize == s.dataSize
  {
    if s.secure && !AllowedWhenSecure(s) then s.(state := Error, status := ErrWrite)
    else if s.command == PROG_START then MemProg(p, s)
    else if s.command == DISP_DATA then MemRead(p, s)
    else if s.command == WRITE then WriteCommand(p, s)
    else if s.command == READ then ReadCommand(p, s)
    else if s.command == CHANGE_BASE_ADDR && s.data[0] == 3 && s.data[1] == 0 then s.(page64k := s.data[2])
    else s
  }

  /** The first page of a flash download is erased before its address is used; it must exist. */
  predicate CommandInRange(s: Session)
    requires |s.data| == 5
  {
    s.command == PROG_START && s.data[0] == 0 && !s.secure ==> LoadAddresses(s).FlashAddr() < |s.flash|
  }

  /** All but the last packet are full, as an IN transfer requires. */
  predicate FullPackets(packets: seq<seq<byte>>) {
    forall i :: 0 <= i < |packets| - 1 ==> |packets[i]| == PACKET
  }

  // ---------------------------------------------------------------- control requests

  /** Parameter bytes found in the first packet of the data stage. */
  function HeaderLength(stage: seq<byte>): nat {
    if stage == [] then 0 else Min(5, Min(PACKET, |stage|) - 1)
  }

  /** The command byte and its parameters are taken over; parameters the stage does not hold keep
      their earlier values. */
  function LoadHeader(s: Session, stage: seq<byte>): Session
    requires |s.data| == 5 && 0 < |stage| < 0x1_0000
  {
    var h := HeaderLength(stage);
    s.(command := stage[0], data := stage[1..1 + h] + s.data[h..], dataSize := |stage| - 1 - h)
  }

  /** Bank and rest of the stage after `count` turns of discarding: a turn that fetches a packet discards
      nothing. */
  function Discarded(bank: seq<byte>, pending: seq<byte>, count: nat): (seq<byte>, seq<byte>)
    requires count <= PACKET && (count <= |bank| || (pending != [] && count <= |bank| + |pending|))
  {
    var m := Min(PACKET, |pending|);
    if count <= |bank| then (bank[count..], pending) else (pending[..m][count - 1 - |bank|..], pending[m..])
  }

  /** Where in the data stage the device starts reading firmware. Switching packets costs one of the
      alignment bytes its turn, so for an unaligned start this is one byte before the firmware. */
  function ReadFrom(startAddr: word): nat {
    var k := startAddr % PACKET;
    PACKET + (if k == 0 then 0 else k - 1)
  }

  /** Bytes of firmware the device takes from the data stage. */
  function Consumed(s: Session): nat
    requires |s.data| == 5
  {
    if s.data[0] == 0 then s.Length() / 2 * 2 else s.Length()
  }

  /** The data stage of a download holds the filler, the alignment bytes, the firmware and the
      suffix, and the addressed memory exists. Words are only read from word-aligned streams. */
  predicate StageFits(p: Part, s: Session, stage: seq<byte>)
    requires s.Fits(p)
  {
    var n := Consumed(s);
    && |stage| >= PACKET + s.startAddr % PACKET + n + SUFFIX
    && if s.data[0] == 0 then
         n > 0 ==> s.startAddr % PACKET == 0
                   && PageStart(p.pageSize, s.FlashAddr()) + n <= |s.flash|
       else s.startAddr + n <= |s.eeprom|
  }

  /** Programs the firmware in the data stage. */
  function Download(p: Part, s: Session, stage: seq<byte>): (r: Session)
    requires s.Fits(p) && StageFits(p, s, stage)
    ensures r.Fits(p) && |r.flash| == |s.flash| && |r.eeprom| == |s.eeprom|
  {
    var n := Consumed(s);
    var fw := stage[ReadFrom(s.startAddr)..][..n];
    if s.data[0] == 0 then
      s.(flash := if n == 0 then s.flash else Programmed(s.flash, p.pageSize, s.FlashAddr(), fw),
         startAddr := s.endAddr)
    else
      s.(eeprom := Overlay(s.eeprom, s.startAddr, fw),
         startAddr := (s.startAddr + n) % 0x1_0000)
  }

  /** A flash download by its words: where they come from and that they fit. */
  lemma FlashDownloadIs(p: Part, s: Session, stage: seq<byte>, words: nat)
    requires s.Fits(p) && StageFits(p, s, stage) && s.data[0] == 0 && words == s.Length() / 2
    ensures |stage| >= ReadFrom(s.startAddr) + 2 * words + SUFFIX
    ensures words > 0 ==> ReadFrom(s.startAddr) == PACKET && s.startAddr % PACKET == 0 && s.FlashAddr() % 2 == 0
                          && PageStart(p.pageSize, s.FlashAddr()) + 2 * words <= |s.flash|
    ensures Download(p, s, stage) == s.(startAddr := s.endAddr, flash :=
              if words == 0 then s.flash
              else Programmed(s.flash, p.pageSize, s.FlashAddr(), stage[ReadFrom(s.startAddr)..][..2 * words]))
  {
    hide Programmed, PageStart;
    assert Consumed(s) == 2 * words;
    if words > 0 { assert s.startAddr % 2 == 0 && s.FlashAddr() % 2 == 0; }
  }

  /** An EEPROM download by its bytes. */
  lemma EepromDownloadIs(p: Part, s: Session, stage: seq<byte>, rest: seq<byte>)
    requires s.Fits(p) && StageFits(p, s, stage) && s.data[0] != 0 && rest == stage[ReadFrom(s.startAddr)..]
    ensures var n := s.Length();
            && |rest| >= n + SUFFIX && s.startAddr + n <= |s.eeprom|
            && Download(p, s, stage) == s.(startAddr := (s.startAddr + n) % 0x1_0000,
                                           eeprom := Overlay(s.eeprom, s.startAddr, rest[..n]))
  {
  }

  /** The command left over from the request before, if the bootloader waits for its last one. */
  function AfterExit(p: Part, s: Session, n: word): (r: Session)
    requires s.Fits(p)
    ensures r.Fits(p) && |r.flash| == |s.flash| && r.eeprom == s.eeprom
  {
    var t := s.(dataSize := n);
    if s.waitForExit then ProcessCommand(p, t).(waitForExit := false) else t
  }

  function AfterCommand(p: Part, s: Session, stage: seq<byte>): (r: Session)
    requires s.Fits(p) && |stage| < 0x1_0000
    ensures r.Fits(p) && |r.flash| == |s.flash| && r.eeprom == s.eeprom
  {
    var t := AfterExit(p, s, |stage|);
    if stage == [] then t else ProcessCommand(p, LoadHeader(t, stage))
  }

  /** The request is one the hardware can complete. */
  predicate Completes(p: Part, s: Session, stage: seq<byte>)
    requires s.Fits(p)
  {
    && |stage| < 0x1_0000
    && (s.waitForExit ==> CommandInRange(s))
    && (stage != [] ==> CommandInRange(LoadHeader(AfterExit(p, s, |stage|), stage)))
    && var t := AfterCommand(p, s, stage);
       (t.state == DnloadIdle && t.dataSize != 0 ==> StageFits(p, t, stage))
  }

  /** DFU_DNLOAD */
  function DnLoad(p: Part, s: Session, stage: seq<byte>): (r: Session)
    requires s.Fits(p) && Completes(p, s, stage)
    ensures r.Fits(p) && |r.flash| == |s.flash| && |r.eeprom| == |s.eeprom|
  {
    var t := AfterCommand(p, s, stage);
    if t.state != DnloadIdle then t
    else if t.dataSize == 0 then t.(state := Idle)
    else Download(p, t, stage)
  }

  /** A request with a data stage: the start-application command left over does nothing but be forgotten. */
  lemma ExitForgotten(p: Part, s: Session, n: word)
    requires s.Fits(p) && s.Reachable() && n > 0
    ensures s.waitForExit ==> CommandInRange(s)
    ensures AfterExit(p, s, n) == s.(dataSize := n, waitForExit := false)
  {
  }

  /** What every command leaves of the state it finds. Secure mode only ends, and while it lasts no
      command touches the memories or enters a state that gives access to them. A download is under
      way after a command only if that command started it or it was under way before. */
  lemma CommandKeeps(p: Part, s: Session)
    requires s.Fits(p)
    ensures var t := ProcessCommand(p, s);
            && (t.secure ==> s.secure && t.flash == s.flash && (t.state == s.state || t.state == Error))
            && (t.waitForExit ==> s.waitForExit || (s.command == WRITE && s.data[0] == 3 && !t.secure))
            && (t.state == DnloadIdle ==>
                  if s.command == PROG_START && !s.secure then
                    s.data[0] == 0 ==> t.flash == WithErased(t.flash, PageStart(p.pageSize, t.FlashAddr()), p.pageSize)
                  else s.state == DnloadIdle && t.Length() == s.Length())
  {
  }

  /** The same for the command part of a DFU_DNLOAD request. */
  lemma RequestKeeps(p: Part, s: Session, stage: seq<byte>)
    requires s.Fits(p) && s.Reachable() && Completes(p, s, stage)
    ensures var t := AfterCommand(p, s, stage);
            && (t.secure ==> s.secure && t.flash == s.flash && t.state != DnloadIdle && t.state != UploadIdle)
            && (t.waitForExit ==> t.command == WRITE && t.data[0] == 3 && !t.secure)
            && (t.state == DnloadIdle && t.Length() > 1 ==> stage != [] && t.command == PROG_START)
  {
    var e := AfterExit(p, s, |stage|);
    if s.waitForExit { CommandKeeps(p, s.(dataSize := |stage|)); }
    if stage != [] { CommandKeeps(p, LoadHeader(e, stage)); }
  }

  /** A download that programs flash follows a program command in the same request, given outside
      secure mode; so its first page has just been erased. */
  lemma ProgrammingIsPrepared(p: Part, s: Session, stage: seq<byte>)
    requires s.Fits(p) && s.Reachable() && Completes(p, s, stage)
    requires var t := AfterCommand(p, s, stage); t.state == DnloadIdle && Consumed(t) > 1
    ensures stage != [] && !LoadHeader(AfterExit(p, s, |stage|), stage).secure
    ensures var t := AfterCommand(p, s, stage);
            && t.command == PROG_START && !t.secure
            && (t.data[0] == 0 ==> t.flash == WithErased(t.flash, PageStart(p.pageSize, t.FlashAddr()), p.pageSize))
  {
    RequestKeeps(p, s, stage);
    CommandKeeps(p, LoadHeader(AfterExit(p, s, |stage|), stage));
  }

  predicate UploadInRange(s: Session)
    requires |s.data| == 5
  {
    s.state == UploadIdle ==>
      if s.data[0] == 0 then s.FlashAddr() + s.Length() / 2 * 2 <= |s.flash|
      else s.data[0] == 2 ==> s.startAddr + s.Length() <= |s.eeprom|
  }

  /** The bytes a DFU_UPLOAD request answers with. */
  function UpLoadReply(s: Session): seq<byte>
    requires |s.data| == 5 && UploadInRange(s)
  {
    if s.state != UploadIdle then
      if s.state == Error && s.data[0] == 1 then [s.startAddr % 256, s.startAddr / 256] else [s.response]
    else if s.data[0] == 0 then s.flash[s.FlashAddr()..][..s.Length() / 2 * 2]
    else if s.data[0] == 2 then s.eeprom[s.startAddr..][..s.Length()]
    else []
  }

  /** DFU_UPLOAD */
  function UpLoad(s: Session, length: word): Session
    requires |s.data| == 5
  {
    var t := s.(dataSize := length);
    if s.state != UploadIdle then t
    else t.(state := Idle,
            startAddr := if s.data[0] == 0 then s.endAddr
                         else if s.data[0] == 2 then (s.startAddr + s.Length()) % 0x1_0000
                         else s.startAddr)
  }

  lemma ReplyIgnoresSize(s: Session, n: word)
    requires |s.data| == 5
    ensures UploadInRange(s.(dataSize := n)) == UploadInRange(s) && UpLoad(s.(dataSize := n), n) == UpLoad(s, n)
    ensures UploadInRange(s) ==> UpLoadReply(s.(dataSize := n)) == UpLoadReply(s)
  {
  }

  /** Class requests to the DFU interface. */
  datatype Request =
    | DnLoadRequest(stage: seq<byte>)
    | UpLoadRequest(length: word)
    | GetStatus(length: word)
    | ClrStatus(length: word)
    | GetState(length: word)
    | Abort(length: word)

  function StateCode(s: DfuState): byte {
    match s case Idle => 2 case DnloadIdle => 5 case UploadIdle => 9 case Error => 10
  }

  function StatusCode(s: DfuStatus): byte {
    match s case Ok => 0 case ErrWrite => 3 case ErrCheckErased => 5
  }

  /** The device completes the request: the data stage is long enough and the addresses exist. */
  predicate Enabled(p: Part, s: Session, r: Request)
    requires s.Fits(p)
  {
    match r
    case DnLoadRequest(stage) => Completes(p, s, stage)
    case UpLoadRequest(_) => UploadInRange(s)
    case _ => true
  }

  function Reply(p: Part, s: Session, r: Request): seq<byte>
    requires s.Fits(p) && Enabled(p, s, r)
  {
    match r
    case UpLoadRequest(_) => UpLoadReply(s)
    case GetStatus(_) => [StatusCode(s.status), 0, 0, 0, StateCode(s.state), 0]
    case GetState(_) => [StateCode(s.state)]
    case _ => []
  }

  /** EVENT_USB_Device_ControlRequest */
  function Handle(p: Part, s: Session, r: Request): (t: Session)
    requires s.Fits(p) && Enabled(p, s, r)
    ensures t.Fits(p) && |t.flash| == |s.flash| && |t.eeprom| == |s.eeprom|
  {
    match r
    case DnLoadRequest(stage) => DnLoad(p, s, stage)
    case UpLoadRequest(n) => UpLoad(s, n)
    case ClrStatus(n) => s.(dataSize := n, status := Ok)
    case Abort(n) => s.(dataSize := n, state := Idle)
    case _ => s.(dataSize := r.length)
  }

  lemma UsedUp(start: word, end: word)
    ensures (end - (start + (end - start + 1) % 0x1_0000) % 0x1_0000 + 1) % 0x1_0000 == 0
  {
  }

  /** A finished download has used up its address range and kept everything but the memories. */
  lemma DownloadKeeps(p: Part, s: Session, stage: seq<byte>)
    requires s.Fits(p) && StageFits(p, s, stage)
    ensures var t := Download(p, s, stage);
            t.Length() <= 1 && t == s.(startAddr := t.startAddr, flash := t.flash, eeprom := t.eeprom)
  {
    if s.data[0] != 0 { UsedUp(s.startAddr, s.endAddr); }
  }

  /** Every request keeps the invariant. Secure mode is never entered again once left, and a request
      that leaves the device in secure mode has touched neither memory. */
  lemma HandleKeeps(p: Part, s: Session, r: Request)
    requires s.Fits(p) && s.Reachable() && Enabled(p, s, r)
    ensures var t := Handle(p, s, r);
            && t.Reachable()
            && (t.secure ==> s.secure && t.flash == s.flash && t.eeprom == s.eeprom)
  {
    match r
    case DnLoadRequest(stage) =>
      RequestKeeps(p, s, stage);
      var t := AfterCommand(p, s, stage);
      if t.state == DnloadIdle && t.dataSize != 0 { DownloadKeeps(p, t, stage); }
    case UpLoadRequest(_) =>
    case _ =>
  }
}
