/**
 What the DFU bootloader guarantees: over every sequence of requests, and for every download.
 */
module DfuTheorems {
  import opened Bytes
  import opened Hardware
  import opened FlashImage
  import opened DfuSpec

  // ---------------------------------------------------------------- every run of requests

  /** A run: the state after each request, or the point where the device stops answering. */
  ghost predicate Run(p: Part, states: seq<Session>, requests: seq<Request>) {
    && |states| == |requests| + 1
    && (forall i :: 0 <= i < |states| ==> states[i].Fits(p))
    && (forall i :: 0 <= i < |requests| ==> Enabled(p, states[i], requests[i])
                                            && states[i + 1] == Handle(p, states[i], requests[i]))
  }

  /** Secure mode, over every run from power-up: as long as it lasts, both memories are as they were
      and no state that programs or reads memory is entered; once cleared it stays cleared. */
  lemma {:induction false} SecureRun(p: Part, states: seq<Session>, requests: seq<Request>, k: nat)
    requires Run(p, states, requests) && states[0].Reachable() && k < |states|
    ensures states[k].Reachable()
    ensures states[k].secure ==>
              && states[k].flash == states[0].flash && states[k].eeprom == states[0].eeprom
              && states[k].state != DnloadIdle && states[k].state != UploadIdle
    ensures forall j :: 0 <= j <= k && !states[j].secure ==> !states[k].secure
  {
    if k > 0 {
      SecureRun(p, states, requests, k - 1);
      assert Enabled(p, states[k - 1], requests[k - 1]);
      HandleKeeps(p, states[k - 1], requests[k - 1]);
    }
  }

  // ---------------------------------------------------------------- secrecy of the application

  /** Two devices that differ at most in their application firmware. */
  ghost predicate SameButApplication(p: Part, s: Session, t: Session) {
    && t == s.(flash := t.flash) && |t.flash| == |s.flash|
    && forall a :: p.bootStart <= a < |s.flash| ==> s.flash[a] == t.flash[a]
  }

  /** What a host can not tell apart: the devices are alike, or secure and alike but for their firmware. */
  ghost predicate Alike(p: Part, s: Session, t: Session) {
    s == t || (s.secure && SameButApplication(p, s, t))
  }

  lemma CommandAlike(p: Part, s: Session, t: Session)
    requires s.Fits(p) && t.Fits(p) && Alike(p, s, t)
    ensures Alike(p, ProcessCommand(p, s), ProcessCommand(p, t))
  {
    if s != t && s.command == WRITE && s.data[0] == 0 && s.data[1] == 0xFF {
      assert ApplicationErased(s.flash, p.bootStart) == ApplicationErased(t.flash, p.bootStart);
    }
  }

  /** The command part of a request leaves like devices alike, and needs the same of both. */
  lemma RequestAlike(p: Part, s: Session, t: Session, stage: seq<byte>)
    requires s.Fits(p) && t.Fits(p) && Alike(p, s, t) && s.Reachable() && t.Reachable()
    ensures Completes(p, s, stage) == Completes(p, t, stage)
    ensures |stage| < 0x1_0000 ==> Alike(p, AfterCommand(p, s, stage), AfterCommand(p, t, stage))
  {
    if s != t && |stage| < 0x1_0000 {
      var s1, t1 := s.(dataSize := |stage|), t.(dataSize := |stage|);
      CommandAlike(p, s1, t1);
      if stage != [] && Alike(p, AfterExit(p, s, |stage|), AfterExit(p, t, |stage|)) {
        CommandAlike(p, LoadHeader(AfterExit(p, s, |stage|), stage), LoadHeader(AfterExit(p, t, |stage|), stage));
      }
      if Completes(p, s, stage) { RequestKeeps(p, s, stage); }
      if Completes(p, t, stage) { RequestKeeps(p, t, stage); }
    }
  }

  lemma HandleAlike(p: Part, s: Session, t: Session, r: Request)
    requires s.Fits(p) && t.Fits(p) && Alike(p, s, t) && s.Reachable() && t.Reachable()
    ensures Enabled(p, s, r) == Enabled(p, t, r)
    ensures Enabled(p, s, r) ==> Reply(p, s, r) == Reply(p, t, r) && Alike(p, Handle(p, s, r), Handle(p, t, r))
  {
    if s != t && r.DnLoadRequest? {
      RequestAlike(p, s, t, r.stage);
      if Completes(p, s, r.stage) {
        RequestKeeps(p, s, r.stage);
        RequestKeeps(p, t, r.stage);
      }
    }
  }

  /** Secrecy: two devices in secure mode that differ only in their application firmware answer every
      sequence of requests alike, erase included. No reply ever depends on the protected firmware. */
  lemma {:induction false} ApplicationStaysSecret(p: Part, ss: seq<Session>, ts: seq<Session>,
                                                  requests: seq<Request>, k: nat)
    requires Run(p, ss, requests) && Run(p, ts, requests) && k < |ss|
    requires ss[0].Reachable() && ts[0].Reachable() && Alike(p, ss[0], ts[0])
    ensures Alike(p, ss[k], ts[k])
    ensures forall r :: Enabled(p, ss[k], r) == Enabled(p, ts[k], r)
    ensures forall r :: Enabled(p, ss[k], r) ==> Reply(p, ss[k], r) == Reply(p, ts[k], r)
  {
    hide Handle, Reply, Enabled, Alike;
    SecureRun(p, ss, requests, k);
    SecureRun(p, ts, requests, k);
    if k > 0 {
      ApplicationStaysSecret(p, ss, ts, requests, k - 1);
      SecureRun(p, ss, requests, k - 1);
      SecureRun(p, ts, requests, k - 1);
      HandleAlike(p, ss[k - 1], ts[k - 1], requests[k - 1]);
    }
    forall r ensures Enabled(p, ss[k], r) == Enabled(p, ts[k], r)
                     && (Enabled(p, ss[k], r) ==> Reply(p, ss[k], r) == Reply(p, ts[k], r))
    {
      HandleAlike(p, ss[k], ts[k], r);
    }
  }

  // ---------------------------------------------------------------- downloads

  /** The image a host asks for: `payload` from `start` on, the rest of the pages it lies in erased,
      every other page as it was. */
  function Wanted(mem: seq<byte>, p: nat, start: nat, payload: seq<byte>): (r: seq<byte>)
    requires 0 < p
    ensures |r| == |mem|
  {
    seq(|mem|, a requires 0 <= a < |mem| =>
      if start <= a < start + |payload| then payload[a - start]
      else if PageStart(p, start) <= a && PageStart(p, a) < start + |payload| then ERASED
      else mem[a])
  }

  /** Downloads the page buffer can place: those that start a page or stay within one. */
  predicate Placeable(p: nat, start: nat, n: nat)
    requires 0 < p
  {
    Offset(p, start) == 0 || Offset(p, start) + n <= p
  }

  lemma PlacedAt(mem: seq<byte>, p: nat, start: nat, payload: seq<byte>, a: nat)
    requires 0 < p && Placeable(p, start, |payload|) && a < |mem| && |payload| > 0
    ensures Programmed(mem, p, start, payload)[a] == Wanted(mem, p, start, payload)[a]
  {
    var q, s, n := PageStart(p, start), Offset(p, start), |payload|;
    PageStartAligned(p, start);
    if q <= a {
      PageFloor(p, q, a);
      if s == 0 {
        assert Slot(p, start, a) == a - start;
      } else if a < q + p {
        SlotInPage(p, q, s, 0, a);
      } else {
        PageFacts(p, q, 0, 0);
        PageFloor(p, q + p, a);
      }
    }
  }

  lemma PlacedRange(mem: seq<byte>, p: nat, start: nat, payload: seq<byte>)
    requires 0 < p && Placeable(p, start, |payload|) && payload != [] && start + |payload| <= |mem|
    ensures Programmed(mem, p, start, payload)[start..start + |payload|] == payload
  {
    forall i | 0 <= i < |payload| ensures Programmed(mem, p, start, payload)[start + i] == payload[i] {
      PlacedAt(mem, p, start, payload, start + i);
    }
  }

  /** What a download the buffer can not place leaves in the first byte of its second page: a byte one
      page further on, or none at all. */
  lemma Misplaced(mem: seq<byte>, p: nat, q: nat, s: nat, payload: seq<byte>)
    requires 0 < s < p && Offset(p, q) == 0 && s + |payload| > p && q + p < |mem|
    ensures var b, i := q + p, p + p - s;
            Programmed(mem, p, q + s, payload)[b] ==
              if |payload| <= p then mem[b] else if i < |payload| then payload[i] else ERASED
  {
    assert Offset(p, p) == 0 && Offset(p, 0) == 0;
    if p < |payload| {
      FinalPage(mem, p, q, s, payload, p, q + p);
    } else {
      FinalElsewhere(mem, p, q, s, payload, 0, q + p);
    }
  }

  /** Some payload of that length ends up in the wrong place. */
  lemma BadPayload(mem: seq<byte>, p: nat, start: nat, n: nat) returns (bad: seq<byte>)
    requires 0 < p && start + n <= |mem| && !Placeable(p, start, n)
    ensures |bad| == n && Programmed(mem, p, start, bad)[start..start + n] != bad
    ensures Programmed(mem, p, start, bad) != Wanted(mem, p, start, bad)
  {
    var b, i := PageStart(p, start) + p, p - Offset(p, start);
    var v: byte := if mem[b] == 0 then 1 else 0;
    bad := seq(n, _ => ERASED)[i := v];
    PageStartAligned(p, start);
    Misplaced(mem, p, PageStart(p, start), Offset(p, start), bad);
    assert Programmed(mem, p, start, bad)[start..start + n][i] != bad[i];
    assert Wanted(mem, p, start, bad)[b] == bad[i];
  }

  /** Programming is right for every payload of a length exactly when the download starts a page or
      stays within one. */
  lemma ProgrammingExact(mem: seq<byte>, p: nat, start: nat, n: nat)
    requires 0 < p && 0 < n && start + n <= |mem|
    ensures (forall payload: seq<byte> :: |payload| == n ==>
               Programmed(mem, p, start, payload) == Wanted(mem, p, start, payload))
            <==> Placeable(p, start, n)
  {
    if Placeable(p, start, n) {
      forall payload: seq<byte> | |payload| == n
        ensures Programmed(mem, p, start, payload) == Wanted(mem, p, start, payload)
      {
        var r, w := Programmed(mem, p, start, payload), Wanted(mem, p, start, payload);
        forall a | 0 <= a < |r| ensures r[a] == w[a] { PlacedAt(mem, p, start, payload, a); }
      }
    } else {
      var bad := BadPayload(mem, p, start, n);
    }
  }

  /** A memory program request as a host sends it: addresses, filler, alignment bytes, firmware and the
      DFU suffix. */
  datatype Program = Program(start: word, end: word, filler: seq<byte>, align: seq<byte>,
                             payload: seq<byte>, suffix: seq<byte>)
  {
    ghost predicate WellFormed() {
      && start <= end && |payload| == end - start + 1
      && |filler| == 26 && |align| == start % 32 && |suffix| == 16
      && 32 + |align| + |payload| + 16 < 0x1_0000
    }

    function Parameters(memory: byte): seq<byte> {
      [memory, start / 256, start % 256, end / 256, end % 256]
    }

    /** The data stage. */
    function Stage(memory: byte): seq<byte> {
      [0x01] + Parameters(memory) + filler + align + payload + suffix
    }
  }

  /** Some request for a range. */
  lemma SomeProgram(start: word, end: word, payload: seq<byte>) returns (q: Program)
    requires start <= end && |payload| == end - start + 1
    requires PACKET + start % PACKET + |payload| + SUFFIX < 0x1_0000
    ensures q.WellFormed() && q.start == start && q.end == end && q.payload == payload
    ensures forall i :: 0 <= i < |q.align| ==> q.align[i] == 1
  {
    q := Program(start, end, seq(FILLER, _ => 0), seq(start % PACKET, _ => 1), payload, seq(SUFFIX, _ => 0));
  }

  /** Where things are in the data stage. */
  lemma StageLayout(q: Program, memory: byte)
    requires q.WellFormed()
    ensures var stage := q.Stage(memory);
            && |stage| == PACKET + |q.align| + |q.payload| + SUFFIX
            && stage[0] == PROG_START && stage[1..6] == q.Parameters(memory)
            && stage[PACKET..] == q.align + q.payload + q.suffix
  {
  }

  /** The session after the header of a program request. */
  function Programming(s: Session, q: Program, memory: byte, flash: seq<byte>): Session
    requires q.WellFormed()
  {
    s.(command := PROG_START, data := q.Parameters(memory), dataSize := |q.Stage(memory)| - 6,
       startAddr := q.start, endAddr := q.end, state := DnloadIdle, waitForExit := false, flash := flash)
  }

  lemma LoadedHeader(s: Session, q: Program, memory: byte)
    requires |s.data| == 5 && q.WellFormed()
    ensures |q.Stage(memory)| < 0x1_0000
    ensures LoadHeader(s, q.Stage(memory))
            == s.(command := PROG_START, data := q.Parameters(memory), dataSize := |q.Stage(memory)| - 6)
    ensures LoadAddresses(LoadHeader(s, q.Stage(memory)))
            == LoadHeader(s, q.Stage(memory)).(startAddr := q.start, endAddr := q.end)
  {
    StageLayout(q, memory);
    assert LoadHeader(s, q.Stage(memory)).data == q.Stage(memory)[1..6];
  }

  /** The host may send `q`: the device is not in secure mode and the addressed memory exists. */
  ghost predicate Acceptable(p: Part, s: Session, q: Program, memory: byte) {
    && s.Fits(p) && !s.secure && s.Reachable() && q.WellFormed()
    && if memory == 0 then q.align == [] && s.page64k * 0x1_0000 + q.end < |s.flash|
       else memory == 1 && q.end < |s.eeprom|
  }

  /** After the header the first page of a flash download is erased and the device expects firmware. */
  lemma ProgramHeader(p: Part, s: Session, q: Program, memory: byte)
    requires Acceptable(p, s, q, memory)
    ensures var addr := s.page64k * 0x1_0000 + q.start;
            var flash := if memory == 0 then WithErased(s.flash, PageStart(p.pageSize, addr), p.pageSize) else s.flash;
            && |q.Stage(memory)| < 0x1_0000
            && AfterCommand(p, s, q.Stage(memory)) == Programming(s, q, memory, flash)
            && CommandInRange(LoadHeader(AfterExit(p, s, |q.Stage(memory)|), q.Stage(memory)))
  {
    var t := s.(dataSize := |q.Stage(memory)|, waitForExit := false);
    LoadedHeader(t, q, memory);
    ExitForgotten(p, s, |q.Stage(memory)|);
  }

  // ---------------------------------------------------------------- downloads into flash

  /** The flash such a request leaves: the payload, but for an odd last byte, page by page. */
  function Downloaded(p: Part, s: Session, q: Program): seq<byte>
    requires 0 < p.pageSize
  {
    var addr, fw := s.page64k * 0x1_0000 + q.start, q.payload[..|q.payload| / 2 * 2];
    if fw == [] then WithErased(s.flash, PageStart(p.pageSize, addr), p.pageSize)
    else Programmed(s.flash, p.pageSize, addr, fw)
  }

  /** The stage holds all the device reads, and the firmware is where the device looks for it. */
  lemma FlashStage(p: Part, t: Session, q: Program)
    requires t.Fits(p) && q.WellFormed() && q.align == []
    requires t.data == q.Parameters(0) && t.startAddr == q.start && t.endAddr == q.end
    requires t.page64k * 0x1_0000 + q.end < |t.flash|
    ensures StageFits(p, t, q.Stage(0))
    ensures Consumed(t) == |q.payload| / 2 * 2
    ensures q.Stage(0)[ReadFrom(q.start)..][..Consumed(t)] == q.payload[..|q.payload| / 2 * 2]
  {
    StageLayout(q, 0);
    assert t.Length() == |q.payload|;
    assert (q.align + q.payload + q.suffix)[..|q.payload| / 2 * 2] == q.payload[..|q.payload| / 2 * 2];
  }

  /** The device takes an acceptable request to its end, never waiting for a packet that does not come. */
  lemma FlashDownload(p: Part, s: Session, q: Program)
    requires Acceptable(p, s, q, 0)
    ensures Completes(p, s, q.Stage(0))
    ensures DnLoad(p, s, q.Stage(0)) == Programming(s, q, 0, Downloaded(p, s, q)).(startAddr := q.end)
  {
    hide AfterCommand, AfterExit, LoadHeader, CommandInRange, StageFits, ReadFrom, Consumed, Programmed, WithErased;
    var addr, fw := s.page64k * 0x1_0000 + q.start, q.payload[..|q.payload| / 2 * 2];
    ProgramHeader(p, s, q, 0);
    ExitForgotten(p, s, |q.Stage(0)|);
    var t := Programming(s, q, 0, WithErased(s.flash, PageStart(p.pageSize, addr), p.pageSize));
    FlashStage(p, t, q);
    if fw != [] { ProgrammedOverErased(s.flash, p.pageSize, addr, fw); }
  }

  /** The request leaves the image the host asked for. */
  ghost predicate FlashLands(p: Part, s: Session, q: Program)
    requires s.Fits(p)
  {
    Completes(p, s, q.Stage(0))
    && DnLoad(p, s, q.Stage(0)).flash == Wanted(s.flash, p.pageSize, s.page64k * 0x1_0000 + q.start, q.payload)
  }

  lemma FlashLandsMeans(p: Part, s: Session, q: Program)
    requires Acceptable(p, s, q, 0)
    ensures FlashLands(p, s, q)
            <==> Downloaded(p, s, q) == Wanted(s.flash, p.pageSize, s.page64k * 0x1_0000 + q.start, q.payload)
  {
    hide DnLoad, Completes, Programmed, Wanted, Downloaded;
    FlashDownload(p, s, q);
  }

  /** Every byte right: even lengths that start a page or stay within one. */
  lemma DownloadedRight(p: Part, s: Session, q: Program)
    requires Acceptable(p, s, q, 0)
    requires |q.payload| % 2 == 0 && Placeable(p.pageSize, s.page64k * 0x1_0000 + q.start, |q.payload|)
    ensures Downloaded(p, s, q) == Wanted(s.flash, p.pageSize, s.page64k * 0x1_0000 + q.start, q.payload)
  {
    ProgrammingExact(s.flash, p.pageSize, s.page64k * 0x1_0000 + q.start, |q.payload|);
    assert q.payload[..|q.payload| / 2 * 2] == q.payload;
  }

  /** An odd last byte has no influence on the outcome, so some request of odd length goes wrong. */
  lemma OddMisses(p: Part, s: Session, q: Program) returns (bad: Program)
    requires Acceptable(p, s, q, 0) && |q.payload| % 2 == 1
    ensures Acceptable(p, s, bad, 0) && bad.start == q.start && bad.end == q.end
    ensures Downloaded(p, s, bad) != Wanted(s.flash, p.pageSize, s.page64k * 0x1_0000 + q.start, bad.payload)
  {
    hide Programmed, WithErased;
    var n, start := |q.payload|, s.page64k * 0x1_0000 + q.start;
    var q' := q.(payload := q.payload[n - 1 := if q.payload[n - 1] == 0 then 1 else 0]);
    assert q'.payload[..n / 2 * 2] == q.payload[..n / 2 * 2];
    var w, w' := Wanted(s.flash, p.pageSize, start, q.payload), Wanted(s.flash, p.pageSize, start, q'.payload);
    assert w[start + n - 1] != w'[start + n - 1];
    bad := if Downloaded(p, s, q) == w then q' else q;
  }

  /** Some request that the page buffer can not place goes wrong. */
  lemma PageMisses(p: Part, s: Session, q: Program) returns (bad: Program)
    requires Acceptable(p, s, q, 0) && |q.payload| % 2 == 0
    requires !Placeable(p.pageSize, s.page64k * 0x1_0000 + q.start, |q.payload|)
    ensures Acceptable(p, s, bad, 0) && bad.start == q.start && bad.end == q.end
    ensures Downloaded(p, s, bad) != Wanted(s.flash, p.pageSize, s.page64k * 0x1_0000 + q.start, bad.payload)
  {
    var payload := BadPayload(s.flash, p.pageSize, s.page64k * 0x1_0000 + q.start, |q.payload|);
    bad := q.(payload := payload);
    assert payload[..|payload| / 2 * 2] == payload;
  }

  /** A range a host may program: it exists and fits into one request. */
  ghost predicate FlashRange(p: Part, s: Session, start: word, end: word) {
    && s.Fits(p) && !s.secure && s.Reachable()
    && start <= end && start % PACKET == 0 && s.page64k * 0x1_0000 + end < |s.flash|
    && PACKET + (end - start + 1) + SUFFIX < 0x1_0000
  }

  lemma FlashHits(p: Part, s: Session, q: Program)
    requires Acceptable(p, s, q, 0)
    requires |q.payload| % 2 == 0 && Placeable(p.pageSize, s.page64k * 0x1_0000 + q.start, |q.payload|)
    ensures FlashLands(p, s, q)
  {
    hide FlashLands, Downloaded, Placeable, Wanted;
    DownloadedRight(p, s, q);
    FlashLandsMeans(p, s, q);
  }

  lemma FlashMisses(p: Part, s: Session, q: Program) returns (bad: Program)
    requires Acceptable(p, s, q, 0)
    requires |q.payload| % 2 == 1 || !Placeable(p.pageSize, s.page64k * 0x1_0000 + q.start, |q.payload|)
    ensures Acceptable(p, s, bad, 0) && bad.start == q.start && bad.end == q.end && !FlashLands(p, s, bad)
  {
    hide FlashLands, Downloaded, Placeable, Wanted;
    if |q.payload| % 2 == 1 { bad := OddMisses(p, s, q); } else { bad := PageMisses(p, s, q); }
    FlashLandsMeans(p, s, bad);
  }

  /** Flash downloads from packet-aligned addresses are right, whatever the bytes, exactly when their
      length is even and they start a page or stay within one. */
  lemma FlashDownloadExact(p: Part, s: Session, start: word, end: word)
    requires FlashRange(p, s, start, end)
    ensures (forall q :: Acceptable(p, s, q, 0) && q.start == start && q.end == end ==> FlashLands(p, s, q))
            <==> ((end - start + 1) % 2 == 0 && Placeable(p.pageSize, s.page64k * 0x1_0000 + start, end - start + 1))
  {
    hide FlashLands;
    var n := end - start + 1;
    if n % 2 == 0 && Placeable(p.pageSize, s.page64k * 0x1_0000 + start, n) {
      forall q | Acceptable(p, s, q, 0) && q.start == start && q.end == end ensures FlashLands(p, s, q) {
        FlashHits(p, s, q);
      }
    } else {
      var q := SomeProgram(start, end, seq(n, _ => 0));
      var bad := FlashMisses(p, s, q);
    }
  }

  // ---------------------------------------------------------------- downloads into EEPROM

  /** What the device takes for firmware: from an unaligned start it begins with the last alignment byte
      and never gets to the last byte of the payload. */
  function Shifted(q: Program): seq<byte>
    requires q.payload != []
  {
    if q.align == [] then q.payload else [q.align[|q.align| - 1]] + q.payload[..|q.payload| - 1]
  }

  lemma ShiftedInStage(q: Program)
    requires q.WellFormed()
    ensures q.Stage(1)[ReadFrom(q.start)..][..|q.payload|] == Shifted(q)
  {
    StageLayout(q, 1);
    var k := ReadFrom(q.start) - PACKET;
    assert q.Stage(1)[ReadFrom(q.start)..] == q.Stage(1)[PACKET..][k..];
    assert (q.align + q.payload + q.suffix)[k..][..|q.payload|] == Shifted(q);
  }

  lemma EepromDownload(p: Part, s: Session, q: Program)
    requires Acceptable(p, s, q, 1)
    ensures Completes(p, s, q.Stage(1))
    ensures DnLoad(p, s, q.Stage(1))
            == Programming(s, q, 1, s.flash).(startAddr := (q.end + 1) % 0x1_0000,
                                              eeprom := Overlay(s.eeprom, q.start, Shifted(q)))
  {
    hide AfterCommand, AfterExit, LoadHeader, CommandInRange, ReadFrom;
    ProgramHeader(p, s, q, 1);
    StageLayout(q, 1);
    ExitForgotten(p, s, |q.Stage(1)|);
    ShiftedInStage(q);
    var t := AfterCommand(p, s, q.Stage(1));
    assert t.Length() == |q.payload|;
    assert StageFits(p, t, q.Stage(1));
  }

  ghost predicate EepromLands(p: Part, s: Session, q: Program)
    requires s.Fits(p)
  {
    && Completes(p, s, q.Stage(1))
    && q.start + |q.payload| <= |s.eeprom|
    && DnLoad(p, s, q.Stage(1)).eeprom == Overlay(s.eeprom, q.start, q.payload)
  }

  /** EEPROM downloads are right, whatever the bytes, exactly when they start on a packet boundary. */
  lemma EepromDownloadExact(p: Part, s: Session, start: word, end: word)
    requires s.Fits(p) && !s.secure && s.Reachable() && start <= end < |s.eeprom|
    requires PACKET + start % PACKET + (end - start + 1) + SUFFIX < 0x1_0000
    ensures (forall q :: Acceptable(p, s, q, 1) && q.start == start && q.end == end ==> EepromLands(p, s, q))
            <==> start % PACKET == 0
  {
    if start % PACKET == 0 {
      forall q | Acceptable(p, s, q, 1) && q.start == start && q.end == end ensures EepromLands(p, s, q) {
        EepromDownload(p, s, q);
      }
    } else {
      var q := SomeProgram(start, end, seq(end - start + 1, _ => 0));
      EepromDownload(p, s, q);
      assert Overlay(s.eeprom, start, Shifted(q))[start] == 1;
      assert Overlay(s.eeprom, start, q.payload)[start] == 0;
    }
  }

  // ---------------------------------------------------------------- write, then read back

  /** The data stage of a display-data command. */
  function DisplayStage(memory: byte, start: word, end: word): seq<byte> {
    [0x03, memory, start / 256, start % 256, end / 256, end % 256]
  }

  /** Display-data followed by DFU_UPLOAD: what the host reads. */
  ghost predicate ReadsBack(p: Part, s: Session, memory: byte, start: word, end: word, bytes: seq<byte>) {
    && s.Fits(p)
    && Completes(p, s, DisplayStage(memory, start, end))
    && var t := DnLoad(p, s, DisplayStage(memory, start, end));
       UploadInRange(t) && t.state == UploadIdle && UpLoadReply(t) == bytes
  }

  /** The session a display-data command leaves. */
  function Displaying(s: Session, memory: byte, start: word, end: word): Session {
    s.(command := DISP_DATA, data := [memory, start / 256, start % 256, end / 256, end % 256], dataSize := 0,
       startAddr := start, endAddr := end, state := UploadIdle, waitForExit := false)
  }

  lemma DisplayHeader(p: Part, s: Session, memory: byte, start: word, end: word)
    requires s.Fits(p) && !s.secure && s.Reachable() && (memory == 0 || memory == 2)
    ensures Completes(p, s, DisplayStage(memory, start, end))
    ensures DnLoad(p, s, DisplayStage(memory, start, end)) == Displaying(s, memory, start, end)
  {
    var stage := DisplayStage(memory, start, end);
    ExitForgotten(p, s, 6);
    var h := LoadHeader(s.(dataSize := 6, waitForExit := false), stage);
    assert h.data == [memory, start / 256, start % 256, end / 256, end % 256];
    assert LoadAddresses(h).startAddr == start && LoadAddresses(h).endAddr == end;
  }

  lemma DisplayedBytes(s: Session, memory: byte, start: word, end: word)
    requires start <= end
    requires if memory == 0 then s.page64k * 0x1_0000 + end < |s.flash| else memory == 2 && end < |s.eeprom|
    ensures var n, addr, t := (end - start + 1) % 0x1_0000, s.page64k * 0x1_0000 + start,
                              Displaying(s, memory, start, end);
            UploadInRange(t) && UpLoadReply(t) ==
              if memory == 0 then s.flash[addr..addr + n / 2 * 2] else s.eeprom[start..start + n]
  {
    assert Displaying(s, memory, start, end).Length() == (end - start + 1) % 0x1_0000 <= end - start + 1;
  }

  lemma ReadBack(p: Part, s: Session, memory: byte, start: word, end: word)
    requires s.Fits(p) && !s.secure && s.Reachable() && start <= end
    requires if memory == 0 then s.page64k * 0x1_0000 + end < |s.flash| else memory == 2 && end < |s.eeprom|
    ensures var n, addr := (end - start + 1) % 0x1_0000, s.page64k * 0x1_0000 + start;
            ReadsBack(p, s, memory, start, end,
                      if memory == 0 then s.flash[addr..addr + n / 2 * 2] else s.eeprom[start..start + n])
  {
    hide DnLoad, Completes, UploadInRange, UpLoadReply;
    DisplayHeader(p, s, memory, start, end);
    DisplayedBytes(s, memory, start, end);
  }

  lemma ReadsBackOnce(p: Part, s: Session, memory: byte, start: word, end: word, x: seq<byte>, y: seq<byte>)
    requires ReadsBack(p, s, memory, start, end, x)
    ensures ReadsBack(p, s, memory, start, end, y) <==> x == y
  {
  }

  lemma FlashReadBackExact(p: Part, t: Session, q: Program, flash: seq<byte>, addr: nat)
    requires t.Fits(p) && !t.secure && t.Reachable() && q.WellFormed()
    requires t.flash == flash && addr == t.page64k * 0x1_0000 + q.start && addr + |q.payload| <= |flash|
    ensures ReadsBack(p, t, 0, q.start, q.end, q.payload) <==> flash[addr..addr + |q.payload| / 2 * 2] == q.payload
  {
    hide ReadsBack;
    ReadBack(p, t, 0, q.start, q.end);
    ReadsBackOnce(p, t, 0, q.start, q.end, flash[addr..addr + |q.payload| / 2 * 2], q.payload);
  }

  /** Downloading to flash and reading the same range back returns the payload. */
  ghost predicate FlashRoundTrips(p: Part, s: Session, q: Program)
    requires s.Fits(p)
  {
    Completes(p, s, q.Stage(0)) && ReadsBack(p, DnLoad(p, s, q.Stage(0)), 0, q.start, q.end, q.payload)
  }

  lemma ReadsBackAfter(p: Part, s: Session, q: Program, t: Session)
    requires Acceptable(p, s, q, 0) && t == Programming(s, q, 0, Downloaded(p, s, q)).(startAddr := q.end)
    ensures FlashRoundTrips(p, s, q) <==> ReadsBack(p, t, 0, q.start, q.end, q.payload)
  {
    FlashDownload(p, s, q);
  }

  lemma StillFits(p: Part, s: Session, q: Program, t: Session)
    requires Acceptable(p, s, q, 0) && t == Programming(s, q, 0, Downloaded(p, s, q)).(startAddr := q.end)
    ensures t.Fits(p) && !t.secure && t.Reachable() && |t.flash| == |s.flash|
  {
  }

  lemma FlashRoundTripMeans(p: Part, s: Session, q: Program)
    requires Acceptable(p, s, q, 0)
    ensures var addr := s.page64k * 0x1_0000 + q.start;
            FlashRoundTrips(p, s, q) <==> Downloaded(p, s, q)[addr..addr + |q.payload| / 2 * 2] == q.payload
  {
    hide ReadsBack, FlashRoundTrips, Downloaded;
    var flash := Downloaded(p, s, q);
    var t := Programming(s, q, 0, flash).(startAddr := q.end);
    ReadsBackAfter(p, s, q, t);
    StillFits(p, s, q, t);
    FlashReadBackExact(p, t, q, flash, s.page64k * 0x1_0000 + q.start);
  }

  /** The slice that comes back is the payload, or for some payload of the range it is not. */
  lemma SliceRight(p: Part, s: Session, q: Program)
    requires Acceptable(p, s, q, 0)
    requires |q.payload| % 2 == 0 && Placeable(p.pageSize, s.page64k * 0x1_0000 + q.start, |q.payload|)
    ensures var addr := s.page64k * 0x1_0000 + q.start;
            Downloaded(p, s, q)[addr..addr + |q.payload| / 2 * 2] == q.payload
  {
    hide Programmed;
    assert q.payload[..|q.payload| / 2 * 2] == q.payload;
    PlacedRange(s.flash, p.pageSize, s.page64k * 0x1_0000 + q.start, q.payload);
  }

  lemma SliceWrong(p: Part, s: Session, q: Program) returns (bad: Program)
    requires Acceptable(p, s, q, 0)
    requires |q.payload| % 2 == 1 || !Placeable(p.pageSize, s.page64k * 0x1_0000 + q.start, |q.payload|)
    ensures Acceptable(p, s, bad, 0) && bad.start == q.start && bad.end == q.end
    ensures var addr := s.page64k * 0x1_0000 + bad.start;
            Downloaded(p, s, bad)[addr..addr + |bad.payload| / 2 * 2] != bad.payload
  {
    bad := q;
    hide Programmed;
    if |q.payload| % 2 == 0 {
      var payload := BadPayload(s.flash, p.pageSize, s.page64k * 0x1_0000 + q.start, |q.payload|);
      bad := q.(payload := payload);
      assert payload[..|payload| / 2 * 2] == payload;
    }
  }

  lemma FlashRoundTrip(p: Part, s: Session, q: Program)
    requires Acceptable(p, s, q, 0)
    requires |q.payload| % 2 == 0 && Placeable(p.pageSize, s.page64k * 0x1_0000 + q.start, |q.payload|)
    ensures FlashRoundTrips(p, s, q)
  {
    hide FlashRoundTrips, Downloaded, Placeable;
    SliceRight(p, s, q);
    FlashRoundTripMeans(p, s, q);
  }

  lemma FlashRoundTripFails(p: Part, s: Session, q: Program) returns (bad: Program)
    requires Acceptable(p, s, q, 0)
    requires |q.payload| % 2 == 1 || !Placeable(p.pageSize, s.page64k * 0x1_0000 + q.start, |q.payload|)
    ensures Acceptable(p, s, bad, 0) && bad.start == q.start && bad.end == q.end && !FlashRoundTrips(p, s, bad)
  {
    hide FlashRoundTrips, Downloaded, Placeable;
    bad := SliceWrong(p, s, q);
    FlashRoundTripMeans(p, s, bad);
  }

  /** Write-then-read over flash is the identity for every payload exactly when the length is even and
      the range starts a page or stays within one. */
  lemma FlashRoundTripExact(p: Part, s: Session, start: word, end: word)
    requires FlashRange(p, s, start, end)
    ensures (forall q :: Acceptable(p, s, q, 0) && q.start == start && q.end == end ==> FlashRoundTrips(p, s, q))
            <==> ((end - start + 1) % 2 == 0 && Placeable(p.pageSize, s.page64k * 0x1_0000 + start, end - start + 1))
  {
    hide FlashRoundTrips;
    var n := end - start + 1;
    if n % 2 == 0 && Placeable(p.pageSize, s.page64k * 0x1_0000 + start, n) {
      forall q | Acceptable(p, s, q, 0) && q.start == start && q.end == end ensures FlashRoundTrips(p, s, q) {
        FlashRoundTrip(p, s, q);
      }
    } else {
      var q := SomeProgram(start, end, seq(n, _ => 0));
      var bad := FlashRoundTripFails(p, s, q);
    }
  }

  ghost predicate EepromRoundTrips(p: Part, s: Session, q: Program)
    requires s.Fits(p)
  {
    Completes(p, s, q.Stage(1)) && ReadsBack(p, DnLoad(p, s, q.Stage(1)), 2, q.start, q.end, q.payload)
  }

  lemma EepromReadBackExact(p: Part, t: Session, q: Program, bytes: seq<byte>)
    requires t.Fits(p) && !t.secure && t.Reachable() && q.WellFormed() && q.end < |t.eeprom|
    requires t.eeprom[q.start..q.start + |q.payload|] == bytes
    ensures ReadsBack(p, t, 2, q.start, q.end, q.payload) <==> bytes == q.payload
  {
    hide ReadsBack;
    ReadBack(p, t, 2, q.start, q.end);
    ReadsBackOnce(p, t, 2, q.start, q.end, bytes, q.payload);
  }

  lemma EepromStillFits(p: Part, s: Session, q: Program, t: Session)
    requires Acceptable(p, s, q, 1)
    requires t == Programming(s, q, 1, s.flash).(startAddr := (q.end + 1) % 0x1_0000,
                                                 eeprom := Overlay(s.eeprom, q.start, Shifted(q)))
    ensures t.Fits(p) && !t.secure && t.Reachable() && q.end < |t.eeprom|
    ensures t.eeprom[q.start..q.start + |q.payload|] == Shifted(q)
  {
  }

  /** What comes back is what the device took for firmware. */
  lemma EepromRoundTripMeans(p: Part, s: Session, q: Program)
    requires Acceptable(p, s, q, 1)
    ensures EepromRoundTrips(p, s, q) <==> Shifted(q) == q.payload
  {
    hide DnLoad, Completes, ReadsBack, Overlay, Shifted, Programming;
    EepromDownload(p, s, q);
    var t := DnLoad(p, s, q.Stage(1));
    EepromStillFits(p, s, q, t);
    EepromReadBackExact(p, t, q, Shifted(q));
  }

  /** Write-then-read over EEPROM is the identity for every payload exactly from packet boundaries on. */
  lemma EepromRoundTripExact(p: Part, s: Session, start: word, end: word)
    requires s.Fits(p) && !s.secure && s.Reachable() && start <= end < |s.eeprom|
    requires PACKET + start % PACKET + (end - start + 1) + SUFFIX < 0x1_0000
    ensures (forall q :: Acceptable(p, s, q, 1) && q.start == start && q.end == end ==> EepromRoundTrips(p, s, q))
            <==> start % PACKET == 0
  {
    hide EepromRoundTrips;
    if start % PACKET == 0 {
      forall q | Acceptable(p, s, q, 1) && q.start == start && q.end == end ensures EepromRoundTrips(p, s, q) {
        EepromRoundTripMeans(p, s, q);
      }
    } else {
      var q := SomeProgram(start, end, seq(end - start + 1, _ => 0));
      assert Shifted(q)[0] == 1;
      EepromRoundTripMeans(p, s, q);
    }
  }

  // ---------------------------------------------------------------- the 64KB page

  /** The data stage of a command that selects a 64KB page of flash. */
  function SelectStage(page: byte): seq<byte> {
    [0x06, 0x03, 0x00, page]
  }

  /** The session that leaves. */
  function Selected(s: Session, page: byte): Session
    requires |s.data| == 5
  {
    s.(command := 0x06, data := [3, 0, page] + s.data[3..], dataSize := 0, waitForExit := false, page64k := page,
       state := if s.state == DnloadIdle then Idle else s.state)
  }

  /** Selecting a page stores its number; both memories and the address range stay. */
  lemma SelectPage(p: Part, s: Session, page: byte)
    requires s.Fits(p) && !s.secure && s.Reachable()
    ensures Completes(p, s, SelectStage(page))
    ensures DnLoad(p, s, SelectStage(page)) == Selected(s, page)
    ensures var t := Selected(s, page); t.Fits(p) && !t.secure && t.Reachable()
  {
    var stage := SelectStage(page);
    ExitForgotten(p, s, 4);
    var h := LoadHeader(s.(dataSize := 4, waitForExit := false), stage);
    assert h.data == [3, 0, page] + s.data[3..] && h.dataSize == 0;
  }

  /** A page is selected, written to and, selected again, read. */
  function PagedRequests(page: byte, q: Program): seq<Request> {
    [DnLoadRequest(SelectStage(page)), DnLoadRequest(q.Stage(0)),
     DnLoadRequest(SelectStage(page)), DnLoadRequest(DisplayStage(0, q.start, q.end)),
     UpLoadRequest(|q.payload| % 0x1_0000)]
  }

  lemma PagedAcceptable(p: Part, s: Session, page: byte, q: Program)
    requires s.Fits(p) && !s.secure && s.Reachable() && q.WellFormed() && q.align == []
    requires page * 0x1_0000 + q.end < |s.flash|
    ensures Acceptable(p, Selected(s, page), q, 0)
    ensures DnLoad(p, s, SelectStage(page)) == Selected(s, page)
  {
    SelectPage(p, s, page);
  }

  /** What the host wants of a paged download holds the payload at the address made of page and start. */
  lemma PayloadThere(mem: seq<byte>, p: nat, addr: nat, payload: seq<byte>)
    requires 0 < p && addr + |payload| <= |mem|
    ensures Wanted(mem, p, addr, payload)[addr..addr + |payload|] == payload
  {
  }

  lemma PagedDownload(p: Part, s: Session, page: byte, q: Program)
    requires s.Fits(p) && !s.secure && s.Reachable() && q.WellFormed() && q.align == []
    requires var addr := page * 0x1_0000 + q.start;
             && page * 0x1_0000 + q.end < |s.flash|
             && |q.payload| % 2 == 0 && Placeable(p.pageSize, addr, |q.payload|)
    ensures Completes(p, s, SelectStage(page))
    ensures var t, addr := DnLoad(p, s, SelectStage(page)), page * 0x1_0000 + q.start;
            && Completes(p, t, q.Stage(0))
            && var u := DnLoad(p, t, q.Stage(0));
               && u.flash == Wanted(s.flash, p.pageSize, addr, q.payload) && u.eeprom == s.eeprom
               && u.flash[addr..addr + |q.payload|] == q.payload
               && u.Fits(p) && !u.secure && u.Reachable()
  {
    hide DnLoad, Completes, Wanted, Downloaded, Placeable;
    var t, addr := Selected(s, page), page * 0x1_0000 + q.start;
    SelectPage(p, s, page);
    PagedAcceptable(p, s, page, q);
    FlashDownload(p, t, q);
    DownloadedRight(p, t, q);
    StillFits(p, t, q, Programming(t, q, 0, Downloaded(p, t, q)).(startAddr := q.end));
    PayloadThere(s.flash, p.pageSize, addr, q.payload);
  }

  /** A step of a run. */
  ghost predicate Stepped(p: Part, s: Session, r: Request, t: Session) {
    s.Fits(p) && Enabled(p, s, r) && t == Handle(p, s, r)
  }

  /** Reading from a page after it was selected. */
  lemma PagedRead(p: Part, u: Session, page: byte, q: Program, addr: nat)
    requires u.Fits(p) && !u.secure && u.Reachable() && q.WellFormed() && |q.payload| % 2 == 0
    requires addr == page * 0x1_0000 + q.start && addr + |q.payload| <= |u.flash|
    requires u.flash[addr..addr + |q.payload|] == q.payload
    ensures Completes(p, u, SelectStage(page))
    ensures ReadsBack(p, DnLoad(p, u, SelectStage(page)), 0, q.start, q.end, q.payload)
  {
    hide DnLoad, Completes, ReadsBack;
    SelectPage(p, u, page);
    ReadBack(p, DnLoad(p, u, SelectStage(page)), 0, q.start, q.end);
  }

  /** One run: select a page, download to it, select it again and read. The payload is at the address made of page and
      start, the rest of the flash is as the host wants it, and the payload comes back. */
  lemma PagedRoundTrip(p: Part, s: Session, page: byte, q: Program) returns (states: seq<Session>)
    requires s.Fits(p) && !s.secure && s.Reachable() && q.WellFormed() && q.align == []
    requires var addr := page * 0x1_0000 + q.start;
             && page * 0x1_0000 + q.end < |s.flash|
             && |q.payload| % 2 == 0 && Placeable(p.pageSize, addr, |q.payload|)
    ensures Run(p, states, PagedRequests(page, q)) && states[0] == s
    ensures var addr := page * 0x1_0000 + q.start;
            && states[2].flash == Wanted(s.flash, p.pageSize, addr, q.payload)
            && states[2].flash[addr..addr + |q.payload|] == q.payload
            && Reply(p, states[4], PagedRequests(page, q)[4]) == q.payload
  {
    hide DnLoad, Completes, Wanted, Placeable, UpLoadReply, UploadInRange, UpLoad, SelectStage, DisplayStage;
    var addr, requests := page * 0x1_0000 + q.start, PagedRequests(page, q);
    PagedDownload(p, s, page, q);
    var s1 := DnLoad(p, s, SelectStage(page));
    var s2 := DnLoad(p, s1, q.Stage(0));
    PagedRead(p, s2, page, q, addr);
    var s3 := DnLoad(p, s2, SelectStage(page));
    var s4 := DnLoad(p, s3, DisplayStage(0, q.start, q.end));
    states := [s, s1, s2, s3, s4, UpLoad(s4, |q.payload| % 0x1_0000)];
    assert Stepped(p, s, requests[0], s1) && Stepped(p, s1, requests[1], s2) && Stepped(p, s2, requests[2], s3);
    assert Stepped(p, s3, requests[3], s4) && Stepped(p, s4, requests[4], states[5]);
  }

  // ---------------------------------------------------------------- erase and blank check

  const ERASE_STAGE: seq<byte> := [0x04, 0x00, 0xFF]
  const BLANK_STAGE: seq<byte> := [0x03, 0x01]

  /** Some application byte is not blank. */
  ghost predicate NotBlank(p: Part, s: Session)
    requires s.Fits(p)
  {
    exists a :: 0 <= a < p.bootStart && s.flash[a] != ERASED
  }

  /** The session a blank check leaves. */
  function Checked(p: Part, s: Session): Session
    requires s.Fits(p)
  {
    var a := ScanBlank(s.flash, p.bootStart, 0);
    var t := s.(command := DISP_DATA, data := [1] + s.data[1..], dataSize := 0, waitForExit := false);
    if a < p.bootStart then
      t.(page64k := a / 0x1_0000 % 256, startAddr := a % 0x1_0000, state := Error, status := ErrCheckErased)
    else if s.state == DnloadIdle then t.(state := Idle)
    else t
  }

  lemma CheckHeader(p: Part, s: Session)
    requires s.Fits(p) && !s.secure && s.Reachable()
    ensures Completes(p, s, BLANK_STAGE) && DnLoad(p, s, BLANK_STAGE) == Checked(p, s)
  {
    ExitForgotten(p, s, 2);
    var h := LoadHeader(s.(dataSize := 2, waitForExit := false), BLANK_STAGE);
    assert h.data == [1] + s.data[1..] && h.data[0] == 1;
  }

  /** What a blank check does. When some application byte is not blank, it ends in the error state, and the
      64KB page and start address it stores recombine to the lowest such byte, which is also what a following
      DFU_UPLOAD reports. Otherwise it leaves an error state as it found it. */
  lemma BlankCheck(p: Part, s: Session)
    requires s.Fits(p) && !s.secure && s.Reachable() && p.bootStart <= 0x100_0000
    ensures Completes(p, s, BLANK_STAGE)
    ensures var t := DnLoad(p, s, BLANK_STAGE);
            && t.flash == s.flash && t.data[0] == 1 && !t.secure
            && (t.state == Error <==> NotBlank(p, s) || s.state == Error)
            && (NotBlank(p, s) ==>
                  && t.FlashAddr() < p.bootStart && s.flash[t.FlashAddr()] != ERASED
                  && (forall b :: 0 <= b < t.FlashAddr() ==> s.flash[b] == ERASED)
                  && t.status == ErrCheckErased
                  && UpLoadReply(t) == [t.startAddr % 256, t.startAddr / 256])
            && (!NotBlank(p, s) ==>
                  && t.status == s.status && t.startAddr == s.startAddr
                  && t.state == if s.state == DnloadIdle then Idle else s.state)
  {
    hide DnLoad, Completes;
    CheckHeader(p, s);
    var a := ScanBlank(s.flash, p.bootStart, 0);
    assert a < 0x100_0000 ==> a / 0x1_0000 < 256;
  }

  /** The error state tells whether some application byte is not blank exactly when the device was in no
      error state before the check, or there is such a byte. */
  lemma BlankCheckExact(p: Part, s: Session)
    requires s.Fits(p) && !s.secure && s.Reachable() && p.bootStart <= 0x100_0000
    ensures Completes(p, s, BLANK_STAGE)
    ensures (DnLoad(p, s, BLANK_STAGE).state == Error <==> NotBlank(p, s)) <==> (s.state != Error || NotBlank(p, s))
  {
    hide DnLoad, Completes, NotBlank;
    BlankCheck(p, s);
  }

  /** Erasing blanks the application section, touches nothing else and leaves secure mode, but not an error
      state. */
  lemma Erase(p: Part, s: Session)
    requires s.Fits(p) && s.Reachable()
    ensures Completes(p, s, ERASE_STAGE)
    ensures var t := DnLoad(p, s, ERASE_STAGE);
            && !t.secure && t.Reachable() && t.eeprom == s.eeprom && !NotBlank(p, t)
            && (forall a :: 0 <= a < |s.flash| ==> t.flash[a] == if a < p.bootStart then ERASED else s.flash[a])
            && t.startAddr == s.startAddr && t.status == s.status
            && t.state == if s.state == DnloadIdle then Idle else s.state
  {
    ExitForgotten(p, s, 3);
    var h := LoadHeader(s.(dataSize := 3, waitForExit := false), ERASE_STAGE);
    assert h.data[0] == 0 && h.data[1] == 0xFF;
  }

  /** A blank check that follows an erase finds nothing exactly when the device was in no error state before
      the erase. */
  lemma EraseThenBlankExact(p: Part, s: Session)
    requires s.Fits(p) && s.Reachable() && p.bootStart <= 0x100_0000
    ensures Completes(p, s, ERASE_STAGE) && Completes(p, DnLoad(p, s, ERASE_STAGE), BLANK_STAGE)
    ensures DnLoad(p, DnLoad(p, s, ERASE_STAGE), BLANK_STAGE).state != Error <==> s.state != Error
  {
    hide DnLoad, Completes, NotBlank;
    Erase(p, s);
    BlankCheck(p, DnLoad(p, s, ERASE_STAGE));
  }

  const DISPLAY_STAGE: seq<byte> := [0x03, 0x00]

  lemma Refused(p: Part, s: Session) returns (t: Session)
    requires s.Fits(p) && s.Reachable() && s.secure
    ensures Completes(p, s, DISPLAY_STAGE) && t == DnLoad(p, s, DISPLAY_STAGE)
    ensures t.Reachable() && t.secure && t.state == Error && t.status == ErrWrite && t.startAddr == s.startAddr
  {
    ExitForgotten(p, s, 2);
    t := DnLoad(p, s, DISPLAY_STAGE);
  }

  /** How it goes wrong: a secure device refuses a command, is erased and checked. It is blank, yet it ends in
      the error state, and the next DFU_UPLOAD reports an address as not blank. */
  lemma StaleError(p: Part, s: Session) returns (states: seq<Session>, requests: seq<Request>)
    requires s.Fits(p) && s.Reachable() && s.secure && s.state == Idle && p.bootStart <= 0x100_0000
    ensures requests == [DnLoadRequest(DISPLAY_STAGE), DnLoadRequest(ERASE_STAGE), DnLoadRequest(BLANK_STAGE)]
    ensures Run(p, states, requests) && states[0] == s
    ensures !NotBlank(p, states[3]) && states[3].state == Error
    ensures UpLoadReply(states[3]) == [s.startAddr % 256, s.startAddr / 256]
  {
    requests := [DnLoadRequest(DISPLAY_STAGE), DnLoadRequest(ERASE_STAGE), DnLoadRequest(BLANK_STAGE)];
    var s1 := Refused(p, s);
    Erase(p, s1);
    var s2 := DnLoad(p, s1, ERASE_STAGE);
    BlankCheck(p, s2);
    states := [s, s1, s2, DnLoad(p, s2, BLANK_STAGE)];
  }

  /** DFU_ABORT makes the check reliable again, in whatever state the device is; DFU_CLRSTATUS does not. */
  lemma AbortRestores(p: Part, s: Session, n: word)
    requires s.Fits(p) && s.Reachable() && p.bootStart <= 0x100_0000
    ensures var t := Handle(p, s, Abort(n));
            && t.Reachable() && Completes(p, t, ERASE_STAGE) && Completes(p, DnLoad(p, t, ERASE_STAGE), BLANK_STAGE)
            && DnLoad(p, DnLoad(p, t, ERASE_STAGE), BLANK_STAGE).state == Idle
            && (!t.secure ==> Completes(p, t, BLANK_STAGE)
                              && (DnLoad(p, t, BLANK_STAGE).state == Error <==> NotBlank(p, t)))
    ensures Handle(p, s, ClrStatus(n)).state == s.state
  {
    hide DnLoad, Completes, NotBlank;
    var t := Handle(p, s, Abort(n));
    Erase(p, t);
    BlankCheck(p, DnLoad(p, t, ERASE_STAGE));
    if !t.secure { BlankCheck(p, t); }
  }

  // ---------------------------------------------------------------- what the host is told

  /** An upload ends the transfer: its range is used up, and the next upload answers the response byte. */
  lemma UploadEnds(p: Part, s: Session, n: word, m: word)
    requires s.Fits(p) && s.state == UploadIdle && UploadInRange(s)
    ensures var t := Handle(p, s, UpLoadRequest(n));
            && t == s.(dataSize := n, state := Idle, startAddr := t.startAddr)
            && (match s.data[0]
                case 0 => t.Length() == 1
                case 2 => t.Length() == 0
                case _ => t.startAddr == s.startAddr && Reply(p, s, UpLoadRequest(n)) == [])
            && Reply(p, t, UpLoadRequest(m)) == [s.response]
  {
    UsedUp(s.startAddr, s.endAddr);
  }

  /** Status and state as their DFU codes. Clearing the status and aborting are seen in the next reply. */
  lemma StatusReported(p: Part, s: Session, n: word)
    requires s.Fits(p)
    ensures var status := match s.status case Ok => 0 case ErrWrite => 3 case ErrCheckErased => 5;
            var state := match s.state case Idle => 2 case DnloadIdle => 5 case UploadIdle => 9 case Error => 10;
            && Reply(p, s, GetStatus(n)) == [status, 0, 0, 0, state, 0] && Reply(p, s, GetState(n)) == [state]
            && Reply(p, Handle(p, s, ClrStatus(n)), GetStatus(n)) == [0, 0, 0, 0, state, 0]
            && Reply(p, Handle(p, s, Abort(n)), GetStatus(n)) == [status, 0, 0, 0, 2, 0]
    ensures Handle(p, s, GetStatus(n)) == Handle(p, s, GetState(n)) == s.(dataSize := n)
  {
  }

  /** The session after a read command for the info or signature bytes. */
  lemma ReadHeader(p: Part, s: Session, table: byte, index: byte)
    requires s.Fits(p) && s.Reachable() && index < 3 && (table == 0 || table == 1) && |p.info| == |p.signature| == 3
    ensures var stage := [0x05, table, if table == 0 then index else 0x30 + index];
            && Completes(p, s, stage)
            && var t := DnLoad(p, s, stage);
               && t.response == (if table == 0 then p.info[index] else p.signature[index]) && t.data[0] == table
               && t.state == (if s.state == DnloadIdle then Idle else s.state)
               && t.flash == s.flash && t.eeprom == s.eeprom && t.secure == s.secure
               && t.page64k == s.page64k && t.startAddr == s.startAddr && t.endAddr == s.endAddr
  {
    var stage := [0x05, table, if table == 0 then index else 0x30 + index];
    ExitForgotten(p, s, 3);
    var h := LoadHeader(s.(dataSize := 3, waitForExit := false), stage);
    assert h.data[0] == table && h.data[1] == stage[2];
  }

  /** Reading the bootloader's info or the part's signature works, in secure mode too, exactly when no display-data
      command is pending, and for the signature in no error state, which answers an address. */
  lemma ReadInfoExact(p: Part, s: Session, table: byte, index: byte, n: word)
    requires s.Fits(p) && s.Reachable() && index < 3 && (table == 0 || table == 1) && |p.info| == |p.signature| == 3
    ensures var stage := [0x05, table, if table == 0 then index else 0x30 + index];
            && Completes(p, s, stage)
            && var t := DnLoad(p, s, stage);
               UploadInRange(t) ==>
                 (Reply(p, t, UpLoadRequest(n)) == [if table == 0 then p.info[index] else p.signature[index]]
                  <==> s.state != UploadIdle && (table == 1 ==> s.state != Error))
  {
    hide DnLoad, Completes;
    ReadHeader(p, s, table, index);
  }

  /** A secure device takes the erase and the read commands; it refuses every other with an error and changes nothing
      else but the command it remembers. */
  lemma SecureRefuses(p: Part, s: Session, stage: seq<byte>)
    requires s.Fits(p) && s.Reachable() && s.secure && 0 < |stage| < 0x1_0000 && Completes(p, s, stage)
    ensures var h := LoadHeader(s, stage);
            h.command != 0x05 && !(h.command == 0x04 && h.data[0] == 0x00 && h.data[1] == 0xFF) ==>
              DnLoad(p, s, stage) == h.(state := Error, status := ErrWrite)
  {
    ExitForgotten(p, s, |stage|);
  }

  /** The commands the device acts on, by their first two parameters. */
  predicate Known(p: Part, command: byte, first: byte, second: byte) {
    match command
    case 0x01 => first <= 1
    case 0x03 => first <= 2
    case 0x04 => first == 3 || (first == 0 && second == 0xFF)
    case 0x05 => (first == 0 && second < |p.info|) || (first == 1 && 0x30 <= second < 0x30 + |p.signature|)
    case 0x06 => first == 3 && second == 0
    case _ => false
  }

  /** Any other command is remembered and has no effect. */
  lemma UnknownIgnored(p: Part, s: Session, stage: seq<byte>)
    requires s.Fits(p) && s.Reachable() && !s.secure && s.state != DnloadIdle && 0 < |stage| < 0x1_0000
    requires var h := LoadHeader(s, stage); !Known(p, h.command, h.data[0], h.data[1])
    ensures Completes(p, s, stage) && DnLoad(p, s, stage) == LoadHeader(s, stage).(waitForExit := false)
  {
    ExitForgotten(p, s, |stage|);
  }

  /** The start-application command: outside secure mode it ends the bootloader at once, unless it asks for a reset
      or has more parameters than the device takes over; in secure mode it is refused. */
  lemma StartApplication(p: Part, s: Session, how: byte, more: seq<byte>)
    requires s.Fits(p) && s.Reachable() && |more| < 0xFFFD && Completes(p, s, [0x04, 0x03, how] + more)
    ensures var t := DnLoad(p, s, [0x04, 0x03, how] + more);
            && t.secure == s.secure && (t.waitForExit <==> !s.secure)
            && t.run == (s.run && (s.secure || how == 0 || |more| > 3))
            && (s.secure ==> t.state == Error && t.status == ErrWrite)
            && (s.state != DnloadIdle ==> t.flash == s.flash && t.eeprom == s.eeprom)
            && (!s.secure ==> t.command == 0x04 && t.data[0] == 3 && t.data[1] == how)
  {
    var stage := [0x04, 0x03, how] + more;
    ExitForgotten(p, s, |stage|);
    var h := LoadHeader(s.(dataSize := |stage|, waitForExit := false), stage);
    assert h.data[0] == 3 && h.data[1] == how && h.dataSize == if |more| > 3 then |more| - 3 else 0;
  }

  /** The empty request that follows ends the bootloader then; any other request calls it off. */
  lemma StartOnEmpty(p: Part, s: Session)
    requires s.Fits(p) && s.Reachable() && s.waitForExit
    ensures Completes(p, s, [])
    ensures var t := DnLoad(p, s, []);
            t.run == (s.run && s.data[1] == 0) && !t.waitForExit && t.flash == s.flash && t.eeprom == s.eeprom
  {
  }
}
