/**
 The USB-to-serial bridge: a main loop that drains a ring buffer which the receive interrupt fills, and
 forwards bytes in the other direction. The interrupt runs with interrupts disabled, so it is one step;
 it may come between any two steps of the main loop, also in the middle of a removal.
 */
module SerialBridge {
  import opened Bytes
  import opened RingBuffer
  import opened RingInterleaving

  const SIZE := 128        // bytes in each ring buffer
  const EP_SIZE := 16      // CDC_TXRX_EPSIZE

  /** Where the main loop is. `left` is what remains of the cached byte count. */
  datatype Pc =
    | Top                          // about to take a byte from the host
    | Drain                        // about to read the count of the receive buffer
    | Sending(left: nat)           // about to look at the next byte, if any is left
    | Peeked(left: nat, data: byte)  // about to send the byte looked at, or in the middle of that
    | Removing(left: nat)          // the byte was sent and is being removed
    | Forward                      // about to hand a byte to the serial port

  /** Both buffers and everything that went in and out of the bridge. The buffer towards the serial port
      belongs to the main loop alone, so it is just its contents. */
  datatype Bridge = Bridge(
    ring: Ring, pc: Pc, toHost: seq<byte>, received: seq<byte>,
    pending: seq<byte>, fromHost: seq<byte>, toSerial: seq<byte>)

  datatype Event =
    | Interrupt(data: byte)                      // USART receive interrupt, device configured
    | TakeHostByte(host: Option<byte>)           // CDC_Device_ReceiveByte
    | ReadCount(inReady: bool)                   // RingBuffer_GetCount, Endpoint_IsINReady
    | PeekByte                                   // RingBuffer_Peek, if a byte is left to send
    | SendByte(ok: bool)                         // CDC_Device_SendByte of the peeked byte
    | RemoveStep                                 // a step of RingBuffer_Remove
    | ForwardByte                                // Serial_SendByte

  function Start(slots: seq<byte>): Bridge {
    Bridge(Init(slots), Top, [], [], [], [], [])
  }

  /** RingBuffer_Insert in the interrupt, which does not look whether there is room. */
  function Inserted(r: Ring, data: byte): Ring
    requires r.inPos < |r.slots|
  {
    r.(slots := r.slots[r.inPos := data], inPos := if r.inPos + 1 == |r.slots| then 0 else r.inPos + 1,
       count := r.count + 1, inserted := r.inserted + [data])
  }

  /** That is what the steps of an insertion come to, once begun. */
  lemma InsertedIsSteps(r: Ring, data: byte)
    requires r.inserter == InsertIdle && r.inPos < |r.slots|
    ensures var r1 := Next(r.(inserter := Storing(data)), Store);
            Next(Next(r1, AdvanceIn), CountUp) == Inserted(r, data)
  {
  }

  /** The step RingBuffer_Remove takes next. */
  function RemoverStep(r: Ring): Step {
    match r.remover
    case RemoveIdle => BeginRemove
    case Loading => Load
    case Loaded => AdvanceOut
    case OutAdvanced => CountDown
  }

  predicate Possible(b: Bridge, e: Event) {
    match e
    case Interrupt(_) => b.ring.inPos < |b.ring.slots|
    case TakeHostByte(_) => b.pc == Top
    case ReadCount(_) => b.pc == Drain
    case PeekByte => b.pc.Sending? && b.ring.outPos < |b.ring.slots|
    case SendByte(_) => b.pc.Peeked?
    case RemoveStep => b.pc.Removing? && Enabled(b.ring, RemoverStep(b.ring))
    case ForwardByte => b.pc == Forward
  }

  function After(b: Bridge, e: Event): Bridge
    requires Possible(b, e)
  {
    match e
    case Interrupt(d) => b.(ring := Inserted(b.ring, d), received := b.received + [d])
    case TakeHostByte(h) =>
      if |b.pending| < SIZE && h.Some? then
        b.(pending := b.pending + [h.value], fromHost := b.fromHost + [h.value], pc := Drain)
      else b.(pc := Drain)
    case ReadCount(inReady) =>
      b.(pc := if b.ring.count > 0 && inReady then Sending(Min(b.ring.count, EP_SIZE - 1)) else Forward)
    case PeekByte =>
      b.(pc := if b.pc.left > 0 then Peeked(b.pc.left, b.ring.slots[b.ring.outPos]) else Forward)
    case SendByte(ok) =>
      if ok then b.(toHost := b.toHost + [b.pc.data], pc := Removing(if b.pc.left > 0 then b.pc.left - 1 else 0))
      else b.(pc := Forward)
    case RemoveStep =>
      var r := Next(b.ring, RemoverStep(b.ring));
      b.(ring := r, pc := if r.remover == RemoveIdle then Sending(b.pc.left) else b.pc)
    case ForwardByte =>
      if b.pending != [] then b.(toSerial := b.toSerial + [b.pending[0]], pending := b.pending[1..], pc := Top)
      else b.(pc := Top)
  }

  // ---------------------------------------------------------------- the invariant

  /** Bytes received and not yet sent to the host. */
  function Unsent(b: Bridge): int {
    |b.received| - |b.toHost|
  }

  /** Those of them that only the buffer holds: while a byte is on its way out, the main loop holds it too. */
  function Stored(b: Bridge): int {
    Unsent(b) - if b.pc.Peeked? then 1 else 0
  }

  /** Slot of the oldest of these. The slot of a byte that was looked at or sent comes before it, until the out
      pointer moves on in the middle of the removal. */
  function FirstStored(b: Bridge): nat {
    if b.pc.Peeked? || (b.pc.Removing? && b.ring.remover != OutAdvanced) then Wrap(b.ring.outPos + 1, |b.ring.slots|)
    else b.ring.outPos
  }

  /** The last `n` bytes received are in the slots from `first` on, in order. */
  ghost predicate Holds(slots: seq<byte>, first: nat, n: int, received: seq<byte>) {
    && first < |slots| && 0 <= n <= |slots| && n <= |received|
    && Window(slots, first, n) == received[|received| - n..]
  }

  lemma HoldsOneMore(slots: seq<byte>, first: nat, n: int, received: seq<byte>, pos: nat, d: byte)
    requires Holds(slots, first, n, received) && n < |slots| && pos == Wrap(first + n, |slots|)
    ensures Holds(slots[pos := d], first, n + 1, received + [d])
  {
    WindowAppend(slots, first, n, pos, d);
    assert (received + [d])[|received| - n..] == received[|received| - n..] + [d];
  }

  lemma HoldsOneLess(slots: seq<byte>, first: nat, n: int, received: seq<byte>)
    requires Holds(slots, first, n, received) && n > 0
    ensures slots[first] == received[|received| - n]
    ensures Holds(slots, Wrap(first + 1, |slots|), n - 1, received)
  {
    WindowTail(slots, first, n);
    assert received[|received| - n..][1..] == received[|received| - n + 1..];
  }

  lemma HoldsAgain(slots: seq<byte>, first: nat, n: int, received: seq<byte>)
    requires first < |slots| && 0 < n <= |slots| && n <= |received|
    requires slots[first] == received[|received| - n]
    requires Holds(slots, Wrap(first + 1, |slots|), n - 1, received)
    ensures Holds(slots, first, n, received)
  {
    WindowTail(slots, first, n);
    var w, u := Window(slots, first, n), received[|received| - n..];
    assert u[1..] == received[|received| - n + 1..];
    assert w == [w[0]] + w[1..] && u == [u[0]] + u[1..];
  }

  /** Nothing is lost: the host has a prefix of what was received, a byte on its way out is the next, and the
      rest is in the slots, in order. */
  ghost predicate Intact(b: Bridge) {
    && b.toHost <= b.received
    && (b.pc.Peeked? ==> Unsent(b) > 0 && b.pc.data == b.received[|b.toHost|])
    && Holds(b.ring.slots, FirstStored(b), Stored(b), b.received)
  }

  /** Pointers, count and cached count are where the unsent bytes say they should be. */
  predicate Places(b: Bridge) {
    var r, n := b.ring, |b.ring.slots|;
    && 0 < n && r.outPos < n && 0 <= Stored(b) <= n
    // the in pointer is behind the last stored byte, and the count includes a byte looked at or under removal
    && r.inPos == Wrap(FirstStored(b) + Stored(b), n)
    && r.count == Unsent(b) + (if b.pc.Removing? then 1 else 0)
    && (!b.pc.Removing? ==> r.remover == RemoveIdle)
    // the cached count never promises more than the buffer holds
    && (b.pc.Sending? || b.pc.Removing? ==> b.pc.left <= Unsent(b))
    && (b.pc.Peeked? ==> 0 < b.pc.left <= Unsent(b))
  }

  /** The slot of a byte looked at is overwritten only by a byte too many. */
  predicate Backed(b: Bridge) {
    b.pc.Peeked? && Unsent(b) <= |b.ring.slots| && b.ring.outPos < |b.ring.slots| ==>
      b.ring.slots[b.ring.outPos] == b.pc.data
  }

  /** The other direction is a queue. */
  predicate Forwarded(b: Bridge) {
    b.fromHost == b.toSerial + b.pending && |b.pending| <= SIZE
  }

  ghost predicate Inv(b: Bridge) {
    Places(b) && Intact(b) && Backed(b) && Forwarded(b)
  }

  /** What loses no byte: an interrupt that finds a slot without a byte only the buffer holds, and a send that
      does not fail after the byte's slot was taken. */
  predicate Safe(b: Bridge, e: Event) {
    match e
    case Interrupt(_) => Stored(b) < |b.ring.slots|
    case SendByte(ok) => ok || Unsent(b) <= |b.ring.slots|
    case _ => true
  }

  /** The same by the buffer's own count. An interrupt is safe when the buffer is not full, or is just full with
      its oldest byte looked at or under removal; a send may fail unless the count exceeds the size. */
  lemma SafeByCount(b: Bridge, e: Event)
    requires Inv(b) && Possible(b, e)
    ensures var c, n := b.ring.count, |b.ring.slots|;
            Safe(b, e) <==> match e
                            case Interrupt(_) => c < n || (c == n && (b.pc.Peeked? || b.pc.Removing?))
                            case SendByte(ok) => ok || c <= n
                            case _ => true
  {
  }

  lemma PlacesIn(b: Bridge)
    requires Places(b)
    ensures b.ring.inPos == Wrap(FirstStored(b) + Stored(b), |b.ring.slots|)
  {
  }

  lemma InterruptPlaces(b: Bridge, d: byte)
    requires Places(b) && Safe(b, Interrupt(d))
    ensures Places(After(b, Interrupt(d))) && b.ring.inPos < |b.ring.slots|
    ensures b.pc.Peeked? && Unsent(b) < |b.ring.slots| ==> b.ring.inPos != b.ring.outPos
  {
  }

  lemma InterruptIntact(b: Bridge, d: byte)
    requires Places(b) && Intact(b) && Safe(b, Interrupt(d))
    ensures b.ring.inPos < |b.ring.slots| && Intact(After(b, Interrupt(d)))
  {
    InterruptPlaces(b, d);
    PlacesIn(b);
    hide Places, Holds, Wrap;
    HoldsOneMore(b.ring.slots, FirstStored(b), Stored(b), b.received, b.ring.inPos, d);
  }

  lemma InterruptKeeps(b: Bridge, d: byte)
    requires Inv(b) && Safe(b, Interrupt(d))
    ensures Inv(After(b, Interrupt(d)))
  {
    InterruptPlaces(b, d);
    InterruptIntact(b, d);
    hide Places, Intact;
  }

  lemma PeekPlaces(b: Bridge)
    requires Places(b) && b.pc.Sending?
    ensures Possible(b, PeekByte) && Places(After(b, PeekByte))
  {
  }

  /** The byte looked at is the oldest one not yet sent. */
  lemma PeekKeeps(b: Bridge)
    requires Inv(b) && b.pc.Sending?
    ensures Possible(b, PeekByte) && Inv(After(b, PeekByte))
  {
    PeekPlaces(b);
    if b.pc.left > 0 { HoldsOneLess(b.ring.slots, b.ring.outPos, Unsent(b), b.received); }
    hide Places, Holds;
  }

  lemma SendPlaces(b: Bridge, ok: bool)
    requires Places(b) && b.pc.Peeked? && Safe(b, SendByte(ok))
    ensures Places(After(b, SendByte(ok)))
  {
  }

  lemma SendKeeps(b: Bridge, ok: bool)
    requires Inv(b) && b.pc.Peeked? && Safe(b, SendByte(ok))
    ensures Inv(After(b, SendByte(ok)))
  {
    SendPlaces(b, ok);
    if !ok { HoldsAgain(b.ring.slots, b.ring.outPos, Unsent(b), b.received); }
    hide Places, Holds;
  }

  lemma RemoveKeeps(b: Bridge)
    requires Inv(b) && b.pc.Removing?
    ensures Possible(b, RemoveStep) && Inv(After(b, RemoveStep))
  {
    var b' := After(b, RemoveStep);
    assert FirstStored(b') == FirstStored(b) && b'.ring.slots == b.ring.slots;
    assert Places(b');
    hide Places, Holds;
  }

  lemma EventKeeps(b: Bridge, e: Event)
    requires Inv(b) && Possible(b, e) && Safe(b, e)
    ensures Inv(After(b, e))
  {
    match e
    case Interrupt(d) => InterruptKeeps(b, d);
    case PeekByte => PeekKeeps(b);
    case SendByte(ok) => SendKeeps(b, ok);
    case RemoveStep => RemoveKeeps(b);
    case _ => hide Holds;
  }

  /** Anything else loses a byte: more are unsent than slots and main loop can hold. */
  lemma UnsafeLoses(b: Bridge, e: Event)
    requires Inv(b) && Possible(b, e) && !Safe(b, e)
    ensures !Intact(After(b, e))
  {
  }

  /** An interrupt into a full buffer whose oldest byte was looked at is harmless exactly when the send then
      succeeds. */
  lemma FullWhilePeeked(b: Bridge, d: byte, ok: bool)
    requires Inv(b) && b.pc.Peeked? && b.ring.count == |b.ring.slots|
    ensures Possible(b, Interrupt(d)) && Possible(After(b, Interrupt(d)), SendByte(ok))
    ensures Intact(After(b, Interrupt(d))) && (Intact(After(After(b, Interrupt(d)), SendByte(ok))) <==> ok)
  {
    InterruptKeeps(b, d);
    var b' := After(b, Interrupt(d));
    if ok { SendKeeps(b', ok); } else { UnsafeLoses(b', SendByte(ok)); }
  }

  // ---------------------------------------------------------------- every run

  /** The byte an event brings in from the serial port, if any. */
  function ArrivedBy(e: Event): seq<byte> {
    match e case Interrupt(d) => [d] case _ => []
  }

  /** The byte an event takes from the host: one that is ready while fewer than 128 are pending. */
  function TakenBy(b: Bridge, e: Event): seq<byte> {
    match e case TakeHostByte(Some(h)) => if |b.pending| < 128 then [h] else [] case _ => []
  }

  /** What an event does to what came in and went out to the serial port: whenever a byte is pending the oldest goes
      out. */
  lemma InStep(b: Bridge, e: Event)
    requires Possible(b, e)
    ensures var t := After(b, e);
            && t.received == b.received + ArrivedBy(e) && t.fromHost == b.fromHost + TakenBy(b, e)
            && t.toSerial == b.toSerial + (if e == ForwardByte && b.pending != [] then [b.pending[0]] else [])
            && t.toSerial + t.pending == b.toSerial + b.pending + TakenBy(b, e)
            && (|b.pending| <= 128 ==> |t.pending| <= 128)
  {
    if e == ForwardByte && b.pending != [] { assert b.pending == [b.pending[0]] + b.pending[1..]; }
  }

  /** A part of a run. */
  ghost predicate Steps(states: seq<Bridge>, events: seq<Event>) {
    && |states| == |events| + 1
    && forall i :: 0 <= i < |events| ==> Possible(states[i], events[i]) && states[i + 1] == After(states[i], events[i])
  }

  /** A run from power-up, with any interleaving of main loop and interrupts. */
  ghost predicate Run(states: seq<Bridge>, events: seq<Event>) {
    Steps(states, events) && |states[0].ring.slots| == SIZE && states[0] == Start(states[0].ring.slots)
  }

  lemma StartHolds(slots: seq<byte>)
    requires |slots| == SIZE
    ensures Inv(Start(slots))
  {
  }

  lemma {:induction false} InvInRun(states: seq<Bridge>, events: seq<Event>, k: nat)
    requires Run(states, events) && k < |states|
    requires forall i :: 0 <= i < k ==> Safe(states[i], events[i])
    ensures Inv(states[k])
  {
    if k == 0 {
      StartHolds(states[0].ring.slots);
    } else {
      InvInRun(states, events, k - 1);
      assert Possible(states[k - 1], events[k - 1]) && states[k] == After(states[k - 1], events[k - 1]);
      hide Inv, After, Safe, Possible;
      EventKeeps(states[k - 1], events[k - 1]);
    }
  }

  /** The bytes the interrupts among the first `k` events received. */
  function Arrived(events: seq<Event>, k: nat): seq<byte>
    requires k <= |events|
  {
    if k == 0 then [] else Arrived(events, k - 1) + ArrivedBy(events[k - 1])
  }

  /** The bytes taken from the host in the first `k` events. */
  ghost function Taken(states: seq<Bridge>, events: seq<Event>, k: nat): seq<byte>
    requires k <= |events| <= |states|
  {
    if k == 0 then [] else Taken(states, events, k - 1) + TakenBy(states[k - 1], events[k - 1])
  }

  /** In every run these are what came into the bridge, and what came from the host and has not gone to the serial
      port is pending. */
  lemma {:induction false} CameIn(states: seq<Bridge>, events: seq<Event>, k: nat)
    requires Run(states, events) && k < |states|
    ensures states[k].received == Arrived(events, k)
    ensures states[k].fromHost == Taken(states, events, k) == states[k].toSerial + states[k].pending
    ensures |states[k].pending| <= 128
  {
    if k > 0 {
      CameIn(states, events, k - 1);
      InStep(states[k - 1], events[k - 1]);
      hide After, TakenBy, ArrivedBy;
    }
  }

  /** What the invariant says about the bytes and the buffer. */
  lemma InvMeans(b: Bridge)
    requires Inv(b)
    ensures Intact(b) && b.ring.outPos < |b.ring.slots|
    ensures !b.pc.Removing? && !b.pc.Peeked? ==>
              b.ring.count <= |b.ring.slots|
              && b.received == b.toHost + Window(b.ring.slots, b.ring.outPos, b.ring.count)
    ensures b.pc.Removing? ==> b.ring.count > 0 && Enabled(b.ring, RemoverStep(b.ring))
  {
    if b.pc.Removing? { RemoveKeeps(b); }
  }

  /** In every run whose events are safe, which those are whose interrupts never find the buffer full, whichever
      sends fail: the bytes sent to the host are a prefix of the bytes received, what is left is stored in order, a
      removal never finds the buffer empty, and the host's bytes reach the serial port in order with none lost. */
  lemma NothingLost(states: seq<Bridge>, events: seq<Event>, k: nat)
    requires Run(states, events) && k < |states|
    requires forall i :: 0 <= i < k ==> Safe(states[i], events[i])
    ensures var b := states[k];
            && Intact(b) && b.ring.outPos < |b.ring.slots|
            && (!b.pc.Removing? && !b.pc.Peeked? ==>
                  b.ring.count <= |b.ring.slots|
                  && b.received == b.toHost + Window(b.ring.slots, b.ring.outPos, b.ring.count))
            && (b.pc.Removing? ==> b.ring.count > 0 && Enabled(b.ring, RemoverStep(b.ring)))
            && Arrived(events, k) == b.received && Taken(states, events, k) == b.toSerial + b.pending
  {
    hide Inv, Intact, Taken, Arrived, After;
    CameIn(states, events, k);
    InvInRun(states, events, k);
    InvMeans(states[k]);
  }

  /** A round begins exactly when the buffer holds something and no packet is under way to the host. */
  lemma RoundBegins(b: Bridge, inReady: bool)
    requires b.pc == Drain
    ensures var t := After(b, ReadCount(inReady));
            if inReady && b.ring.count > 0 then t.pc.Sending? else t == b.(pc := Forward)
  {
  }

  /** One step of a round. */
  lemma RoundStep(b: Bridge, e: Event)
    requires Possible(b, e) && (b.pc.Sending? || b.pc.Peeked? || b.pc.Removing?) && (b.pc.Peeked? ==> b.pc.left > 0)
    ensures var t, sent := After(b, e), |After(b, e).toHost| - |b.toHost|;
            match t.pc
            case Sending(left) => e != SendByte(false) && sent + left == b.pc.left
            case Peeked(left, _) => left > 0 && sent + left == b.pc.left
            case Removing(left) => sent + left == b.pc.left
            case Forward => sent == 0 && if e == SendByte(false) then b.pc.left > 0 else b.pc.left == 0
            case _ => false
  {
  }

  /** The main loop is sending, from its look at the count in step `i` on. */
  ghost predicate Round(states: seq<Bridge>, events: seq<Event>, i: nat, k: nat) {
    && Steps(states, events) && i < k < |states|
    && events[i] == ReadCount(true) && states[i].ring.count > 0
    && forall j :: i < j < k ==> states[j].pc != Forward
  }

  /** A round sends as many bytes as the buffer held, but at most 15, and ends early only with a send that fails. */
  lemma {:induction false} RoundSends(states: seq<Bridge>, events: seq<Event>, i: nat, k: nat)
    requires Round(states, events, i, k)
    ensures var sent, due := |states[k].toHost| - |states[i].toHost|, Min(states[i].ring.count, 15);
            match states[k].pc
            case Sending(left) => sent + left == due
            case Peeked(left, _) => left > 0 && sent + left == due
            case Removing(left) => sent + left == due
            case Forward => if events[k - 1] == SendByte(false) then sent < due else sent == due
            case _ => false
  {
    assert Possible(states[k - 1], events[k - 1]) && states[k] == After(states[k - 1], events[k - 1]);
    if k > i + 1 {
      RoundSends(states, events, i, k - 1);
      RoundStep(states[k - 1], events[k - 1]);
      hide After, Possible;
    }
  }

  /** The interrupt never finds the buffer full. */
  ghost predicate NeverFull(states: seq<Bridge>, events: seq<Event>, k: nat)
    requires k <= |events| <= |states|
  {
    forall i :: 0 <= i < k && events[i].Interrupt? ==> states[i].ring.count < |states[i].ring.slots|
  }

  lemma NotFullIsSafe(b: Bridge, e: Event)
    requires Inv(b) && Possible(b, e) && b.ring.count <= |b.ring.slots|
    requires e.Interrupt? ==> b.ring.count < |b.ring.slots|
    ensures Safe(b, e) && Inv(After(b, e)) && After(b, e).ring.count <= |After(b, e).ring.slots|
  {
    SafeByCount(b, e);
    EventKeeps(b, e);
    hide Inv;
  }

  /** Then every event is safe. */
  lemma {:induction false} NeverFullIsSafe(states: seq<Bridge>, events: seq<Event>, k: nat)
    requires Run(states, events) && k < |states| && NeverFull(states, events, k)
    ensures states[k].ring.count <= |states[k].ring.slots| && Inv(states[k])
    ensures forall i :: 0 <= i < k ==> Safe(states[i], events[i])
  {
    if k == 0 {
      InvInRun(states, events, 0);
    } else {
      NeverFullIsSafe(states, events, k - 1);
      var b, e := states[k - 1], events[k - 1];
      assert Possible(b, e) && states[k] == After(b, e);
      hide Inv, Safe, After, Possible;
      NotFullIsSafe(b, e);
    }
  }

  lemma LastEvent(b: Bridge, e: Event)
    requires Inv(b) && Possible(b, e)
    ensures Intact(After(b, e)) <==> Safe(b, e)
  {
    if Safe(b, e) { EventKeeps(b, e); } else { UnsafeLoses(b, e); }
  }

  /** A run loses nothing at any of its points exactly when all its events are safe. */
  lemma {:induction false} LosslessExact(states: seq<Bridge>, events: seq<Event>, k: nat)
    requires Run(states, events) && k < |states|
    ensures (forall i :: 0 <= i <= k ==> Intact(states[i]))
            <==> (forall i :: 0 <= i < k ==> Safe(states[i], events[i]))
  {
    if k == 0 {
      InvInRun(states, events, 0);
    } else {
      assert Possible(states[k - 1], events[k - 1]) && states[k] == After(states[k - 1], events[k - 1]);
      hide Inv, Intact, After, Safe, Possible;
      LosslessExact(states, events, k - 1);
      if forall i :: 0 <= i < k - 1 ==> Safe(states[i], events[i]) {
        InvInRun(states, events, k - 1);
        LastEvent(states[k - 1], events[k - 1]);
        assert (forall i :: 0 <= i < k ==> Safe(states[i], events[i])) <==> Safe(states[k - 1], events[k - 1]);
      }
    }
  }

  // ---------------------------------------------------------------- an overrun

  /** The bridge after `n` interrupts that all receive a zero, before the main loop has taken a step. */
  function Flooded(slots: seq<byte>, n: nat): (b: Bridge)
    requires |slots| == SIZE && n <= SIZE
    ensures |b.ring.slots| == SIZE && b.ring.inPos < SIZE
  {
    if n == 0 then Start(slots) else After(Flooded(slots, n - 1), Interrupt(0))
  }

  lemma {:induction false} FloodedIs(slots: seq<byte>, n: nat)
    requires |slots| == SIZE && n <= SIZE
    ensures var b := Flooded(slots, n);
            && Inv(b) && b.pc == Top && b.ring.outPos == 0 && b.ring.remover == RemoveIdle
            && b.toHost == [] && b.received == seq(n, _ => 0) && b.ring.count == n
  {
    if n > 0 {
      FloodedIs(slots, n - 1);
      InterruptKeeps(Flooded(slots, n - 1), 0);
    }
  }

  lemma FloodRun(slots: seq<byte>) returns (states: seq<Bridge>, events: seq<Event>)
    requires |slots| == SIZE
    ensures |events| == SIZE && Steps(states, events)
    ensures states[0] == Start(slots) && states[SIZE] == Flooded(slots, SIZE)
  {
    states := seq(SIZE + 1, i requires 0 <= i <= SIZE => Flooded(slots, i));
    events := seq(SIZE, _ => Interrupt(0));
  }

  /** What the host is sent after one byte too many. */
  lemma OneTooMany(b0: Bridge, b1: Bridge, b2: Bridge, b3: Bridge, b4: Bridge, b5: Bridge)
    requires b0.pc == Top && b0.ring.count == |b0.ring.slots| == SIZE && b0.ring.outPos == b0.ring.inPos == 0
    requires b0.toHost == []
    requires b1 == After(b0, Interrupt(1)) && b2 == After(b1, TakeHostByte(None)) && b3 == After(b2, ReadCount(true))
    requires b3.pc.Sending? && b3.ring.outPos < |b3.ring.slots| && b4 == After(b3, PeekByte)
    requires b4.pc.Peeked? && b5 == After(b4, SendByte(true))
    ensures b5.toHost == [1] && b5.received == b0.received + [1]
  {
  }

  /** How it goes wrong: 128 zeros and a one are received before the main loop gets to run, and the host is sent
      the one first. */
  lemma Overrun(slots: seq<byte>) returns (states: seq<Bridge>, events: seq<Event>)
    requires |slots| == SIZE
    ensures Run(states, events)
    ensures var b := states[|events|]; b.received == seq(SIZE, _ => 0) + [1] && b.toHost == [1]
  {
    FloodedIs(slots, SIZE);
    var b0 := Flooded(slots, SIZE);
    assert b0.ring.inPos == 0;
    hide Inv, Intact, Flooded;
    var b1 := After(b0, Interrupt(1));
    var b2 := After(b1, TakeHostByte(None));
    var b3 := After(b2, ReadCount(true));
    var b4 := After(b3, PeekByte);
    var b5 := After(b4, SendByte(true));
    OneTooMany(b0, b1, b2, b3, b4, b5);
    var late := [Interrupt(1), TakeHostByte(None), ReadCount(true), PeekByte, SendByte(true)];
    assert Steps([b0, b1, b2, b3, b4, b5], late);
    states, events := FloodRun(slots);
    states, events := states[..SIZE] + [b0, b1, b2, b3, b4, b5], events + late;
    hide After, Possible;
    forall i | 0 <= i < |events|
      ensures Possible(states[i], events[i]) && states[i + 1] == After(states[i], events[i])
    {
      if i >= SIZE { assert events[i] == late[i - SIZE]; }
    }
  }
}
