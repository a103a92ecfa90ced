/**
 The lock controller: a main loop that parses commands and runs the opening sequence, and a timer
 interrupt that counts down between the steps of that sequence. The interrupt may come between any two
 steps of the main loop; each read and each write of the tick counter is one step.
 */
module LockController {
  import opened Bytes
  import Keypad

  datatype Action = Wakeup | Telegram | PowerDown | PowerUp

  /** An action and the number of timer ticks before it. */
  datatype Event = Event(action: Action, at: nat)

  datatype Protocol = WaitForNewline | WaitForCommand | WaitForLedNumber | WaitForLedValue

  /** Where the main loop is within a frame. */
  datatype Pc =
    | FrameStart     // about to receive a byte and parse it
    | CheckTimer     // do_next_locc_step, about to read the tick counter
    | Acting         // the timer has expired, about to drive the lock
    | SetWait        // about to set the tick counter and the next step
    | FrameEnd       // about to update the locking flag

  datatype Lock = Lock(
    protocol: Protocol, locking: bool, step: nat, wait: nat, pc: Pc, vcc: bool,
    clock: nat, trace: seq<Event>, opens: nat)

  /** What happens next: a timer tick, or a step of the main loop, which may find a received byte. */
  datatype Input = Tick | Main(received: Option<byte>)

  const SETUP := Lock(WaitForNewline, false, 0, 0, FrameStart, true, 0, [], 0)

  const NEWLINE: byte := 10
  const RETURN: byte := 13
  const OPEN: byte := 0x6F       // 'o'
  const LED: byte := 0x6C        // 'l'
  const HALT: byte := 0x68       // 'h'
  const INIT: byte := 0x69       // 'i'

  /** handle_user_input: the next protocol state, and whether to open the lock. */
  function Parse(p: Protocol, c: byte): (Protocol, bool) {
    match p
    case WaitForNewline => (if c == NEWLINE || c == RETURN then WaitForCommand else WaitForNewline, false)
    case WaitForCommand =>
      if c == OPEN then (WaitForNewline, true)
      else if c == LED then (WaitForLedNumber, false)
      else if c == HALT || c == INIT || c == NEWLINE || c == RETURN then (WaitForCommand, false)
      else (WaitForNewline, false)
    case WaitForLedNumber => (WaitForLedValue, false)
    case WaitForLedValue => (WaitForNewline, false)
  }

  // ---------------------------------------------------------------- the command language

  /** What the host asks for. */
  datatype Request = OpenLock | SwitchLed(target: byte, value: byte)

  /** The request a byte completes, if any. */
  function One(p: Protocol, target: byte, c: byte): seq<Request> {
    if Parse(p, c).1 then [OpenLock] else if p == WaitForLedValue then [SwitchLed(target, c)] else []
  }

  /** The requests recognised in the bytes received, with `target` the LED number read last. */
  function Understood(p: Protocol, target: byte, bytes: seq<byte>): seq<Request>
    decreases bytes
  {
    if bytes == [] then []
    else
      var c := bytes[0];
      One(p, target, c) + Understood(Parse(p, c).0, if p == WaitForLedNumber then c else target, bytes[1..])
  }

  /** A request on a line of its own, with anything but a line end after it. */
  function Line(r: Request, junk: seq<byte>): seq<byte> {
    [NEWLINE] + (match r case OpenLock => [OPEN] case SwitchLed(a, b) => [LED, a, b]) + junk
  }

  function Lines(requests: seq<(Request, seq<byte>)>): seq<byte> {
    if requests == [] then [] else Line(requests[0].0, requests[0].1) + Lines(requests[1..])
  }

  ghost predicate NoLineEnd(bytes: seq<byte>) {
    forall i :: 0 <= i < |bytes| ==> bytes[i] != NEWLINE && bytes[i] != RETURN
  }

  lemma {:induction false} JunkIgnored(target: byte, junk: seq<byte>, rest: seq<byte>)
    requires NoLineEnd(junk)
    ensures Understood(WaitForNewline, target, junk + rest) == Understood(WaitForNewline, target, rest)
  {
    if junk == [] {
      assert junk + rest == rest;
    } else {
      assert (junk + rest)[1..] == junk[1..] + rest;
      JunkIgnored(target, junk[1..], rest);
    }
  }

  lemma LineUnderstood(target: byte, r: Request, junk: seq<byte>, rest: seq<byte>)
    requires NoLineEnd(junk)
    ensures var after := if r.SwitchLed? then r.target else target;
            Understood(WaitForNewline, target, Line(r, junk) + rest) == [r] + Understood(WaitForNewline, after, rest)
  {
    var all := Line(r, junk) + rest;
    assert all[0] == NEWLINE;
    if r.OpenLock? {
      assert all[1..][0] == OPEN && all[1..][1..] == junk + rest;
      JunkIgnored(target, junk, rest);
    } else {
      assert all[1..][0] == LED && all[1..][1..][0] == r.target && all[1..][1..][1..][0] == r.value;
      assert all[1..][1..][1..][1..] == junk + rest;
      assert Understood(WaitForLedNumber, target, all[1..][1..])
             == [r] + Understood(WaitForNewline, r.target, junk + rest);
      JunkIgnored(r.target, junk, rest);
    }
  }

  /** Any list of requests, written one to a line, is recognised in order: an LED operand that is a line end
      or an 'o' is no command, and neither is anything after a request on its line. */
  lemma {:induction false} RequestsUnderstood(target: byte, requests: seq<(Request, seq<byte>)>)
    requires forall i :: 0 <= i < |requests| ==> NoLineEnd(requests[i].1)
    ensures Understood(WaitForNewline, target, Lines(requests))
            == seq(|requests|, i requires 0 <= i < |requests| => requests[i].0)
    decreases requests
  {
    if requests != [] {
      var (r, junk) := requests[0];
      LineUnderstood(target, r, junk, Lines(requests[1..]));
      RequestsUnderstood(if r.SwitchLed? then r.target else target, requests[1..]);
    }
  }

  // ---------------------------------------------------------------- which bytes are commands

  /** Byte `n` is read as a command: it follows a line end that is no LED operand, or an 'h' or 'i' that was read as
      a command. */
  predicate Command(bytes: seq<byte>, n: nat)
    requires n <= |bytes|
    decreases n
  {
    n > 0 && if bytes[n - 1] == 10 || bytes[n - 1] == 13 then
               !FirstOperand(bytes, n - 1) && !SecondOperand(bytes, n - 1)
             else (bytes[n - 1] == 0x68 || bytes[n - 1] == 0x69) && Command(bytes, n - 1)
  }

  /** It is the number of an LED: it follows an 'l' that was read as a command. */
  predicate FirstOperand(bytes: seq<byte>, n: nat)
    requires n <= |bytes|
    decreases n
  {
    n > 0 && bytes[n - 1] == 0x6C && Command(bytes, n - 1)
  }

  /** It is the new value of the LED. */
  predicate SecondOperand(bytes: seq<byte>, n: nat)
    requires n <= |bytes|
    decreases n
  {
    n > 1 && bytes[n - 2] == 0x6C && Command(bytes, n - 2)
  }

  /** The requests in the first `n` bytes: every 'o' that is a command, and every pair of operands. */
  function Requested(bytes: seq<byte>, n: nat): seq<Request>
    requires n <= |bytes|
  {
    if n == 0 then []
    else
      Requested(bytes, n - 1)
      + if Command(bytes, n - 1) && bytes[n - 1] == 0x6F then [OpenLock]
        else if SecondOperand(bytes, n - 1) then [SwitchLed(bytes[n - 2], bytes[n - 1])]
        else []
  }

  /** Where the parser is after the first `n` bytes. */
  function ProtocolAfter(bytes: seq<byte>, n: nat): Protocol
    requires n <= |bytes|
  {
    if n == 0 then WaitForNewline else Parse(ProtocolAfter(bytes, n - 1), bytes[n - 1]).0
  }

  /** The parser opens the lock on an 'o' where it expects a command, and on nothing else. */
  lemma OpensOn(p: Protocol, c: byte)
    ensures Parse(p, c).1 <==> p == WaitForCommand && c == 0x6F
  {
  }

  /** It expects a command, an operand or a line end exactly where there is one. */
  lemma {:induction false} ProtocolExact(bytes: seq<byte>, n: nat)
    requires n <= |bytes|
    ensures ProtocolAfter(bytes, n) == WaitForCommand <==> Command(bytes, n)
    ensures ProtocolAfter(bytes, n) == WaitForLedNumber <==> FirstOperand(bytes, n)
    ensures ProtocolAfter(bytes, n) == WaitForLedValue <==> SecondOperand(bytes, n)
  {
    if n > 0 { ProtocolExact(bytes, n - 1); }
    if n > 1 { ProtocolExact(bytes, n - 2); }
  }

  /** One byte more. */
  lemma RequestedStep(bytes: seq<byte>, n: nat, t: byte)
    requires 0 < n <= |bytes| && (ProtocolAfter(bytes, n - 1) == WaitForLedValue ==> n > 1 && t == bytes[n - 2])
    ensures Requested(bytes, n) == Requested(bytes, n - 1) + One(ProtocolAfter(bytes, n - 1), t, bytes[n - 1])
  {
    ProtocolExact(bytes, n - 1);
    OpensOn(ProtocolAfter(bytes, n - 1), bytes[n - 1]);
    hide Command, FirstOperand, ProtocolAfter, Parse;
  }

  lemma UnderstoodStep(bytes: seq<byte>, n: nat, t: byte)
    requires 0 < n <= |bytes|
    ensures var p, c := ProtocolAfter(bytes, n - 1), bytes[n - 1];
            && (ProtocolAfter(bytes, n) == WaitForLedValue ==> p == WaitForLedNumber)
            && Understood(p, t, bytes[n - 1..]) == One(p, t, c)
               + Understood(ProtocolAfter(bytes, n), if p == WaitForLedNumber then c else t, bytes[n..])
  {
    var rest := bytes[n - 1..];
    assert rest[0] == bytes[n - 1] && rest[1..] == bytes[n..];
    hide One;
  }

  /** The requests in the first `n` bytes, and what is recognised in the others. */
  lemma {:induction false} UnderstoodUpTo(target: byte, bytes: seq<byte>, n: nat) returns (t: byte)
    requires n <= |bytes|
    ensures Understood(WaitForNewline, target, bytes)
            == Requested(bytes, n) + Understood(ProtocolAfter(bytes, n), t, bytes[n..])
    ensures ProtocolAfter(bytes, n) == WaitForLedValue ==> n > 0 && t == bytes[n - 1]
  {
    if n == 0 {
      assert bytes[0..] == bytes;
      return target;
    }
    hide Understood, ProtocolAfter, Parse, One, Requested;
    t := UnderstoodUpTo(target, bytes, n - 1);
    RequestedStep(bytes, n, t);
    UnderstoodStep(bytes, n, t);
    if ProtocolAfter(bytes, n - 1) == WaitForLedNumber { t := bytes[n - 1]; }
  }

  /** What is recognised in any string of bytes is what is requested in it, in order. */
  lemma RequestsExact(target: byte, bytes: seq<byte>)
    ensures Understood(WaitForNewline, target, bytes) == Requested(bytes, |bytes|)
  {
    var t := UnderstoodUpTo(target, bytes, |bytes|);
    assert bytes[|bytes|..] == [];
  }

  /** Later bytes do not matter. */
  lemma {:induction false} CommandPrefix(a: seq<byte>, b: seq<byte>, n: nat)
    requires n <= |a| <= |b| && a == b[..|a|]
    ensures ProtocolAfter(a, n) == ProtocolAfter(b, n)
  {
    if n > 0 { CommandPrefix(a, b, n - 1); }
  }

  /** A line end may be two bytes, and 'h' and 'i' may come before a command; any other byte spoils the line. */
  lemma CommandExamples()
    ensures Requested([13, 10, 0x6F], 3) == Requested([10, 0x68, 0x6F], 3) == [OpenLock]
    ensures Requested([10, 0x78, 0x6F], 3) == Requested([10, 0x78], 2) == []
  {
    assert Command([13, 10, 0x6F], 2) && !Command([13, 10, 0x6F], 0);
    assert Command([10, 0x68, 0x6F], 1) && Command([10, 0x68, 0x6F], 2);
    assert Command([10, 0x78, 0x6F], 1) && !Command([10, 0x78, 0x6F], 2);
    assert Command([10, 0x78], 1);
  }

  // ---------------------------------------------------------------- the LEDs

  /** The LED number read last and the LEDs, after a byte: numbers and values are digits. */
  function LedsAfter(p: Protocol, target: byte, leds: bv8, c: byte): (byte, bv8) {
    (if p == WaitForLedNumber then c else target,
     if p == WaitForLedValue then Keypad.WithLed(leds, target as bv8 - 48, c as bv8 - 48) else leds)
  }

  /** The same after the first `n` bytes. */
  function LedsAt(bytes: seq<byte>, n: nat, leds: bv8): (byte, bv8)
    requires n <= |bytes|
  {
    if n == 0 then (0, leds)
    else
      var (target, before) := LedsAt(bytes, n - 1, leds);
      LedsAfter(ProtocolAfter(bytes, n - 1), target, before, bytes[n - 1])
  }

  /** What the requests say about an LED: the last one for its digit, where '0' is off. */
  function LitBy(requests: seq<Request>, led: nat, lit: bool): bool {
    if requests == [] then lit
    else
      var last := requests[|requests| - 1];
      if last.SwitchLed? && last.target == 48 + led then last.value != 48
      else LitBy(requests[..|requests| - 1], led, lit)
  }

  lemma LitBySnoc(requests: seq<Request>, r: Request, led: nat, lit: bool)
    ensures LitBy(requests + [r], led, lit) ==
              if r.SwitchLed? && r.target == 48 + led then r.value != 48 else LitBy(requests, led, lit)
  {
    assert (requests + [r])[..|requests|] == requests;
  }

  lemma DigitBits(c: byte, k: nat)
    requires k < 3
    ensures c as bv8 - 48 == k as bv8 <==> c == 48 + k
  {
    if k == 0 {
      assert c as bv8 == 48 <==> c == 48;
    } else if k == 1 {
      assert c as bv8 == 49 <==> c == 49;
    } else {
      assert c as bv8 == 50 <==> c == 50;
    }
  }

  /** One LED request. */
  lemma LedSwitched(leds: bv8, target: byte, value: byte, led: nat)
    requires leds & 0xF8 == 0 && led < 3
    ensures var after := Keypad.WithLed(leds, target as bv8 - 48, value as bv8 - 48);
            && after & 0xF8 == 0
            && (Keypad.Lit(after, led) <==> if target == 48 + led then value != 48 else Keypad.Lit(leds, led))
  {
    hide Keypad.WithLed, Keypad.Lit;
    Keypad.LedSet(leds, target as bv8 - 48, value as bv8 - 48);
    DigitBits(target, led);
    DigitBits(value, 0);
  }

  /** After any bytes every LED is as the requests in them say. */
  lemma {:induction false} LedsExact(bytes: seq<byte>, n: nat, leds: bv8, led: nat)
    requires n <= |bytes| && leds & 0xF8 == 0 && led < 3
    ensures var (target, now) := LedsAt(bytes, n, leds);
            && now & 0xF8 == 0 && (SecondOperand(bytes, n) ==> target == bytes[n - 1])
            && (Keypad.Lit(now, led) <==> LitBy(Requested(bytes, n), led, Keypad.Lit(leds, led)))
  {
    hide Keypad.WithLed, Keypad.Lit;
    if n > 0 {
      LedsExact(bytes, n - 1, leds, led);
      ProtocolExact(bytes, n - 1);
      var (target, before) := LedsAt(bytes, n - 1, leds);
      var c := bytes[n - 1];
      LitBySnoc(Requested(bytes, n - 1), OpenLock, led, Keypad.Lit(leds, led));
      if SecondOperand(bytes, n - 1) {
        LedSwitched(before, target, c, led);
        LitBySnoc(Requested(bytes, n - 1), SwitchLed(target, c), led, Keypad.Lit(leds, led));
      }
      hide LitBy, Command, SecondOperand;
      assert !SecondOperand(bytes, n - 1) && !(Command(bytes, n - 1) && c == 0x6F) ==>
               Requested(bytes, n) == Requested(bytes, n - 1);
    }
  }

  // ---------------------------------------------------------------- the sequence

  function ActionOf(step: nat): Action
    requires 1 <= step <= 4
  {
    [Wakeup, Telegram, PowerDown, PowerUp][step - 1]
  }

  function WaitOf(step: nat): nat
    requires 1 <= step <= 4
  {
    [59, 15000, 5000, 5000][step - 1]
  }

  /** The step after a step; 0 is idle. */
  function StepAfter(step: nat): nat {
    if step == 4 then 0 else step + 1
  }

  /** Does the frame that starts here open the lock? */
  predicate Opens(s: Lock, received: Option<byte>) {
    s.pc == FrameStart && !s.locking && received.Some? && Parse(s.protocol, received.value).1
  }

  /** Steps the main loop can take: outside of idle it is in the middle of the sequence. */
  predicate Sane(s: Lock) {
    s.pc == Acting || s.pc == SetWait ==> 1 <= s.step <= 4
  }

  /** The next step of the main loop. */
  function MainStep(s: Lock, received: Option<byte>): Lock
    requires Sane(s)
  {
    match s.pc
    case FrameStart =>
      var t := if received.Some? then s.(protocol := Parse(s.protocol, received.value).0) else s;
      if Opens(s, received) then t.(locking := true, step := 1, opens := s.opens + 1, pc := CheckTimer)
      else t.(pc := if s.locking then CheckTimer else FrameStart)
    case CheckTimer => s.(pc := if s.wait > 0 then FrameEnd else Acting)
    case Acting =>
      var a := ActionOf(s.step);
      s.(trace := s.trace + [Event(a, s.clock)],
         vcc := if a == PowerDown then false else if a == PowerUp then true else s.vcc,
         pc := SetWait)
    case SetWait => s.(wait := WaitOf(s.step), step := StepAfter(s.step), pc := FrameEnd)
    case FrameEnd => s.(locking := s.step > 0, pc := FrameStart)
  }

  /** The timer interrupt. */
  function TimerTick(s: Lock): Lock {
    s.(wait := if s.wait > 0 then s.wait - 1 else 0, clock := s.clock + 1)
  }

  function Next(s: Lock, i: Input): Lock
    requires Sane(s)
  {
    match i
    case Tick => TimerTick(s)
    case Main(received) => MainStep(s, received)
  }

  // ---------------------------------------------------------------- the invariant

  /** Step the lock will take after the actions in the trace. */
  function Position(s: Lock): nat {
    |s.trace| % 4 + 1
  }

  /** Actions still to come for the open commands accepted so far. */
  function Remaining(s: Lock): int {
    if s.step == 0 then 0 else if s.pc == SetWait then 4 - s.step else 5 - s.step
  }

  /** The actions are wake-up, telegram, power-down and power-up, over and over. */
  ghost predicate InOrder(trace: seq<Event>) {
    forall i :: 0 <= i < |trace| ==>
      trace[i].action == match i % 4 case 0 => Wakeup case 1 => Telegram case 2 => PowerDown case _ => PowerUp
  }

  /** Ticks to wait after the action at a place in the trace. */
  function Pause(i: nat): nat {
    match i % 4 case 0 => 59 case 1 => 15000 case _ => 5000
  }

  /** Between two actions lies at least the pause of the first. */
  ghost predicate Spaced(trace: seq<Event>) {
    forall i :: 0 <= i < |trace| - 1 ==> trace[i + 1].at >= trace[i].at + Pause(i)
  }

  /** Locking is a step from 1 to 4, idle is step 0; inside a frame the sequence is running. */
  predicate Shape(s: Lock) {
    && s.step <= 4
    && (s.pc == FrameStart ==> (s.locking <==> s.step > 0))
    && (s.pc != FrameStart ==> s.locking)
    && (s.pc == CheckTimer || s.pc == Acting || s.pc == SetWait ==> s.step > 0)
    && (s.pc == Acting ==> s.wait == 0)
  }

  ghost predicate Inv(s: Lock) {
    var n := |s.trace|;
    && Shape(s)
    // the actions so far, and the one to come
    && InOrder(s.trace) && Spaced(s.trace)
    && (if s.pc == SetWait then n > 0 && (n - 1) % 4 + 1 == s.step
        else Position(s) == if s.step == 0 then 1 else s.step)
    && n + Remaining(s) == 4 * s.opens
    // time since the last action and the ticks still to wait make up its wait
    && (n > 0 ==> s.trace[n - 1].at <= s.clock)
    && (n > 0 && s.pc != SetWait ==> s.clock + s.wait >= s.trace[n - 1].at + Pause(n - 1))
    && s.wait <= (if n == 0 || s.pc == SetWait then 0 else Pause(n - 1))
    // the supply is off exactly after a power-down
    && (s.vcc <==> n == 0 || s.trace[n - 1].action != PowerDown)
  }

  lemma SetupHolds()
    ensures Inv(SETUP)
  {
  }

  lemma ActKeeps(s: Lock)
    requires Inv(s) && s.pc == Acting
    ensures Sane(s) && Inv(MainStep(s, None))
  {
  }

  lemma SetWaitKeeps(s: Lock)
    requires Inv(s) && s.pc == SetWait
    ensures Sane(s) && Inv(MainStep(s, None))
  {
  }

  lemma TickKeeps(s: Lock)
    requires Inv(s)
    ensures Inv(TimerTick(s))
  {
  }

  /** The steps that neither act nor wait. */
  lemma QuietKeeps(s: Lock, received: Option<byte>)
    requires Inv(s) && (s.pc == FrameStart || s.pc == CheckTimer || s.pc == FrameEnd)
    ensures Sane(s) && Inv(MainStep(s, received))
  {
    hide InOrder, Spaced, ActionOf, WaitOf, Pause;
  }

  lemma StepKeeps(s: Lock, i: Input)
    requires Inv(s)
    ensures Sane(s) && Inv(Next(s, i))
  {
    if i.Tick? { TickKeeps(s); }
    else if s.pc == Acting { ActKeeps(s); }
    else if s.pc == SetWait { SetWaitKeeps(s); }
    else { QuietKeeps(s, i.received); }
  }

  // ---------------------------------------------------------------- every run

  /** A run from power-up: any interleaving of main-loop steps, ticks and received bytes. */
  ghost predicate Run(states: seq<Lock>, inputs: seq<Input>) {
    && |states| == |inputs| + 1 && states[0] == SETUP
    && forall i :: 0 <= i < |inputs| ==> Sane(states[i]) && states[i + 1] == Next(states[i], inputs[i])
  }

  /** The bytes read by the frames that begin among the first `k` inputs. */
  ghost function Heard(states: seq<Lock>, inputs: seq<Input>, k: nat): seq<byte>
    requires k <= |inputs| && |states| == |inputs| + 1
  {
    if k == 0 then []
    else Heard(states, inputs, k - 1)
         + match inputs[k - 1]
           case Main(Some(c)) => if states[k - 1].pc == FrameStart then [c] else []
           case _ => []
  }

  /** How many of them are an 'o' that is read as a command while the lock is idle. */
  ghost function OpensIn(states: seq<Lock>, inputs: seq<Input>, k: nat): nat
    requires k <= |inputs| && |states| == |inputs| + 1
  {
    if k == 0 then 0
    else
      var s := states[k - 1];
      OpensIn(states, inputs, k - 1)
      + if inputs[k - 1] == Main(Some(0x6F)) && s.pc == FrameStart && !s.locking
           && var heard := Heard(states, inputs, k - 1); Command(heard, |heard|) then 1 else 0
  }

  /** Number of timer ticks among the first `k` inputs. */
  function Ticks(inputs: seq<Input>, k: nat): nat
    requires k <= |inputs|
  {
    if k == 0 then 0 else Ticks(inputs, k - 1) + if inputs[k - 1].Tick? then 1 else 0
  }

  lemma {:induction false} InvInEveryRun(states: seq<Lock>, inputs: seq<Input>, k: nat)
    requires Run(states, inputs) && k < |states|
    ensures Inv(states[k])
  {
    if k == 0 {
      SetupHolds();
    } else {
      InvInEveryRun(states, inputs, k - 1);
      StepKeeps(states[k - 1], inputs[k - 1]);
    }
  }

  /** The parser moves on with the bytes frames read, the clock with the ticks. */
  lemma ParserStep(s: Lock, i: Input)
    requires Sane(s)
    ensures Next(s, i).protocol == match i
                                   case Main(Some(c)) =>
                                     if s.pc == FrameStart then Parse(s.protocol, c).0 else s.protocol
                                   case _ => s.protocol
    ensures Next(s, i).clock == s.clock + if i.Tick? then 1 else 0
  {
    hide Parse, ActionOf, WaitOf;
  }

  lemma {:induction false} ParserInRun(states: seq<Lock>, inputs: seq<Input>, k: nat)
    requires Run(states, inputs) && k < |states|
    ensures var heard := Heard(states, inputs, k); states[k].protocol == ProtocolAfter(heard, |heard|)
    ensures states[k].clock == Ticks(inputs, k)
  {
    if k > 0 {
      ParserInRun(states, inputs, k - 1);
      ParserStep(states[k - 1], inputs[k - 1]);
      hide Parse, Next;
      var before, after := Heard(states, inputs, k - 1), Heard(states, inputs, k);
      CommandPrefix(before, after, |before|);
    }
  }

  lemma OpensStep(s: Lock, i: Input)
    requires Sane(s)
    ensures Next(s, i).opens == s.opens + if i == Main(Some(0x6F)) && s.pc == FrameStart && !s.locking
                                             && s.protocol == WaitForCommand then 1 else 0
  {
    hide ActionOf, WaitOf;
  }

  lemma {:induction false} OpensCounted(states: seq<Lock>, inputs: seq<Input>, k: nat)
    requires Run(states, inputs) && k < |states|
    ensures states[k].opens == OpensIn(states, inputs, k)
  {
    if k > 0 {
      OpensCounted(states, inputs, k - 1);
      ParserInRun(states, inputs, k - 1);
      ProtocolExact(Heard(states, inputs, k - 1), |Heard(states, inputs, k - 1)|);
      OpensStep(states[k - 1], inputs[k - 1]);
      hide Command, FirstOperand, SecondOperand, ProtocolAfter, Heard, Next;
    }
  }

  /** At every point of every run: the actions are wake-up, telegram, power-down and power-up over and over,
      with at least 59, 15000, 5000 and 5000 ticks after each, also when the next open command comes during
      the last wait, and the timer is never set to more; the supply is off exactly between power-down and power-up;
      locking means a step from 1 to 4 and idle means step 0; and there are four actions for every 'o' that was read
      as a command while idle, less those of the sequence in progress. */
  lemma SequenceInEveryRun(states: seq<Lock>, inputs: seq<Input>, k: nat)
    requires Run(states, inputs) && k < |states|
    ensures var s := states[k];
            && InOrder(s.trace) && Spaced(s.trace) && s.clock == Ticks(inputs, k)
            && s.wait <= (if |s.trace| == 0 then 0 else Pause(|s.trace| - 1))
            && (s.vcc <==> |s.trace| == 0 || s.trace[|s.trace| - 1].action != PowerDown)
            && (s.pc == FrameStart ==> if s.locking then 1 <= s.step <= 4 else s.step == 0)
            && |s.trace| + Remaining(s) == 4 * OpensIn(states, inputs, k)
            && (s.pc == FrameStart && !s.locking ==> |s.trace| == 4 * OpensIn(states, inputs, k))
  {
    InvInEveryRun(states, inputs, k);
    OpensCounted(states, inputs, k);
    ParserInRun(states, inputs, k);
  }

  // ---------------------------------------------------------------- whole frames

  /** The sequence is at one of its steps whenever it is running. */
  predicate AtFrameStart(s: Lock) {
    s.pc == FrameStart && Shape(s)
  }

  /** What a frame does with the byte it receives. */
  function Received(s: Lock, received: Option<byte>): Lock {
    var t := if received.Some? then s.(protocol := Parse(s.protocol, received.value).0) else s;
    if Opens(s, received) then t.(locking := true, step := 1, opens := s.opens + 1) else t
  }

  /** A step of the sequence: the action, its wait, the next step. */
  function Acted(s: Lock): Lock
    requires 1 <= s.step <= 4
  {
    var a := ActionOf(s.step);
    s.(trace := s.trace + [Event(a, s.clock)],
       vcc := if a == PowerDown then false else if a == PowerUp then true else s.vcc,
       wait := WaitOf(s.step), step := StepAfter(s.step), locking := s.step != 4)
  }

  /** A frame that no interrupt comes between. */
  function Frame(s: Lock, received: Option<byte>): (t: Lock)
    requires AtFrameStart(s)
    ensures AtFrameStart(t)
  {
    var t := Received(s, received);
    if t.locking && t.wait == 0 then Acted(t) else t
  }

  /** Such a frame is a run of main-loop steps. */
  lemma FrameIsSteps(s: Lock, received: Option<byte>)
    requires AtFrameStart(s)
    ensures var s1 := MainStep(s, received);
            Sane(s1) && (s1.pc == FrameStart ==> Frame(s, received) == s1)
            && (s1.pc != FrameStart ==>
                  var s2 := MainStep(s1, None);
                  Sane(s2) && (s2.pc == FrameEnd ==> Frame(s, received) == MainStep(s2, None))
                  && (s2.pc != FrameEnd ==>
                        var s3 := MainStep(s2, None);
                        Sane(s3) && var s4 := MainStep(s3, None); Sane(s4) && Frame(s, received) == MainStep(s4, None)))
  {
  }

  // ---------------------------------------------------------------- back to idle

  predicate Idle(s: Lock) {
    s.pc == FrameStart && !s.locking
  }

  /** Actions from a step to the end of the sequence, and the ticks to wait between them. */
  function Owed(step: nat): nat {
    if step == 1 then 1 + 59 + 1 + 15000 + 1 + 5000 + 1
    else if step == 2 then 1 + 15000 + 1 + 5000 + 1
    else if step == 3 then 1 + 5000 + 1
    else if step == 4 then 1
    else 0
  }

  /** Actions and ticks left. */
  function Left(s: Lock): nat
    requires Shape(s)
  {
    if s.pc == SetWait then Owed(s.step) - 1
    else if s.step == 0 then 0
    else s.wait + Owed(s.step)
  }

  /** The main loop goes round and round until a tick comes. */
  predicate Waiting(s: Lock) {
    s.wait > 0 && s.step > 0 && (s.pc == FrameStart || s.pc == CheckTimer || s.pc == FrameEnd)
  }

  /** Main-loop steps until the next action, until waiting or until idle. */
  function Phase(s: Lock): nat {
    if Waiting(s) then 0
    else match s.pc
      case FrameEnd => if s.step == 0 then 1 else 6
      case SetWait => 2
      case Acting => 3
      case CheckTimer => 4
      case FrameStart => if s.step == 0 then 0 else 5
  }

  function Measure(s: Lock): nat
    requires Shape(s)
  {
    8 * Left(s) + Phase(s)
  }

  /** Until the controller is idle the measure never rises. It falls with a step of the main loop, except
      while waiting, which then goes on, and with a tick while waiting. */
  lemma MeasureFalls(s: Lock, i: Input)
    requires Shape(s) && !Idle(s)
    ensures Sane(s) && Shape(Next(s, i)) && Measure(Next(s, i)) <= Measure(s)
    ensures i.Tick? && Waiting(s) ==> Measure(Next(s, i)) < Measure(s)
    ensures i.Main? && !Waiting(s) ==> Measure(Next(s, i)) < Measure(s)
    ensures i.Main? && Waiting(s) ==> Waiting(Next(s, i))
  {
  }

  ghost predicate Segment(states: seq<Lock>, inputs: seq<Input>) {
    && |states| == |inputs| + 1
    && (forall i :: 0 <= i < |states| ==> Shape(states[i]))
    && forall i :: 0 <= i < |inputs| ==> states[i + 1] == Next(states[i], inputs[i])
  }

  /** How often, from an input on, a tick comes right after a step of the main loop. */
  function Alternations(inputs: seq<Input>, from: nat): nat
    decreases |inputs| - from
  {
    if from + 1 >= |inputs| then 0
    else (if inputs[from].Main? && inputs[from + 1].Tick? then 1 else 0) + Alternations(inputs, from + 1)
  }

  /** From any state, whatever is received and whenever the interrupt comes, the controller gets back to
      idle before more alternations of main loop and timer than its measure. */
  lemma {:induction false} BackToIdle(states: seq<Lock>, inputs: seq<Input>, from: nat)
    requires Segment(states, inputs) && from < |states| && Alternations(inputs, from) > Measure(states[from])
    ensures exists k :: from <= k < |states| && Idle(states[k])
    decreases |inputs| - from
  {
    if Idle(states[from]) || Idle(states[from + 1]) { return; }
    MeasureFalls(states[from], inputs[from]);
    if inputs[from].Main? && inputs[from + 1].Tick? {
      MeasureFalls(states[from + 1], inputs[from + 1]);
      BackToIdle(states, inputs, from + 2);
    } else {
      BackToIdle(states, inputs, from + 1);
    }
  }

  // ---------------------------------------------------------------- the firmware's variables

  class Controller {
    var protocol: Protocol         // p_state
    var cmdTarget: byte
    var leds: bv8                  // led_states
    var isLocking: bool
    var currentStep: nat           // current_locc_step
    var waitTicks: nat             // wait_ticks
    var vcc: bool                  // cylinder supply pin
    var clock: nat                 // ticks so far
    var trace: seq<Event>          // what the lock was made to do
    var opens: nat                 // open commands accepted

    constructor ()
      ensures View() == SETUP && leds == 0x07 && cmdTarget == 0
    {
      protocol, cmdTarget, leds := WaitForNewline, 0, 0x07;
      isLocking, currentStep, waitTicks, vcc := false, 0, 0, true;
      clock, trace, opens := 0, [], 0;
    }

    ghost function View(): Lock
      reads this
    {
      Lock(protocol, isLocking, currentStep, waitTicks, FrameStart, vcc, clock, trace, opens)
    }

    /** handle_user_input */
    method HandleUserInput(c: byte) returns (command: bool)
      requires leds & 0xF8 == 0
      modifies this`protocol, this`cmdTarget, this`leds
      ensures (protocol, command) == Parse(old(protocol), c)
      ensures command <==> old(protocol) == WaitForCommand && c == 0x6F
      ensures leds & 0xF8 == 0
      ensures (cmdTarget, leds) == LedsAfter(old(protocol), old(cmdTarget), old(leds), c)
    {
      hide Keypad.WithLed, Keypad.Lit;
      command := false;
      match protocol {
        case WaitForNewline =>
          if c == NEWLINE || c == RETURN {
            protocol := WaitForCommand;
          }
        case WaitForCommand =>
          if c == OPEN {
            command := true;
            protocol := WaitForNewline;
          } else if c == LED {
            protocol := WaitForLedNumber;
          } else if c != HALT && c != INIT && c != NEWLINE && c != RETURN {
            protocol := WaitForNewline;
          }
        case WaitForLedNumber =>
          cmdTarget := c;
          protocol := WaitForLedValue;
        case WaitForLedValue =>
          Keypad.LedSet(leds, cmdTarget as bv8 - 48, c as bv8 - 48);
          leds := Keypad.WithLed(leds, cmdTarget as bv8 - 48, c as bv8 - 48);
          protocol := WaitForNewline;
      }
    }

    /** do_locc_step, for the steps of the sequence */
    method DoLoccStep()
      requires 1 <= currentStep <= 4
      modifies this`currentStep, this`waitTicks, this`vcc, this`trace
      ensures match old(currentStep)
              case 1 => currentStep == 2 && waitTicks == 59 && trace == old(trace) + [Event(Wakeup, clock)]
              case 2 => currentStep == 3 && waitTicks == 15000 && trace == old(trace) + [Event(Telegram, clock)]
              case 3 => currentStep == 4 && waitTicks == 5000 && trace == old(trace) + [Event(PowerDown, clock)]
              case _ => currentStep == 0 && waitTicks == 5000 && trace == old(trace) + [Event(PowerUp, clock)]
      ensures vcc == match old(currentStep) case 3 => false case 4 => true case _ => old(vcc)
    {
      match currentStep {
        case 1 =>
          trace := trace + [Event(Wakeup, clock)];
          currentStep := 2;
          waitTicks := 59;
        case 2 =>
          trace := trace + [Event(Telegram, clock)];
          waitTicks := 15000;
          currentStep := 3;
        case 3 =>
          trace, vcc := trace + [Event(PowerDown, clock)], false;
          waitTicks := 5000;
          currentStep := 4;
        case _ =>
          trace, vcc := trace + [Event(PowerUp, clock)], true;
          waitTicks := 5000;
          currentStep := 0;
      }
    }

    /** The timer interrupt */
    method TimerInterrupt()
      modifies this`waitTicks, this`clock
      ensures View() == TimerTick(old(View()))
    {
      if waitTicks > 0 {
        waitTicks := waitTicks - 1;
      }
      clock := clock + 1;
    }

    /** loop, with no interrupt in between: exactly the steps of a frame. */
    method Loop(received: Option<byte>)
      requires AtFrameStart(View()) && leds & 0xF8 == 0
      modifies this
      ensures View() == Frame(old(View()), received) && leds & 0xF8 == 0
      ensures (cmdTarget, leds) == match received
                                   case Some(c) => LedsAfter(old(protocol), old(cmdTarget), old(leds), c)
                                   case None => (old(cmdTarget), old(leds))
    {
      hide LedsAfter, Parse;
      var command := false;
      if received.Some? {
        command := HandleUserInput(received.value);
      }
      if !isLocking && command {
        isLocking := true;
        currentStep := 1;
        opens := opens + 1;
      }
      if isLocking {
        if waitTicks == 0 {
          DoLoccStep();
        }
        isLocking := currentStep > 0;
      }
    }
  }
}
