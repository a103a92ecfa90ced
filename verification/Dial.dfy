/**
 The rotary dial: impulses are counted while the dial returns, the count becomes a digit, and the hook
 is reported when it changes. All three inputs are debounced by counters.
 */
module Dial {
  import opened Debounce

  const IMPULSE_LOCKOUT := 0x40
  const DIAL_LOCKOUT := 0x80
  const HOOK_LOCKOUT := 0xFF

  /** The three input pins in one scan. */
  datatype Pins = Pins(impulse: bool, dial: bool, hook: bool)

  /** The static variables of dial_scan. */
  datatype State = State(counter: nat, impulse: nat, dial: nat, hook: nat)

  const START := State(0, 0, 0, 0)

  /** The hook counter reports both edges; at 2 the lockout is over and the level is taken over silently. */
  function HookScan(hook: nat, high: bool): (nat, bool) {
    if hook > 2 then (hook - 1, false)
    else if high then (if hook == 0 then (HOOK_LOCKOUT, true) else (1, false))
    else (if hook == 1 then (HOOK_LOCKOUT, true) else (0, false))
  }

  /** '0' stands for ten impulses, and for any number the counter holds above that. */
  function Digit(count: nat): char
  {
    if count >= 10 then '0' else ('0' as int + count) as char
  }

  /** dial_scan: the new state and the reported character, '\0' for none. */
  function Scan(s: State, p: Pins): (State, char) {
    var (impulse, counted) := Tick(IMPULSE_LOCKOUT, s.impulse, p.impulse);
    var count := if counted then (s.counter + 1) % 256 else s.counter;
    var (dial, dialled) := Tick(DIAL_LOCKOUT, s.dial, p.dial);
    var (hook, changed) := HookScan(s.hook, p.hook);
    (State(if dialled then 0 else count, impulse, dial, hook),
     if changed then (if p.hook then 'H' else 'h') else if dialled then Digit(count) else '\0')
  }

  class Scanner {
    var dialCounter: nat
    var stateImpulse: nat
    var stateDialing: nat
    var stateHangup: nat

    constructor ()
      ensures View() == START
    {
      dialCounter, stateImpulse, stateDialing, stateHangup := 0, 0, 0, 0;
    }

    ghost function View(): State
      reads this
    {
      State(dialCounter, stateImpulse, stateDialing, stateHangup)
    }

    /** dial_scan */
    method DialScan(pins: Pins) returns (rv: char)
      modifies this
      ensures (View(), rv) == Scan(old(View()), pins)
    {
      rv := '\0';
      if stateImpulse <= 1 {
        if pins.impulse {
          if stateImpulse == 0 {
            stateImpulse := 0x40;
            dialCounter := (dialCounter + 1) % 256;
          }
        } else {
          stateImpulse := 0;
        }
      } else {
        stateImpulse := stateImpulse - 1;
      }
      if stateDialing <= 1 {
        if pins.dial {
          if stateDialing == 0 {
            stateDialing := 0x80;
            if dialCounter >= 10 {
              dialCounter := 0;
            }
            rv := ('0' as int + dialCounter) as char;
            dialCounter := 0;
          }
        } else {
          stateDialing := 0;
        }
      } else {
        stateDialing := stateDialing - 1;
      }
      if stateHangup <= 2 {
        if pins.hook {
          if stateHangup == 0 {
            stateHangup := 0xFF;
            rv := 'H';
          } else {
            stateHangup := 1;
          }
        } else {
          if stateHangup == 1 {
            stateHangup := 0xFF;
            rv := 'h';
          } else {
            stateHangup := 0;
          }
        }
      } else {
        stateHangup := stateHangup - 1;
      }
    }
  }

  // ---------------------------------------------------------------- whole traces

  /** The state before scan `t`. */
  function StateAt(trace: seq<Pins>, t: nat): State
    requires t <= |trace|
  {
    if t == 0 then START else Scan(StateAt(trace, t - 1), trace[t - 1]).0
  }

  function Reported(trace: seq<Pins>, t: nat): char
    requires t < |trace|
  {
    Scan(StateAt(trace, t), trace[t]).1
  }

  function Impulse(trace: seq<Pins>): (r: seq<bool>)
    ensures |r| == |trace| && forall i :: 0 <= i < |r| ==> r[i] == trace[i].impulse
  {
    seq(|trace|, i requires 0 <= i < |trace| => trace[i].impulse)
  }

  function Dialling(trace: seq<Pins>): (r: seq<bool>)
    ensures |r| == |trace| && forall i :: 0 <= i < |r| ==> r[i] == trace[i].dial
  {
    seq(|trace|, i requires 0 <= i < |trace| => trace[i].dial)
  }

  function Level(trace: seq<Pins>, t: int): bool
    requires t < |trace|
  {
    t >= 0 && trace[t].hook
  }

  /** What the hook counter is meant to report: a change with none reported in the 254 scans before it. */
  predicate HookChange(trace: seq<Pins>, t: nat)
    requires t < |trace|
    decreases t
  {
    Level(trace, t) != Level(trace, t - 1) && forall u: nat :: u < t < u + 255 ==> !HookChange(trace, u)
  }

  ghost predicate HookTracks(trace: seq<Pins>, t: nat)
    requires t <= |trace|
  {
    var c := StateAt(trace, t).hook;
    && c <= HOOK_LOCKOUT
    && (c >= 2 ==>
          var e := t - 1 - (HOOK_LOCKOUT - c);
          0 <= e && HookChange(trace, e) && forall u :: e < u < t ==> !HookChange(trace, u))
    && (c < 2 ==> c == (if Level(trace, t - 1) then 1 else 0)
                  && forall u :: 0 <= u < t < u + HOOK_LOCKOUT ==> !HookChange(trace, u))
  }

  /** In every trace the hook is reported exactly on those changes. */
  lemma {:induction false} HookReported(trace: seq<Pins>, t: nat)
    requires t <= |trace|
    ensures HookTracks(trace, t)
    ensures t < |trace| ==> HookScan(StateAt(trace, t).hook, trace[t].hook).1 == HookChange(trace, t)
  {
    if t > 0 { HookReported(trace, t - 1); }
  }

  /** The pulses among scans `a` to `b`. */
  function Pulses(train: seq<bool>, a: nat, b: nat): set<nat>
    requires b <= |train|
  {
    set u: nat | a <= u < b && train[u]
  }

  /** The scan after the last pulse before scan `t`. */
  function Since(train: seq<bool>, t: nat): (e: nat)
    requires t <= |train|
    ensures e <= t
    ensures e > 0 ==> train[e - 1]
    ensures forall u: nat :: e <= u < t ==> !train[u]
  {
    if t == 0 then 0 else if train[t - 1] then t else Since(train, t - 1)
  }

  lemma PulsesExtend(train: seq<bool>, a: nat, b: nat)
    requires a <= b < |train|
    ensures |Pulses(train, a, b + 1)| == |Pulses(train, a, b)| + if train[b] then 1 else 0
  {
    var s, s' := Pulses(train, a, b), Pulses(train, a, b + 1);
    if train[b] { assert s' == s + {b}; } else { assert s' == s; }
  }

  function ImpulseTrain(trace: seq<Pins>): (r: seq<bool>)
    ensures |r| == |trace|
  {
    PulseTrain(64, Impulse(trace))
  }

  function DialTrain(trace: seq<Pins>): (r: seq<bool>)
    ensures |r| == |trace|
  {
    PulseTrain(128, Dialling(trace))
  }

  /** The counters of the scanner run independently of each other. */
  lemma {:induction false} CountersIndependent(trace: seq<Pins>, t: nat)
    requires t <= |trace|
    ensures StateAt(trace, t).impulse == Counter(IMPULSE_LOCKOUT, Impulse(trace), t)
    ensures StateAt(trace, t).dial == Counter(DIAL_LOCKOUT, Dialling(trace), t)
  {
    if t > 0 { CountersIndependent(trace, t - 1); }
  }

  /** In every scan the impulse and dial counters fire on the pulses of their lines. */
  lemma CountersFire(trace: seq<Pins>, t: nat)
    requires t < |trace|
    ensures Tick(IMPULSE_LOCKOUT, StateAt(trace, t).impulse, trace[t].impulse).1 == ImpulseTrain(trace)[t]
    ensures Tick(DIAL_LOCKOUT, StateAt(trace, t).dial, trace[t].dial).1 == DialTrain(trace)[t]
  {
    CountersIndependent(trace, t);
    FiresOnPulses(IMPULSE_LOCKOUT, Impulse(trace), t);
    FiresOnPulses(DIAL_LOCKOUT, Dialling(trace), t);
  }

  /** A counter modulo 256 that counts `impulses` and is reset by `digits`, before scan `t`. */
  function CountAt(impulses: seq<bool>, digits: seq<bool>, t: nat): nat
    requires t <= |impulses| && t <= |digits|
  {
    if t == 0 || digits[t - 1] then 0
    else if impulses[t - 1] then (CountAt(impulses, digits, t - 1) + 1) % 256
    else CountAt(impulses, digits, t - 1)
  }

  lemma Increment(n: nat)
    ensures (n % 256 + 1) % 256 == (n + 1) % 256
  {
  }

  /** Such a counter holds the number of impulses since the last digit. */
  lemma {:induction false} CountIs(impulses: seq<bool>, digits: seq<bool>, t: nat)
    requires t <= |impulses| && t <= |digits|
    ensures CountAt(impulses, digits, t) == |Pulses(impulses, Since(digits, t), t)| % 256
  {
    if t == 0 || digits[t - 1] {
      assert Pulses(impulses, t, t) == {};
    } else {
      hide Pulses;
      CountIs(impulses, digits, t - 1);
      PulsesExtend(impulses, Since(digits, t - 1), t - 1);
      Increment(|Pulses(impulses, Since(digits, t - 1), t - 1)|);
    }
  }

  lemma {:induction false} CounterCounts(trace: seq<Pins>, t: nat)
    requires t <= |trace|
    ensures StateAt(trace, t).counter == CountAt(ImpulseTrain(trace), DialTrain(trace), t)
  {
    hide Tick, HookScan, ImpulseTrain, DialTrain;
    if t > 0 {
      CounterCounts(trace, t - 1);
      CountersFire(trace, t - 1);
    }
  }

  /** The count a scan turns into a digit, its own impulse included. */
  lemma DigitCount(impulses: seq<bool>, digits: seq<bool>, t: nat)
    requires t < |impulses| == |digits|
    ensures (if impulses[t] then (CountAt(impulses, digits, t) + 1) % 256 else CountAt(impulses, digits, t))
            == |Pulses(impulses, Since(digits, t), t + 1)| % 256
  {
    var n := |Pulses(impulses, Since(digits, t), t)|;
    assert CountAt(impulses, digits, t) == n % 256 by { CountIs(impulses, digits, t); }
    PulsesExtend(impulses, Since(digits, t), t);
    Increment(n);
  }

  /** The character for a number of impulses: '0' for none, for ten, and for more. */
  function Dialled(n: nat): char {
    if n % 256 < 10 then "0123456789"[n % 256] else '0'
  }

  lemma DigitIs(n: nat)
    ensures Digit(n % 256) == Dialled(n)
  {
    var k := n % 256;
    assert k < 10 ==> "0123456789"[k] == ('0' as int + k) as char;
  }

  /** One scan's report, by what its three counters do. */
  lemma ScanReports(s: State, p: Pins, impulses: seq<bool>, digits: seq<bool>, changed: bool, t: nat)
    requires t < |impulses| == |digits|
    requires Tick(IMPULSE_LOCKOUT, s.impulse, p.impulse).1 == impulses[t]
    requires Tick(DIAL_LOCKOUT, s.dial, p.dial).1 == digits[t]
    requires HookScan(s.hook, p.hook).1 == changed
    requires s.counter == CountAt(impulses, digits, t)
    ensures Scan(s, p).1 ==
              if changed then (if p.hook then 'H' else 'h')
              else if digits[t] then Dialled(|Pulses(impulses, Since(digits, t), t + 1)|)
              else '\0'
  {
    DigitCount(impulses, digits, t);
    DigitIs(|Pulses(impulses, Since(digits, t), t + 1)|);
    hide Digit, Dialled, Pulses;
  }

  /** What every scan of every trace reports: a hook change, or else, on a pulse of the dial contact, the
      number of impulses since the last digit, or else nothing. */
  lemma ReportExact(trace: seq<Pins>, t: nat)
    requires t < |trace|
    ensures Reported(trace, t) ==
              if HookChange(trace, t) then (if trace[t].hook then 'H' else 'h')
              else if DialTrain(trace)[t] then
                Dialled(|Pulses(ImpulseTrain(trace), Since(DialTrain(trace), t), t + 1)|)
              else '\0'
  {
    HookReported(trace, t);
    CountersFire(trace, t);
    CounterCounts(trace, t);
    ScanReports(StateAt(trace, t), trace[t], ImpulseTrain(trace), DialTrain(trace), HookChange(trace, t), t);
  }

  /** Spacing in every trace: counted impulses are at least 65 scans apart, digits at least 129, hook reports
      at least 255. */
  lemma Spacing(trace: seq<Pins>, t: nat, u: nat)
    requires t < u < |trace|
    ensures ImpulseTrain(trace)[t] && ImpulseTrain(trace)[u] ==> u - t >= 65
    ensures DialTrain(trace)[t] && DialTrain(trace)[u] ==> u - t >= 129
    ensures HookChange(trace, t) && HookChange(trace, u) ==> u - t >= 255
  {
    if ImpulseTrain(trace)[t] && ImpulseTrain(trace)[u] { PulsesApart(IMPULSE_LOCKOUT, Impulse(trace), t, u); }
    if DialTrain(trace)[t] && DialTrain(trace)[u] { PulsesApart(DIAL_LOCKOUT, Dialling(trace), t, u); }
  }

  /** A dial whose impulse contact bounces only within the lockout after each of its real impulses: the
      digit is the number of real impulses since the last digit. */
  lemma RealImpulsesCounted(trace: seq<Pins>, edges: set<nat>, t: nat)
    requires t < |trace| && DialTrain(trace)[t] && !HookChange(trace, t)
    requires forall e :: e in edges ==> e < |trace| && Rises(Impulse(trace), e)
    requires forall e, f :: e in edges && f in edges && e < f ==> f - e > 64
    requires forall u: nat :: u < |trace| && Rises(Impulse(trace), u) && u !in edges ==>
               exists e :: e in edges && e < u <= e + 64
    ensures Reported(trace, t) == Dialled(|set e | e in edges && Since(DialTrain(trace), t) <= e <= t|)
  {
    ReportExact(trace, t);
    var since := Since(DialTrain(trace), t);
    forall u: nat | u < |trace| ensures ImpulseTrain(trace)[u] <==> u in edges {
      BounceIgnored(IMPULSE_LOCKOUT, Impulse(trace), edges, u);
    }
    assert Pulses(ImpulseTrain(trace), since, t + 1) == set e | e in edges && since <= e <= t;
  }
}
