/**
 The debouncing counter that dial and keypad scanning share. On a rising input it fires and is set to
 its lockout; while it counts down to 1 the input is ignored; it is armed again by a low input.
 */
module Debounce {

  /** One scan: the new counter, and whether the counter fired. */
  function Tick(lockout: nat, counter: nat, high: bool): (nat, bool) {
    if counter <= 1 then
      if high then (if counter == 0 then (lockout, true) else (counter, false)) else (0, false)
    else (counter - 1, false)
  }

  /** The counter before scan `t` of an input. */
  function Counter(lockout: nat, input: seq<bool>, t: nat): nat
    requires t <= |input|
  {
    if t == 0 then 0 else Tick(lockout, Counter(lockout, input, t - 1), input[t - 1]).0
  }

  predicate Fires(lockout: nat, input: seq<bool>, t: nat)
    requires t < |input|
  {
    Tick(lockout, Counter(lockout, input, t), input[t]).1
  }

  predicate Rises(input: seq<bool>, t: nat)
    requires t < |input|
  {
    input[t] && (t == 0 || !input[t - 1])
  }

  /** What the counter is meant to detect: a rising input with no pulse within the lockout before it. */
  predicate Pulse(lockout: nat, input: seq<bool>, t: nat)
    requires t < |input|
    decreases t
  {
    Rises(input, t) && forall u: nat :: u < t <= u + lockout ==> !Pulse(lockout, input, u)
  }

  /** The counter tells how long ago the last pulse was; once it is at most 1 the lockout is over, and at 0
      the input was low in the scan before. */
  ghost predicate Tracks(lockout: nat, input: seq<bool>, t: nat)
    requires t <= |input|
  {
    var c := Counter(lockout, input, t);
    && c <= lockout
    && (c >= 1 ==> (c > 1 || !(t > 0 && input[t - 1])) ==>
          var e := t - 1 - (lockout - c); 0 <= e && Pulse(lockout, input, e))
    && (c > 1 ==> forall u :: t - 1 - (lockout - c) < u < t ==> !Pulse(lockout, input, u))
    && (c <= 1 ==> forall u :: 0 <= u < t < u + lockout ==> !Pulse(lockout, input, u))
    && (c == 0 ==> (t == 0 || !input[t - 1]) && forall u :: 0 <= u < t <= u + lockout ==> !Pulse(lockout, input, u))
  }

  /** Every scan of every input: the counter fires exactly on the pulses. */
  lemma {:induction false} FiresOnPulses(lockout: nat, input: seq<bool>, t: nat)
    requires lockout >= 2 && t <= |input|
    ensures Tracks(lockout, input, t)
    ensures t < |input| ==> (Fires(lockout, input, t) <==> Pulse(lockout, input, t))
  {
    if t > 0 { FiresOnPulses(lockout, input, t - 1); }
  }

  /** Two pulses are more than a lockout apart, and the input is low somewhere between them. */
  lemma PulsesApart(lockout: nat, input: seq<bool>, t: nat, u: nat)
    requires t < u < |input| && Pulse(lockout, input, t) && Pulse(lockout, input, u)
    ensures u - t > lockout && !input[u - 1]
  {
  }

  /** That distance is reached. */
  lemma PulsesCanBeThatClose(lockout: nat) returns (input: seq<bool>)
    requires lockout >= 2
    ensures |input| == lockout + 2 && Fires(lockout, input, 0) && Fires(lockout, input, lockout + 1)
  {
    input := seq(lockout + 2, i => i != lockout);
    FiresOnPulses(lockout, input, 0);
    FiresOnPulses(lockout, input, lockout + 1);
    forall u: nat | 0 < u <= lockout ensures !Pulse(lockout, input, u) {
      if u < lockout { assert input[u - 1]; } else { assert !input[u]; }
    }
    assert Rises(input, lockout + 1);
  }

  /** An input that bounces only within the lockout after its real edges: the pulses are the real edges. */
  lemma {:induction false} BounceIgnored(lockout: nat, input: seq<bool>, edges: set<nat>, t: nat)
    requires t < |input|
    requires forall e :: e in edges ==> e < |input| && Rises(input, e)
    requires forall e, f :: e in edges && f in edges && e < f ==> f - e > lockout
    requires forall u: nat :: u < |input| && Rises(input, u) && u !in edges ==>
               exists e :: e in edges && e < u <= e + lockout
    ensures Pulse(lockout, input, t) <==> t in edges
    decreases t
  {
    forall u: nat | u < t ensures Pulse(lockout, input, u) <==> u in edges {
      BounceIgnored(lockout, input, edges, u);
    }
  }

  /** Which scans are pulses. */
  function PulseTrain(lockout: nat, input: seq<bool>): (r: seq<bool>)
    ensures |r| == |input|
    ensures forall t :: 0 <= t < |r| ==> r[t] == Pulse(lockout, input, t)
  {
    seq(|input|, t requires 0 <= t < |input| => Pulse(lockout, input, t))
  }
}
