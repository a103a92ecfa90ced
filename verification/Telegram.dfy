/**
 The telegram to the lock cylinder: bytes sent most significant bit first on a single wire, each bit as two
 half-bits of opposite level, a one high first and a zero low first.
 */
module Telegram {
  import opened Bytes

  /** Arithmetic shift to the right. */
  function Shifted(x: int, i: nat): int {
    if i == 0 then x else Shifted(x, i - 1) / 2
  }

  /** The low byte of an entry, most significant bit first. */
  function ByteBits(x: int): (r: seq<bool>)
    ensures |r| == 8
  {
    seq(8, k requires 0 <= k < 8 => Shifted(x, 7 - k) % 2 == 1)
  }

  /** All entries. */
  function AllBits(xs: seq<int>): (r: seq<bool>)
    ensures |r| == 8 * |xs|
  {
    if xs == [] then [] else AllBits(xs[..|xs| - 1]) + ByteBits(xs[|xs| - 1])
  }

  /** Two levels for every bit. */
  function Levels(bits: seq<bool>): (r: seq<bool>)
    ensures |r| == 2 * |bits|
  {
    if bits == [] then [] else Levels(bits[..|bits| - 1]) + [bits[|bits| - 1], !bits[|bits| - 1]]
  }

  function Encode(xs: seq<int>): seq<bool> {
    Levels(AllBits(xs))
  }

  lemma LevelsSnoc(bits: seq<bool>, n: nat)
    requires n < |bits|
    ensures Levels(bits[..n + 1]) == Levels(bits[..n]) + [bits[n], !bits[n]]
  {
    assert bits[..n + 1][..n] == bits[..n];
  }

  lemma {:induction false} LevelsConcat(a: seq<bool>, b: seq<bool>)
    ensures Levels(a + b) == Levels(a) + Levels(b)
  {
    if b == [] {
      assert a + b == a;
    } else {
      var n := |b| - 1;
      LevelsConcat(a, b[..n]);
      assert (a + b)[..|a| + n] == a + b[..n];
    }
  }

  lemma EncodeSnoc(xs: seq<int>, j: nat)
    requires j < |xs|
    ensures Encode(xs[..j + 1]) == Encode(xs[..j]) + Levels(ByteBits(xs[j]))
  {
    assert xs[..j + 1][..j] == xs[..j];
    LevelsConcat(AllBits(xs[..j]), ByteBits(xs[j]));
  }

  class Cylinder {
    var high: bool           // level of the I/O pin
    var levels: seq<bool>    // its level in each half-bit delay

    /** systemDelay10us: a half-bit at the present level. */
    method Delay()
      modifies this`levels
      ensures levels == old(levels) + [high]
    {
      levels := levels + [high];
    }

    /** The bit loop for one entry. */
    method SendEntry(x: int)
      modifies this
      ensures levels == old(levels) + Levels(ByteBits(x))
    {
      ghost var bits := ByteBits(x);
      for i := 8 downto 0
        invariant levels == old(levels) + Levels(bits[..8 - i])
      {
        if Shifted(x, i) % 2 == 1 {
          high := true;
          Delay();
          high := false;
          Delay();
        } else {
          high := false;
          Delay();
          high := true;
          Delay();
        }
        LevelsSnoc(bits, 7 - i);
      }
      assert bits[..8] == bits;
    }

    /** sendCylinderTelegram, whose loop sends one entry more than `length`. */
    method SendTelegram(telegram: array<int>, length: int)
      requires length < telegram.Length
      modifies this
      ensures length < 0 ==> levels == old(levels)
      ensures length >= 0 ==> levels == old(levels) + Encode(telegram[..length + 1])
                              && |levels| == |old(levels)| + 16 * (length + 1)
      ensures high
    {
      ghost var xs := telegram[..];
      var j := 0;
      while j <= length
        invariant if length < 0 then j == 0 else 0 <= j <= length + 1
        invariant levels == old(levels) + Encode(xs[..j])
      {
        SendEntry(telegram[j]);
        EncodeSnoc(xs, j);
        j := j + 1;
      }
      assert xs[..j] == telegram[..j];
      high := true;
    }
  }

  // ---------------------------------------------------------------- reading a telegram

  /** The bits of a telegram, if every pair of half-bits is a bit. */
  function Bits(levels: seq<bool>): Option<seq<bool>> {
    var n := |levels|;
    if n == 0 then Some([])
    else if n == 1 || levels[n - 2] == levels[n - 1] then None
    else
      var rest := Bits(levels[..n - 2]);
      if rest.None? then None else Some(rest.value + [levels[n - 2]])
  }

  /** The number its bits write, most significant first. */
  function Number(bits: seq<bool>): nat {
    if bits == [] then 0 else 2 * Number(bits[..|bits| - 1]) + if bits[|bits| - 1] then 1 else 0
  }

  /** The numbers of a string of bytes. */
  function Numbers(bits: seq<bool>): Option<seq<nat>> {
    var n := |bits|;
    if n == 0 then Some([])
    else if n < 8 then None
    else
      var rest := Numbers(bits[..n - 8]);
      if rest.None? then None else Some(rest.value + [Number(bits[n - 8..])])
  }

  function Decode(levels: seq<bool>): Option<seq<nat>> {
    var bits := Bits(levels);
    if bits.None? then None else Numbers(bits.value)
  }

  // ---------------------------------------------------------------- the round trip

  lemma {:induction false} LevelsRead(bits: seq<bool>)
    ensures Bits(Levels(bits)) == Some(bits)
  {
    if bits != [] {
      var n := |bits| - 1;
      var front := Levels(bits[..n]);
      LevelsRead(bits[..n]);
      var levels := Levels(bits);
      assert levels == front + [bits[n], !bits[n]];
      hide Levels;
      assert levels[..2 * n] == front && levels[2 * n] == bits[n] && levels[2 * n + 1] != bits[n];
      assert bits == bits[..n] + [bits[n]];
    }
  }

  function Power(k: nat): nat {
    if k == 0 then 1 else 2 * Power(k - 1)
  }

  lemma Double(p: nat, s: int)
    ensures 2 * (p * s) == (2 * p) * s
  {
  }

  /** The first `n` bits write the entry shifted to them, less a multiple of their range. */
  lemma {:induction false} PrefixValue(x: int, n: nat)
    requires n <= 8
    ensures Shifted(x, 8 - n) == Power(n) * Shifted(x, 8) + Number(ByteBits(x)[..n])
    ensures Number(ByteBits(x)[..n]) < Power(n)
  {
    if n > 0 {
      PrefixValue(x, n - 1);
      var bits := ByteBits(x);
      assert bits[..n][..n - 1] == bits[..n - 1];
      assert bits[n - 1] <==> Shifted(x, 8 - n) % 2 == 1;
      assert Shifted(x, 9 - n) == Shifted(x, 8 - n) / 2;
      Double(Power(n - 1), Shifted(x, 8));
    }
  }

  lemma ByteValue(x: int)
    ensures Number(ByteBits(x)) == x % 256
  {
    assert Power(8) == 256 && Shifted(x, 0) == x;
    hide Shifted, ByteBits, Number, Power;
    PrefixValue(x, 8);
    assert ByteBits(x)[..8] == ByteBits(x);
  }

  function LowBytes(xs: seq<int>): seq<nat> {
    seq(|xs|, i requires 0 <= i < |xs| => xs[i] % 256)
  }

  lemma {:induction false} NumbersOfBits(xs: seq<int>)
    ensures Numbers(AllBits(xs)) == Some(LowBytes(xs))
  {
    if xs == [] {
      assert LowBytes(xs) == [];
    } else {
      var n := |xs| - 1;
      NumbersOfBits(xs[..n]);
      ByteValue(xs[n]);
      assert AllBits(xs)[..8 * n] == AllBits(xs[..n]) && AllBits(xs)[8 * n..] == ByteBits(xs[n]);
      assert LowBytes(xs) == LowBytes(xs[..n]) + [xs[n] % 256];
    }
  }

  /** Reading the levels of any telegram gives the low byte of every entry sent. */
  lemma RoundTrip(xs: seq<int>)
    ensures Decode(Encode(xs)) == Some(LowBytes(xs))
  {
    LevelsRead(AllBits(xs));
    NumbersOfBits(xs);
  }

  // ---------------------------------------------------------------- the clock in the signal

  lemma {:induction false} LevelsAlternate(bits: seq<bool>, k: nat)
    requires k < |bits|
    ensures Levels(bits)[2 * k] != Levels(bits)[2 * k + 1]
  {
    if k < |bits| - 1 { LevelsAlternate(bits[..|bits| - 1], k); }
  }

  /** Inside a telegram no level lasts more than two half-bits, so the receiver can follow its clock. */
  lemma ClockRecoverable(xs: seq<int>, k: nat)
    requires k + 2 < |Encode(xs)|
    ensures !(Encode(xs)[k] == Encode(xs)[k + 1] == Encode(xs)[k + 2])
  {
    var m := (k + 1) / 2;
    assert k == 2 * m || k + 1 == 2 * m;
    LevelsAlternate(AllBits(xs), m);
  }
}
