/** Bytes, 16-bit words and packet streams, as the firmware and its host see them. */
module Bytes {

  type byte = x: int | 0 <= x < 0x100
  type word = x: int | 0 <= x < 0x1_0000

  /** The value an erased flash byte reads as. */
  const ERASED: byte := 0xFF

  datatype Option<+T> = None | Some(value: T)

  function Min(a: int, b: int): int {
    if a <= b then a else b
  }

  /** The word whose low byte comes first on the wire. */
  function Word(lo: int, hi: int): (w: int)
    ensures 0 <= lo < 256 && 0 <= hi < 256 ==> 0 <= w < 0x1_0000
  {
    lo + 256 * hi
  }

  lemma WordBytes(lo: byte, hi: byte)
    ensures Word(lo, hi) % 256 == lo && Word(lo, hi) / 256 == hi
  {
  }

  /** Bitwise AND of two bytes: programming can only clear flash bits. */
  function And(a: byte, b: byte): byte {
    ((a as bv8) & (b as bv8)) as int
  }

  lemma AndErased(b: byte)
    ensures And(ERASED, b) == b
  {
    assert (0xFF as bv8) & (b as bv8) == b as bv8;
  }

  /** `mem` with `bytes` written over it from address `at` on. */
  function Overlay(mem: seq<byte>, at: nat, bytes: seq<byte>): (r: seq<byte>)
    requires at + |bytes| <= |mem|
    ensures |r| == |mem|
    ensures r[at..at + |bytes|] == bytes
    ensures forall a :: 0 <= a < |mem| ==> r[a] == if at <= a < at + |bytes| then bytes[a - at] else mem[a]
  {
    mem[..at] + bytes + mem[at + |bytes|..]
  }

  lemma OverlaySnoc(mem: seq<byte>, at: nat, bytes: seq<byte>, b: byte)
    requires at + |bytes| < |mem|
    ensures Overlay(mem, at, bytes + [b]) == Overlay(mem, at, bytes)[at + |bytes| := b]
  {
  }

  /** All the bytes carried by a list of packets. */
  function Flatten(packets: seq<seq<byte>>): seq<byte> {
    if packets == [] then []
    else Flatten(packets[..|packets| - 1]) + packets[|packets| - 1]
  }

  lemma FlattenSnoc(packets: seq<seq<byte>>, p: seq<byte>)
    ensures Flatten(packets + [p]) == Flatten(packets) + p
  {
    assert (packets + [p])[..|packets|] == packets;
  }

  lemma {:induction false} FlattenCons(packets: seq<seq<byte>>)
    requires packets != []
    ensures Flatten(packets) == packets[0] + Flatten(packets[1..])
  {
    if |packets| > 1 {
      var init := packets[..|packets| - 1];
      FlattenCons(init);
      assert init[1..] == packets[1..][..|packets| - 2];
    }
  }

  lemma SliceSnoc(s: seq<byte>, a: nat, b: nat)
    requires a <= b < |s|
    ensures s[a..b] + [s[b]] == s[a..b + 1]
  {
  }

  lemma DropWord(s: seq<byte>, k: nat)
    requires k + 2 <= |s|
    ensures s[k..][0] == s[k] && s[k..][1] == s[k + 1] && s[k..][2..] == s[k + 2..]
  {
  }
}
