/** The byte ring buffer, used by one thread at a time: a queue in a fixed array. */
module RingBuffer {
  import opened Bytes

  /** Position `i` slots into the storage, going round at its end; `i` is less than two rounds. */
  function Wrap(i: nat, size: nat): nat {
    if i >= size then i - size else i
  }

  /** `n` bytes from position `out` on. */
  function Window(slots: seq<byte>, out: nat, n: nat): (s: seq<byte>)
    requires out < |slots| && n <= |slots|
    ensures |s| == n
    ensures forall j :: 0 <= j < n ==> s[j] == slots[Wrap(out + j, |slots|)]
  {
    seq(n, j requires 0 <= j < n => slots[Wrap(out + j, |slots|)])
  }

  /** A byte stored behind the window makes it longer. */
  lemma WindowAppend(slots: seq<byte>, out: nat, n: nat, pos: nat, data: byte)
    requires out < |slots| && n < |slots| && pos == Wrap(out + n, |slots|)
    ensures Window(slots[pos := data], out, n + 1) == Window(slots, out, n) + [data]
  {
  }

  /** The window without its first byte starts one slot further on. */
  lemma WindowTail(slots: seq<byte>, out: nat, n: nat)
    requires out < |slots| && 0 < n <= |slots|
    ensures slots[out] == Window(slots, out, n)[0]
    ensures Window(slots, Wrap(out + 1, |slots|), n - 1) == Window(slots, out, n)[1..]
  {
  }

  class Buffer {
    const storage: array<byte>
    var inPos: nat
    var outPos: nat
    var count: nat

    /** RingBuffer_InitBuffer */
    constructor (storage: array<byte>)
      requires 0 < storage.Length < 0x1_0000
      ensures Valid() && Contents() == [] && this.storage == storage
    {
      this.storage := storage;
      inPos, outPos, count := 0, 0, 0;
    }

    ghost predicate Valid()
      reads this
    {
      && 0 < storage.Length < 0x1_0000
      && outPos < storage.Length && count <= storage.Length
      && inPos == Wrap(outPos + count, storage.Length)
    }

    /** The stored bytes, oldest first. */
    ghost function Contents(): (s: seq<byte>)
      requires Valid()
      reads this, storage
      ensures |s| == count
    {
      Window(storage[..], outPos, count)
    }

    /** RingBuffer_GetCount */
    method GetCount() returns (n: nat)
      requires Valid()
      ensures n == |Contents()|
    {
      n := count;
    }

    /** RingBuffer_IsFull */
    method IsFull() returns (full: bool)
      requires Valid()
      ensures full <==> |Contents()| == storage.Length
    {
      var n := GetCount();
      full := n == storage.Length;
    }

    /** RingBuffer_IsEmpty */
    method IsEmpty() returns (empty: bool)
      requires Valid()
      ensures empty <==> Contents() == []
    {
      var n := GetCount();
      empty := n == 0;
    }

    /** RingBuffer_Insert; the caller has made sure that there is room. */
    method Insert(data: byte)
      requires Valid() && |Contents()| < storage.Length
      modifies this`inPos, this`count, storage
      ensures Valid() && Contents() == old(Contents()) + [data]
    {
      storage[inPos] := data;
      inPos := inPos + 1;
      if inPos == storage.Length {
        inPos := 0;
      }
      count := count + 1;
    }

    /** RingBuffer_Remove; the caller has made sure that there is something to remove. */
    method Remove() returns (data: byte)
      requires Valid() && Contents() != []
      modifies this`outPos, this`count
      ensures Valid() && data == old(Contents())[0] && Contents() == old(Contents())[1..]
    {
      data := storage[outPos];
      outPos := outPos + 1;
      if outPos == storage.Length {
        outPos := 0;
      }
      count := count - 1;
    }

    /** RingBuffer_Peek */
    method Peek() returns (data: byte)
      requires Valid() && Contents() != []
      ensures data == Contents()[0]
    {
      data := storage[outPos];
    }
  }
}
