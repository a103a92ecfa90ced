/** The serial-to-LCD bridge: bytes from the host are data for the display, or commands behind an escape. */
module LcdEscape {
  import opened Bytes
  import opened RingBuffer

  const ESCAPE: byte := 0x1B      // COMMAND_ESCAPE

  datatype Item = Data(b: byte) | Command(b: byte)

  /** The decoder: the pending escape, and what has been written to the display. */
  datatype Decoder = Decoder(pending: bool, items: seq<Item>)

  function Feed(d: Decoder, b: byte): Decoder {
    if b == ESCAPE then
      if d.pending then Decoder(false, d.items + [Data(b)]) else d.(pending := true)
    else
      if d.pending then Decoder(false, d.items + [Command(b)]) else d.(items := d.items + [Data(b)])
  }

  function FeedAll(d: Decoder, bytes: seq<byte>): Decoder
    decreases |bytes|
  {
    if bytes == [] then d else FeedAll(Feed(d, bytes[0]), bytes[1..])
  }

  /** How a host spells an item. */
  function Escape(i: Item): seq<byte> {
    match i
    case Data(b) => if b == 0x1B then [0x1B, 0x1B] else [b]
    case Command(b) => [0x1B, b]
  }

  function EscapeAll(items: seq<Item>): seq<byte> {
    if items == [] then [] else Escape(items[0]) + EscapeAll(items[1..])
  }

  // ---------------------------------------------------------------- the bridge

  class Bridge {
    const buffer: Buffer
    var escapePending: bool
    var written: seq<Item>      // HD44780_WriteData and HD44780_WriteCommand, in order

    constructor (buffer: Buffer)
      requires buffer.Valid() && buffer.Contents() == []
      ensures Valid() && View() == Decoder(false, []) && this.buffer == buffer
    {
      this.buffer, escapePending, written := buffer, false, [];
    }

    ghost predicate Valid()
      reads this, buffer
    {
      buffer.Valid()
    }

    ghost function View(): Decoder
      reads this
    {
      Decoder(escapePending, written)
    }

    /** The drain loop: everything stored is decoded; the escape flag survives from one call to the next. */
    method Drain()
      requires Valid()
      modifies this, buffer
      ensures Valid() && buffer.Contents() == []
      ensures View() == FeedAll(old(View()), old(buffer.Contents()))
    {
      while buffer.count > 0
        invariant Valid()
        invariant FeedAll(View(), buffer.Contents()) == FeedAll(old(View()), old(buffer.Contents()))
        decreases buffer.count
      {
        var b := buffer.Remove();
        if b == ESCAPE {
          if escapePending {
            written := written + [Data(b)];
            escapePending := false;
          } else {
            escapePending := true;
          }
        } else {
          if escapePending {
            written := written + [Command(b)];
            escapePending := false;
          } else {
            written := written + [Data(b)];
          }
        }
      }
    }

    /** One turn of the main loop: at most one byte is taken from the host, then the buffer is drained. */
    method Turn(host: Option<byte>)
      requires Valid() && buffer.Contents() == []
      modifies this, buffer, buffer.storage
      ensures Valid() && buffer.Contents() == []
      ensures View() == match host case Some(b) => Feed(old(View()), b) case None => old(View())
    {
      var full := buffer.IsFull();
      if !full && host.Some? {
        buffer.Insert(host.value);
        assert buffer.Contents() == [host.value];
      }
      Drain();
    }
  }

  // ---------------------------------------------------------------- decoding undoes escaping

  /** Feeding bytes in two chunks is feeding them at once. */
  lemma {:induction false} FeedChunks(d: Decoder, a: seq<byte>, b: seq<byte>)
    ensures FeedAll(d, a + b) == FeedAll(FeedAll(d, a), b)
    decreases |a|
  {
    if a == [] {
      assert a + b == b;
    } else {
      assert (a + b)[1..] == a[1..] + b;
      FeedChunks(Feed(d, a[0]), a[1..], b);
    }
  }

  /** Feeding chunk after chunk. */
  function FeedEach(d: Decoder, chunks: seq<seq<byte>>): Decoder {
    if chunks == [] then d else FeedAll(FeedEach(d, chunks[..|chunks| - 1]), chunks[|chunks| - 1])
  }

  lemma {:induction false} AnyChunking(d: Decoder, chunks: seq<seq<byte>>)
    ensures FeedEach(d, chunks) == FeedAll(d, Flatten(chunks))
  {
    if chunks != [] {
      var init := chunks[..|chunks| - 1];
      AnyChunking(d, init);
      FeedChunks(d, Flatten(init), chunks[|chunks| - 1]);
    }
  }

  /** One item, from a decoder with no escape pending. */
  lemma FeedItem(d: Decoder, i: Item)
    requires !d.pending
    ensures FeedAll(d, Escape(i)) ==
              d.(items := d.items + [if i == Command(0x1B) then Data(0x1B) else i])
  {
    var e := Escape(i);
    if |e| == 2 {
      assert e[1..] == [e[1]] && e[1..][1..] == [];
      assert FeedAll(d, e) == FeedAll(Feed(Feed(d, e[0]), e[1]), []);
    } else {
      assert e[1..] == [];
    }
  }

  /** What the decoder makes of escaped items: a command equal to the escape code can not be spelled. */
  function Readable(items: seq<Item>): seq<Item> {
    if items == [] then [] else [if items[0] == Command(0x1B) then Data(0x1B) else items[0]] + Readable(items[1..])
  }

  lemma {:induction false} DecodeEscaped(d: Decoder, items: seq<Item>)
    requires !d.pending
    ensures FeedAll(d, EscapeAll(items)) == d.(items := d.items + Readable(items))
    decreases |items|
  {
    if items != [] {
      FeedItem(d, items[0]);
      FeedChunks(d, Escape(items[0]), EscapeAll(items[1..]));
      DecodeEscaped(FeedAll(d, Escape(items[0])), items[1..]);
    }
  }

  lemma {:induction false} ReadableExact(items: seq<Item>)
    ensures Readable(items) == items <==> Command(0x1B) !in items
  {
    if items != [] {
      ReadableExact(items[1..]);
      var r := Readable(items);
      assert r[1..] == Readable(items[1..]);
      assert r == items ==> r[0] == items[0] && r[1..] == items[1..];
      assert Command(0x1B) in items <==> items[0] == Command(0x1B) || Command(0x1B) in items[1..];
      assert items == [items[0]] + items[1..];
    }
  }

  /** Escaped items, cut into chunks in any way, are written to the display exactly as they were, no escape
      left over, if and only if none of them is the command 0x1B. */
  lemma RoundTripExact(items: seq<Item>, chunks: seq<seq<byte>>)
    requires Flatten(chunks) == EscapeAll(items)
    ensures FeedEach(Decoder(false, []), chunks) == Decoder(false, items) <==> Command(0x1B) !in items
  {
    AnyChunking(Decoder(false, []), chunks);
    DecodeEscaped(Decoder(false, []), items);
    ReadableExact(items);
  }
}
