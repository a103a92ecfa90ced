/**
 The hardware the bootloaders drive, reduced to what their correctness rests on: self-programmed
 flash with its temporary page buffer, and the packet banks of USB endpoints. The `requires` clauses
 are the rules of the hardware, so every call site in the bootloaders is a proof that the rule is kept.
 */
module Hardware {
  import opened Bytes

  /** SPM_PAGESIZE of the USB AVRs. */
  predicate IsPageSize(n: int) {
    n == 128 || n == 256
  }

  /** Offset of `a` within its page: `a` modulo the page size, by repeated subtraction. */
  function Offset(p: nat, a: nat): (o: nat)
    requires 0 < p
    ensures o < p && o <= a
  {
    if a < p then a else Offset(p, a - p)
  }

  /** First address of the page that holds `a`. */
  function PageStart(p: nat, a: nat): nat
    requires 0 < p
  {
    a - Offset(p, a)
  }

  lemma {:induction false} OffsetIs128(a: nat)
    ensures Offset(128, a) == a % 128
  {
    if a >= 128 { OffsetIs128(a - 128); }
  }

  lemma {:induction false} OffsetIs256(a: nat)
    ensures Offset(256, a) == a % 256
  {
    if a >= 256 { OffsetIs256(a - 256); }
  }

  lemma {:induction false} OffsetParity(p: nat, a: nat)
    requires IsPageSize(p)
    ensures Offset(p, a) % 2 == a % 2
  {
    if a >= p { OffsetParity(p, a - p); }
  }

  /** `mem` with the page at `q` erased. */
  function WithErased(mem: seq<byte>, q: int, p: int): (r: seq<byte>)
    ensures |r| == |mem|
  {
    seq(|mem|, a requires 0 <= a < |mem| => if q <= a < q + p then ERASED else mem[a])
  }

  /** `mem` with the buffer `temp` programmed into the page at `q`. */
  function WithCommitted(mem: seq<byte>, q: int, temp: seq<byte>): (r: seq<byte>)
    ensures |r| == |mem|
  {
    seq(|mem|, a requires 0 <= a < |mem| => if q <= a < q + |temp| then And(mem[a], temp[a - q]) else mem[a])
  }

  /** Self-programmed flash memory. */
  class Flash {
    const pageSize: nat
    var mem: seq<byte>
    var temp: seq<byte>            // temporary page buffer
    ghost var filled: set<int>     // offsets of the buffer words loaded since the last commit
    ghost var erased: set<int>     // pages erased and not programmed since

    constructor (pageSize: nat, contents: seq<byte>)
      requires IsPageSize(pageSize) && Offset(pageSize, |contents|) == 0
      ensures Valid() && Blank() && this.pageSize == pageSize && mem == contents && erased == {}
    {
      this.pageSize, mem, temp := pageSize, contents, seq(pageSize, _ => ERASED);
      filled, erased := {}, {};
    }

    ghost predicate Valid()
      reads this
    {
      && IsPageSize(pageSize)
      && Offset(pageSize, |mem|) == 0
      && |temp| == pageSize
    }

    /** Nothing is waiting in the temporary buffer. */
    ghost predicate Blank()
      reads this
    {
      filled == {} && forall o :: 0 <= o < |temp| ==> temp[o] == ERASED
    }

    /** boot_page_erase */
    method Erase(addr: nat)
      requires Valid() && addr < |mem|
      modifies this
      ensures Valid() && temp == old(temp) && filled == old(filled)
      ensures mem == WithErased(old(mem), PageStart(pageSize, addr), pageSize)
      ensures erased == old(erased) + {PageStart(pageSize, addr)}
    {
      mem := WithErased(mem, PageStart(pageSize, addr), pageSize);
      erased := erased + {PageStart(pageSize, addr)};
    }

    /** boot_page_fill: the word goes to the slot `addr` selects within the page, which must not have been loaded
        since the last commit. The hardware wants an even address; what the buffer holds after an odd one is not
        specified. */
    method Fill(addr: nat, w: word)
      requires Valid()
      requires addr % 2 == 0 ==> Offset(pageSize, addr) !in filled
      modifies this
      ensures Valid() && mem == old(mem) && erased == old(erased)
      ensures addr % 2 == 0 ==>
                var o := Offset(pageSize, addr);
                && filled == old(filled) + {o}
                && o + 1 < pageSize && temp == old(temp)[o := w % 256][o + 1 := w / 256]
    {
      if addr % 2 == 0 {
        var o := Offset(pageSize, addr);
        OffsetParity(pageSize, addr);
        temp := temp[o := w % 256][o + 1 := w / 256];
        filled := filled + {o};
      } else {
        var unspecified: seq<byte> := *;
        if |unspecified| == pageSize { temp := unspecified; }
      }
    }

    /** boot_page_write: only a page that was erased first may be programmed. The buffer is blank
        afterwards. */
    method Commit(addr: nat)
      requires Valid() && addr < |mem|
      requires PageStart(pageSize, addr) in erased
      modifies this
      ensures Valid() && Blank()
      ensures mem == WithCommitted(old(mem), PageStart(pageSize, addr), old(temp))
      ensures erased == old(erased) - {PageStart(pageSize, addr)}
    {
      mem := WithCommitted(mem, PageStart(pageSize, addr), temp);
      temp := seq(pageSize, _ => ERASED);
      filled := {};
      erased := erased - {PageStart(pageSize, addr)};
    }
  }

  /** EEPROM, written byte by byte. */
  class Eeprom {
    var mem: seq<byte>

    method Write(addr: nat, b: byte)
      requires addr < |mem|
      modifies this
      ensures mem == old(mem)[addr := b]
    {
      mem := mem[addr := b];
    }
  }

  /** A control OUT endpoint during a data stage. The host delivers the stage in packets of `size`
      bytes, the last one possibly shorter. */
  class ControlOut {
    const size: nat
    var bank: seq<byte>       // unread bytes of the packet in the bank
    var pending: seq<byte>    // bytes the host has still to send

    constructor (size: nat, stage: seq<byte>)
      requires 0 < size
      ensures Valid() && this.size == size && bank == [] && pending == stage
    {
      this.size, bank, pending := size, [], stage;
    }

    ghost predicate Valid()
      reads this
    {
      0 < size
    }

    /** What is left of the data stage. */
    function Stage(): seq<byte>
      reads this
    {
      bank + pending
    }

    /** Endpoint_ClearOUT, then the wait for the next packet. Waiting for a packet the host never
        sends is excluded. */
    method NextPacket()
      requires Valid() && pending != []
      modifies this
      ensures Valid()
      ensures bank == old(pending)[..Min(size, |old(pending)|)]
      ensures pending == old(pending)[Min(size, |old(pending)|)..]
      ensures bank != []
    {
      bank, pending := pending[..Min(size, |pending|)], pending[Min(size, |pending|)..];
    }

    /** Endpoint_Read_8; reading an empty bank is excluded. */
    method Read8() returns (b: byte)
      requires bank != []
      modifies this
      ensures b == old(bank)[0] && bank == old(bank)[1..] && pending == old(pending)
    {
      b := bank[0];
      bank := bank[1..];
    }

    /** Endpoint_Read_16_LE; a word that straddles two packets is excluded. */
    method Read16() returns (w: word)
      requires |bank| >= 2
      modifies this
      ensures w == Word(old(bank)[0], old(bank)[1])
      ensures bank == old(bank)[2..] && pending == old(pending)
    {
      w := Word(bank[0], bank[1]);
      bank := bank[2..];
    }

    /** The bootloaders' idiom: the next byte, from the bank or from a fresh packet. */
    method NextByte() returns (b: byte)
      requires Valid() && Stage() != []
      modifies this
      ensures Valid() && b == old(Stage())[0] && Stage() == old(Stage())[1..]
    {
      if bank == [] {
        NextPacket();
      }
      b := Read8();
    }

    /** The same for a word, which never straddles two packets. */
    method NextWord() returns (w: word)
      requires Valid() && size % 2 == 0
      requires pending != [] ==> |bank| % 2 == 0
      requires |bank| + |pending| >= 2
      modifies this
      ensures Valid()
      ensures w == Word(old(Stage())[0], old(Stage())[1])
      ensures Stage() == old(Stage())[2..]
      ensures pending != [] ==> |bank| % 2 == 0
    {
      if bank == [] {
        NextPacket();
      }
      w := Read16();
    }
  }

  /** A bulk OUT endpoint: the host splits its bytes into packets as it pleases, empty ones included. */
  class BulkOut {
    var bank: seq<byte>            // unread bytes of the packet in the bank
    var queued: seq<seq<byte>>     // packets to come

    constructor (packets: seq<seq<byte>>)
      ensures bank == [] && queued == packets
    {
      bank, queued := [], packets;
    }

    /** Everything the device has still to read. */
    function Stream(): seq<byte>
      reads this
    {
      bank + Flatten(queued)
    }

    /** FetchNextCommandByte: packets are fetched until one is not empty. */
    method Fetch() returns (b: byte)
      requires Stream() != []
      modifies this
      ensures b == old(Stream())[0] && Stream() == old(Stream())[1..]
    {
      while bank == []
        invariant Stream() == old(Stream())
        decreases |queued|
      {
        FlattenCons(queued);
        bank, queued := queued[0], queued[1..];
      }
      b := bank[0];
      bank := bank[1..];
    }

    /** Endpoint_ClearOUT: what is left of the packet is dropped. */
    method Acknowledge() returns (ghost dropped: seq<byte>)
      modifies this
      ensures bank == [] && old(Stream()) == dropped + Stream() && queued == old(queued)
    {
      dropped := bank;
      bank := [];
    }
  }

  /** An IN endpoint: bytes collect in the bank until it is handed to the host. */
  class InEndpoint {
    const size: nat
    var bank: seq<byte>
    var sent: seq<seq<byte>>

    constructor (size: nat)
      ensures this.size == size && bank == [] && sent == []
    {
      this.size, bank, sent := size, [], [];
    }

    /** Everything written so far, in order. */
    function Written(): seq<byte>
      reads this
    {
      Flatten(sent) + bank
    }

    /** Endpoint_ClearIN */
    method Send()
      modifies this
      ensures bank == [] && sent == old(sent) + [old(bank)]
      ensures Written() == old(Written())
    {
      FlattenSnoc(sent, bank);
      sent := sent + [bank];
      bank := [];
    }

    /** Endpoint_Write_8; writing into a full bank is excluded. */
    method Write8(b: byte)
      requires |bank| < size
      modifies this
      ensures bank == old(bank) + [b] && sent == old(sent)
      ensures Written() == old(Written()) + [b]
    {
      bank := bank + [b];
      assert Written() == old(Written()) + [b];
    }
  }
}
