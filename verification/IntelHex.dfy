/**
 The Intel HEX reader of the HID loader: what a line does to the firmware image, the mask of loaded
 bytes, the extended address and the byte count.
 */
module IntelHex {
  import opened Bytes

  const MAX_MEMORY_SIZE := 0x1_0000

  const UINT_RANGE := 0x1_0000_0000       // values of a 32-bit unsigned int

  /** What the address records can leave behind: a segment of 16 bytes each, or an upper half of an address. */
  predicate Extends(e: nat) {
    e <= 0xFFFF0 || (e <= 0xFFFF_0000 && e % 0x1_0000 == 0)
  }

  /** The reader's static variables, and whether a byte was ever stored outside of the image. Where such a byte
      goes is up to the host's memory layout; the model notes it and drops it. */
  datatype Loader = Loader(image: seq<byte>, mask: seq<bool>, ended: bool, byteCount: nat, extended: nat, stray: bool) {
    ghost predicate Valid() {
      |image| == |mask| == MAX_MEMORY_SIZE && Extends(extended)
    }
  }

  const EMPTY: Loader :=
    Loader(seq(MAX_MEMORY_SIZE, _ => ERASED), seq(MAX_MEMORY_SIZE, _ => false), false, 0, 0, false)

  // ---------------------------------------------------------------- addresses

  /** A sum of two values as a 32-bit unsigned int. */
  function Wrapped(x: nat): int {
    if x >= UINT_RANGE then x - UINT_RANGE else x
  }

  /** The range check of a line for `len` bytes at `base`, whose sum may wrap around. */
  predicate Passes(base: nat, len: nat) {
    Wrapped(base + len) < MAX_MEMORY_SIZE
  }

  /** What passes lies inside the memory, or begins below 2^32 and ends behind it. */
  lemma PassesExact(base: nat, len: nat)
    requires base < UINT_RANGE && len < 256
    ensures Passes(base, len) <==> base + len < MAX_MEMORY_SIZE || base + len >= UINT_RANGE
  {
  }

  /** The index of the first byte stored for an address: below zero for one that wraps around on the way. */
  function Origin(base: nat): int {
    if base < MAX_MEMORY_SIZE then base else base - UINT_RANGE
  }

  /** Byte `num` of a line that passes goes to its index, or outside of the image if that is below zero. */
  lemma ByteIndex(base: nat, len: nat, num: nat)
    requires base < UINT_RANGE && num < len < 256 && Passes(base, len)
    ensures var index, k := Wrapped(base + num), Origin(base) + num;
            if k < 0 then index >= MAX_MEMORY_SIZE else index == k < MAX_MEMORY_SIZE
  {
  }

  // ---------------------------------------------------------------- hexadecimal digits

  function HexValue(c: char): Option<int> {
    if '0' <= c <= '9' then Some(c as int - '0' as int)
    else if 'A' <= c <= 'F' then Some(c as int - 'A' as int + 10)
    else if 'a' <= c <= 'f' then Some(c as int - 'a' as int + 10)
    else None
  }

  /** sscanf "%02x" on well-formed digits. */
  function Hex2(line: string, at: nat): (r: Option<int>)
    requires at + 2 <= |line|
    ensures r.Some? ==> 0 <= r.value < 0x100
  {
    match (HexValue(line[at]), HexValue(line[at + 1]))
    case (Some(h), Some(l)) => Some(16 * h + l)
    case _ => None
  }

  /** What the pairs of digits behind the colon say; `None` where they are no digits. */
  type Fields = s: seq<Option<int>> | forall k :: 0 <= k < |s| && s[k].Some? ==> 0 <= s[k].value < 0x100

  function FieldsOf(line: string): (r: Fields)
    requires line != []
    ensures |r| == (|line| - 1) / 2
    ensures forall k :: 0 <= k < |r| ==> r[k] == Hex2(line, 1 + 2 * k)
  {
    seq((|line| - 1) / 2, k requires 0 <= k < (|line| - 1) / 2 => Hex2(line, 1 + 2 * k))
  }

  /** The data bytes from field `k` on, up to the first that is no pair of digits. */
  function DataPrefix(fs: Fields, k: nat, n: nat): (r: seq<byte>)
    requires k + n <= |fs|
    ensures |r| <= n
    decreases n
  {
    if n == 0 || fs[k].None? then [] else [fs[k].value] + DataPrefix(fs, k + 1, n - 1)
  }

  function Sum(s: seq<byte>): nat {
    if s == [] then 0 else Sum(s[..|s| - 1]) + s[|s| - 1]
  }

  /** One field more, for the bytes from the first field on and their sum. */
  lemma PrefixStep(fs: Fields, n: nat, num: nat)
    requires 4 + n <= |fs| && num < n && num <= |DataPrefix(fs, 4, n)|
    requires DataPrefix(fs, 4, n)[num..] == DataPrefix(fs, 4 + num, n - num)
    ensures var data := DataPrefix(fs, 4, n);
            if fs[4 + num].None? then data == data[..num]
            else && num < |data|
                 && data[num + 1..] == DataPrefix(fs, 5 + num, n - num - 1)
                 && data[..num + 1] == data[..num] + [fs[4 + num].value]
                 && Sum(data[..num + 1]) == Sum(data[..num]) + fs[4 + num].value
  {
    var data := DataPrefix(fs, 4, n);
    if fs[4 + num].Some? {
      assert data[num] == data[num..][0] && data[num..][1..] == data[num + 1..];
      assert data[..num + 1][..num] == data[..num];
    }
  }

  /** The checksum rule: all bytes of a record add up to zero, modulo 256. */
  predicate Closes(total: nat) {
    total == 0 || (total >= 256 && Closes(total - 256))
  }

  lemma {:induction false} ClosesIsModulo(total: nat)
    ensures Closes(total) <==> total % 256 == 0
  {
    if total >= 256 { ClosesIsModulo(total - 256); }
  }

  /** The part of `data` at `at` that lies inside of `mem` replaces what was there. */
  function Overlaid(mem: seq<byte>, at: int, data: seq<byte>): (r: seq<byte>)
    ensures |r| == |mem|
  {
    seq(|mem|, a requires 0 <= a < |mem| => if at <= a < at + |data| then data[a - at] else mem[a])
  }

  /** Marks `n` addresses from `at` on as loaded. */
  function Marked(mask: seq<bool>, at: int, n: nat): (r: seq<bool>)
    ensures |r| == |mask|
  {
    seq(|mask|, a requires 0 <= a < |mask| => at <= a < at + n || mask[a])
  }

  lemma NothingStored(mem: seq<byte>, mask: seq<bool>, at: int)
    ensures Overlaid(mem, at, []) == mem && Marked(mask, at, 0) == mask
  {
  }

  lemma OverlaidStep(mem: seq<byte>, at: int, data: seq<byte>, b: byte)
    ensures Overlaid(Overlaid(mem, at, data), at + |data|, [b]) == Overlaid(mem, at, data + [b])
  {
  }

  lemma MarkedStep(mask: seq<bool>, at: int, n: nat)
    ensures Marked(Marked(mask, at, n), at + n, 1) == Marked(mask, at, n + 1)
  {
  }

  /** Stores `data` from index `origin` on, for a record that announced `len` bytes. */
  function Stored(l: Loader, origin: int, data: seq<byte>, len: nat): (r: Loader)
    requires l.Valid()
    ensures r.Valid()
  {
    l.(byteCount := l.byteCount + len, image := Overlaid(l.image, origin, data), mask := Marked(l.mask, origin, |data|),
       stray := l.stray || (origin < 0 && data != []))
  }

  // ---------------------------------------------------------------- one line

  /** An extended address record: taken over only when its checksum is right. */
  function ExtendedRecord(l: Loader, fs: Fields, sum: nat, linear: bool): (r: Loader)
    requires |fs| >= 7 && l.Valid()
    ensures r.Valid()
  {
    match (fs[4], fs[5], fs[6])
    case (Some(h), Some(b), Some(ck)) =>
      if Closes(sum + h + b + ck) then
        l.(extended := if linear then Word(b, h) * 0x1_0000 else Word(b, h) * 16)
      else l
    case _ => l
  }

  /** A data record: bytes are stored as they are read, also when the record then turns out to be
      damaged. */
  function DataRecord(l: Loader, fs: Fields, base: nat, len: nat, sum: nat): (r: (Loader, bool))
    requires l.Valid() && |fs| >= 5 + len
    ensures r.0.Valid()
  {
    var data := DataPrefix(fs, 4, len);
    var t := Stored(l, Origin(base), data, len);
    (t, |data| == len && fs[4 + len].Some? && Closes(sum + Sum(data) + fs[4 + len].value))
  }

  /** A line by its fields, of which there are enough for the length it announces. */
  function ParseFields(l: Loader, fs: Fields): (r: (Loader, bool))
    requires l.Valid()
    requires |fs| >= 5 && fs[0].Some? && |fs| >= 5 + fs[0].value
    ensures r.0.Valid()
  {
    if fs[1].None? || fs[2].None? || fs[3].None? then (l, false)
    else
      var len, addr, code := fs[0].value, Word(fs[2].value, fs[1].value), fs[3].value;
      var sum := len + fs[1].value + fs[2].value + code;
      if !Passes(addr + l.extended, len) then (l, false)
      else if code == 0 then DataRecord(l, fs, addr + l.extended, len, sum)
      else if code == 1 then (l.(ended := true), true)
      else if code == 2 && len == 2 then (ExtendedRecord(l, fs, sum, false), true)
      else if code == 4 && len == 2 then (ExtendedRecord(l, fs, sum, true), true)
      else (l, true)
  }

  /** parse_hex_line: the new state, and whether the line was accepted. */
  function ParseLine(l: Loader, line: string): (r: (Loader, bool))
    requires l.Valid()
    ensures r.0.Valid()
  {
    if |line| < 11 || line[0] != ':' then (l, false)
    else
      var fs := FieldsOf(line);
      if fs[0].None? || |line| < 11 + 2 * fs[0].value then (l, false) else ParseFields(l, fs)
  }

  /** read_intel_hex after initialisation: lines are read until the end record or an error. */
  function ReadLines(l: Loader, lines: seq<string>): (r: (Loader, bool))
    requires l.Valid()
    ensures r.0.Valid()
    decreases |lines|
  {
    if lines == [] || l.ended then (l, true)
    else
      var (t, ok) := ParseLine(l, lines[0]);
      if ok then ReadLines(t, lines[1..]) else (t, false)
  }

  // ---------------------------------------------------------------- the reader in place

  class Reader {
    const image: array<byte>
    const mask: array<bool>
    var ended: bool
    var byteCount: nat
    var extended: nat
    var stray: bool

    constructor ()
      ensures Valid() && fresh(image) && fresh(mask)
    {
      image := new byte[MAX_MEMORY_SIZE](_ => ERASED);
      mask := new bool[MAX_MEMORY_SIZE](_ => false);
      ended, byteCount, extended, stray := false, 0, 0, false;
    }

    ghost predicate Valid()
      reads this
    {
      image.Length == mask.Length == MAX_MEMORY_SIZE && Extends(extended)
    }

    ghost function View(): Loader
      reads this, image, mask
    {
      Loader(image[..], mask[..], ended, byteCount, extended, stray)
    }

    /** Stores one byte at a 32-bit unsigned index. One outside of the image is noted and dropped. */
    method StoreByte(index: nat, b: byte, ghost at: int)
      requires Valid() && if at < 0 then index >= MAX_MEMORY_SIZE else index == at < MAX_MEMORY_SIZE
      modifies this`stray, image, mask
      ensures image[..] == Overlaid(old(image[..]), at, [b]) && mask[..] == Marked(old(mask[..]), at, 1)
      ensures stray == (old(stray) || at < 0)
    {
      if index < MAX_MEMORY_SIZE {
        image[index] := b;
        mask[index] := true;
      } else {
        stray := true;
      }
    }

    /** The byte loop of a data record. */
    method StoreData(fs: Fields, base: nat, len: nat) returns (num: nat, sum: nat)
      requires Valid() && |fs| >= 5 + len && base < UINT_RANGE && len < 256 && Passes(base, len)
      modifies this`stray, image, mask
      ensures var data, origin := DataPrefix(fs, 4, len), Origin(base);
              && num == |data| && sum == Sum(data)
              && image[..] == Overlaid(old(image[..]), origin, data)
              && mask[..] == Marked(old(mask[..]), origin, |data|)
              && stray == (old(stray) || (origin < 0 && data != []))
    {
      num, sum := 0, 0;
      ghost var data, image0, mask0, stray0, origin := DataPrefix(fs, 4, len), image[..], mask[..], stray, Origin(base);
      hide Passes, Origin, Wrapped, Overlaid, Marked, DataPrefix;
      NothingStored(image0, mask0, origin);
      assert data[..0] == [] && data[0..] == data && Sum([]) == 0;
      hide Sum;
      while num != len
        invariant num <= |data| <= len && sum == Sum(data[..num])
        invariant data[num..] == DataPrefix(fs, 4 + num, len - num)
        invariant image[..] == Overlaid(image0, origin, data[..num]) && mask[..] == Marked(mask0, origin, num)
        invariant stray == (stray0 || (origin < 0 && num > 0))
      {
        PrefixStep(fs, len, num);
        if fs[4 + num].None? { return; }
        var b := fs[4 + num].value;
        ByteIndex(base, len, num);
        StoreByte(Wrapped(base + num), b, origin + num);
        OverlaidStep(image0, origin, data[..num], b);
        MarkedStep(mask0, origin, num);
        sum := sum + b;
        num := num + 1;
      }
      assert data[..num] == data;
    }

    /** The data branch of parse_hex_line. */
    method StoreRecord(fs: Fields, base: nat, len: nat, sum: nat) returns (ok: bool)
      requires Valid() && |fs| >= 5 + len && base < UINT_RANGE && len < 256 && Passes(base, len)
      modifies this`byteCount, this`stray, image, mask
      ensures (View(), ok) == DataRecord(old(View()), fs, base, len, sum)
    {
      hide Overlaid, Marked, DataPrefix, Sum, Closes, Origin;
      byteCount := byteCount + len;
      var num, dataSum := StoreData(fs, base, len);
      ok := num == len && fs[4 + len].Some? && Closes(sum + dataSum + fs[4 + len].value);
    }

    /** The extended-address branches of parse_hex_line. */
    method ExtendAddress(fs: Fields, sum: nat, linear: bool)
      requires Valid() && |fs| >= 7
      modifies this`extended
      ensures Valid() && View() == ExtendedRecord(old(View()), fs, sum, linear)
    {
      if fs[4].None? || fs[5].None? || fs[6].None? { return; }
      var i := Word(fs[5].value, fs[4].value);
      if Closes(sum + fs[4].value + fs[5].value + fs[6].value) {
        extended := if linear then i * 0x1_0000 else i * 16;
      }
    }

    /** parse_hex_line, once the line is long enough for the length it announces. */
    method ParseHexFields(fs: Fields) returns (ok: bool)
      requires Valid()
      requires |fs| >= 5 && fs[0].Some? && |fs| >= 5 + fs[0].value
      modifies this, image, mask
      ensures Valid() && (View(), ok) == ParseFields(old(View()), fs)
    {
      hide DataRecord, ExtendedRecord, Closes;
      if fs[1].None? || fs[2].None? || fs[3].None? { return false; }
      var len, addr, code := fs[0].value, Word(fs[2].value, fs[1].value), fs[3].value;
      if !Passes(addr + extended, len) { return false; }
      var sum := len + fs[1].value + fs[2].value + code;
      if code == 0 {
        ok := StoreRecord(fs, addr + extended, len, sum);
        return;
      }
      if code == 1 {
        ended := true;
      } else if code == 2 && len == 2 {
        ExtendAddress(fs, sum, false);
      } else if code == 4 && len == 2 {
        ExtendAddress(fs, sum, true);
      }
      ok := true;
    }

    /** parse_hex_line */
    method ParseHexLine(line: string) returns (ok: bool)
      requires Valid()
      modifies this, image, mask
      ensures Valid() && (View(), ok) == ParseLine(old(View()), line)
    {
      if |line| < 11 || line[0] != ':' { return false; }
      var fs := FieldsOf(line);
      if fs[0].None? || |line| < 11 + 2 * fs[0].value { return false; }
      ok := ParseHexFields(fs);
    }

    /** The reader starts from an image of erased bytes with nothing loaded. */
    method Reset()
      requires Valid()
      modifies this, image, mask
      ensures Valid() && View() == EMPTY
    {
      byteCount, ended, extended, stray := 0, false, 0, false;
      for i := 0 to MAX_MEMORY_SIZE
        invariant byteCount == 0 && !ended && extended == 0 && !stray
        invariant forall a :: 0 <= a < i ==> image[a] == ERASED && !mask[a]
      {
        image[i] := ERASED;
        mask[i] := false;
      }
    }

    /** read_intel_hex on the lines of a file: the byte count, or -2 for a damaged file. */
    method ReadIntelHex(lines: seq<string>) returns (result: int)
      requires Valid()
      modifies this, image, mask
      ensures Valid()
      ensures var (l, ok) := ReadLines(EMPTY, lines); View() == l && result == if ok then l.byteCount else -2
    {
      Reset();
      var i := 0;
      while i < |lines| && !ended
        invariant 0 <= i <= |lines| && Valid()
        invariant ReadLines(View(), lines[i..]) == ReadLines(EMPTY, lines)
      {
        assert lines[i..][1..] == lines[i + 1..];
        var ok := ParseHexLine(lines[i]);
        if !ok {
          return -2;
        }
        i := i + 1;
      }
      return byteCount;
    }

    /** ihex_bytes_within_range: is any address from `begin` to `end` loaded? */
    method BytesWithinRange(begin: int, end: int) returns (found: bool)
      requires Valid()
      ensures found <==> 0 <= begin < MAX_MEMORY_SIZE && 0 <= end < MAX_MEMORY_SIZE
                         && exists i :: begin <= i <= end && mask[i]
    {
      if begin < 0 || begin >= MAX_MEMORY_SIZE || end < 0 || end >= MAX_MEMORY_SIZE {
        return false;
      }
      var i := begin;
      while i <= end
        invariant begin <= i
        invariant forall j :: begin <= j < i && j <= end ==> !mask[j]
        decreases end - i
      {
        if mask[i] {
          return true;
        }
        i := i + 1;
      }
      return false;
    }

    /** ihex_get_data: the bytes of a block, with 255 for what was not loaded; a block that reaches the end
        of the memory comes out as all 255. */
    method GetData(addr: int, len: nat, bytes: array<byte>, at: nat)
      requires Valid() && at + len <= bytes.Length && bytes != image
      modifies bytes
      ensures forall i :: 0 <= i < bytes.Length && !(at <= i < at + len) ==> bytes[i] == old(bytes[i])
      ensures forall i :: at <= i < at + len ==>
                bytes[i] == if 0 <= addr && addr + len < MAX_MEMORY_SIZE && mask[addr + i - at]
                            then image[addr + i - at] else 255
    {
      if addr < 0 || addr + len >= MAX_MEMORY_SIZE {
        for i := 0 to len
          invariant forall j :: 0 <= j < bytes.Length ==> bytes[j] == if at <= j < at + i then 255 else old(bytes[j])
        {
          bytes[at + i] := 255;
        }
        return;
      }
      for i := 0 to len
        invariant forall j :: 0 <= j < bytes.Length && !(at <= j < at + i) ==> bytes[j] == old(bytes[j])
        invariant forall j :: at <= j < at + i ==> bytes[j] == if mask[addr + j - at] then image[addr + j - at] else 255
      {
        bytes[at + i] := if mask[addr + i] then image[addr + i] else 255;
      }
    }
  }
}
