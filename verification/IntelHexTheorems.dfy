/** Writing firmware as Intel HEX and reading it back, and what a damaged record leads to. */
module IntelHexTheorems {
  import opened Bytes
  import opened IntelHex

  // ---------------------------------------------------------------- writing records

  /** What a data record can hold. */
  type Contents = s: seq<byte> | |s| < 256 witness []

  datatype Record =
    | Data(addr: word, bytes: Contents)
    | Segment(base: word)
    | Linear(base: word)

  function Digit(d: int): char
    requires 0 <= d < 16
  {
    if d < 10 then (d + '0' as int) as char else (d - 10 + 'A' as int) as char
  }

  /** A line of the file: colon, two digits for each byte, newline. */
  function Line(bs: seq<byte>): (r: string)
    ensures |r| == 2 * |bs| + 2
  {
    [':'] + seq(2 * |bs|, i requires 0 <= i < 2 * |bs| =>
              Digit(if i % 2 == 0 then bs[i / 2] / 16 else bs[i / 2] % 16)) + ['\n']
  }

  /** Length, address, type and contents of a record. */
  function Body(r: Record): seq<byte>
  {
    match r
    case Data(a, bytes) => [|bytes|, a / 256, a % 256, 0] + bytes
    case Segment(b) => [2, 0, 0, 2, b / 256, b % 256]
    case Linear(b) => [2, 0, 0, 4, b / 256, b % 256]
  }

  function Checksum(body: seq<byte>): byte {
    (256 - Sum(body) % 256) % 256
  }

  function RecordBytes(r: Record): seq<byte>
  {
    Body(r) + [Checksum(Body(r))]
  }

  // ---------------------------------------------------------------- what records mean

  /** The record lies below the end of the loader's memory. */
  predicate InRange(l: Loader, r: Record) {
    match r
    case Data(a, bytes) => a + l.extended + |bytes| < MAX_MEMORY_SIZE
    case _ => l.extended + 2 < MAX_MEMORY_SIZE
  }

  function Apply(l: Loader, r: Record): (t: Loader)
    requires l.Valid() && InRange(l, r)
    ensures t.Valid()
  {
    match r
    case Data(a, bytes) =>
      Stored(l, a + l.extended, bytes, |bytes|)
    case Segment(b) => l.(extended := b * 16)
    case Linear(b) => l.(extended := b * 0x1_0000)
  }

  // ---------------------------------------------------------------- reading one record

  /** The fields begin with `bs`. */
  ghost predicate Spells(fs: Fields, bs: seq<byte>) {
    |bs| <= |fs| && forall k :: 0 <= k < |bs| ==> fs[k] == Some(bs[k])
  }

  lemma DigitRead(d: int)
    requires 0 <= d < 16
    ensures HexValue(Digit(d)) == Some(d)
  {
  }

  lemma LineAt(bs: seq<byte>, k: nat)
    requires k < |bs|
    ensures Line(bs)[1 + 2 * k] == Digit(bs[k] / 16) && Line(bs)[2 + 2 * k] == Digit(bs[k] % 16)
  {
    assert 2 * k % 2 == 0 && 2 * k / 2 == k && (2 * k + 1) % 2 == 1 && (2 * k + 1) / 2 == k;
  }

  lemma LineSpells(bs: seq<byte>)
    ensures |FieldsOf(Line(bs))| == |bs| && Spells(FieldsOf(Line(bs)), bs)
  {
    hide Line, Digit, HexValue;
    forall k | 0 <= k < |bs| ensures FieldsOf(Line(bs))[k] == Some(bs[k]) {
      LineAt(bs, k);
      DigitRead(bs[k] / 16);
      DigitRead(bs[k] % 16);
    }
  }

  /** A written line is read by its fields, if it is long enough for the length it announces. */
  lemma LineRead(l: Loader, bs: seq<byte>, n: nat)
    requires l.Valid() && |bs| >= 5 && bs[0] == n
    ensures var fs := FieldsOf(Line(bs));
            && |fs| == |bs| && Spells(fs, bs)
            && ParseLine(l, Line(bs)) == if |bs| >= n + 5 then ParseFields(l, fs) else (l, false)
  {
    assert Line(bs)[0] == ':';
    hide Line, ParseFields;
    LineSpells(bs);
  }

  lemma ParseWritten(l: Loader, bs: seq<byte>, n: nat)
    requires l.Valid() && |bs| == n + 5 && bs[0] == n
    ensures var fs := FieldsOf(Line(bs));
            Spells(fs, bs) && |fs| >= 5 && |fs| == 5 + fs[0].value && ParseLine(l, Line(bs)) == ParseFields(l, fs)
  {
    hide Line, ParseFields, ParseLine;
    LineRead(l, bs, n);
  }

  lemma {:induction false} DataOfFields(fs: Fields, bs: seq<byte>, k: nat, n: nat)
    requires Spells(fs, bs) && k + n <= |bs|
    ensures DataPrefix(fs, k, n) == bs[k..k + n]
    decreases n
  {
    if n > 0 { DataOfFields(fs, bs, k + 1, n - 1); }
  }

  lemma {:induction false} SumConcat(a: seq<byte>, b: seq<byte>)
    ensures Sum(a + b) == Sum(a) + Sum(b)
  {
    if b == [] {
      assert a + b == a;
    } else {
      SumConcat(a, b[..|b| - 1]);
      assert (a + b)[..|a + b| - 1] == a + b[..|b| - 1];
    }
  }

  lemma SumOfFour(s: seq<byte>)
    requires |s| == 4
    ensures Sum(s) == s[0] as int + s[1] + s[2] + s[3]
  {
    assert s[..3][..2] == s[..2];
    assert s[..2][..1] == s[..1];
    assert Sum(s[..1]) == s[0];
    assert Sum(s[..2]) == s[0] as int + s[1];
    assert Sum(s[..3]) == s[0] as int + s[1] + s[2];
  }

  lemma Complement(x: nat)
    ensures (x + (256 - x % 256) % 256) % 256 == 0
  {
  }

  /** A record's bytes add up to zero. */
  lemma ChecksumCloses(body: seq<byte>)
    ensures Closes(Sum(body + [Checksum(body)]))
  {
    hide Closes;
    Complement(Sum(body));
    assert (Sum(body) + Checksum(body)) % 256 == 0;
    hide Checksum;
    SumConcat(body, [Checksum(body)]);
    assert Sum([Checksum(body)]) == Checksum(body);
    ClosesIsModulo(Sum(body) + Checksum(body));
  }

  /** The sum of a line, from its header, its contents and its last byte. */
  lemma SumOfLine(bs: seq<byte>, n: nat)
    requires |bs| == n + 5
    ensures Sum(bs) == bs[0] as int + bs[1] + bs[2] + bs[3] + Sum(bs[4..4 + n]) + bs[4 + n]
  {
    assert bs == bs[..4] + bs[4..4 + n] + [bs[4 + n]];
    SumConcat(bs[..4], bs[4..4 + n]);
    SumConcat(bs[..4] + bs[4..4 + n], [bs[4 + n]]);
    SumOfFour(bs[..4]);
  }

  /** What a data record stores, and when it is accepted. */
  lemma DataStored(l: Loader, fs: Fields, data: seq<byte>, base: nat, n: nat, sum: nat, total: nat)
    requires l.Valid() && |fs| >= 5 + n
    requires DataPrefix(fs, 4, n) == data && |data| == n && fs[4 + n].Some?
    requires sum + Sum(data) + fs[4 + n].value == total
    ensures DataRecord(l, fs, base, n, sum) == (Stored(l, Origin(base), data, n), Closes(total))
  {
  }

  /** Lines of type 0 are data records, unless the range check stops them. */
  lemma DataFields(l: Loader, fs: Fields, base: nat, n: nat, sum: nat)
    requires l.Valid() && |fs| >= 5 + n && fs[0] == Some(n) && fs[1].Some? && fs[2].Some? && fs[3] == Some(0)
    requires base == Word(fs[2].value, fs[1].value) + l.extended && sum == n + fs[1].value + fs[2].value
    ensures ParseFields(l, fs) ==
              if Passes(base, n) then DataRecord(l, fs, base, n, sum) else (l, false)
  {
  }

  /** How a line of type 0 is read: it is accepted exactly when its range passes the check and its bytes add up
      to zero. */
  lemma DataLine(l: Loader, fs: Fields, bs: seq<byte>, base: nat, n: nat)
    requires l.Valid() && Spells(fs, bs) && |bs| == n + 5 && bs[0] == n && bs[3] == 0
    requires base == Word(bs[2], bs[1]) + l.extended
    ensures !Passes(base, n) ==> ParseFields(l, fs) == (l, false)
    ensures Passes(base, n) ==>
              ParseFields(l, fs) == (Stored(l, Origin(base), bs[4..4 + n], n), Closes(Sum(bs)))
  {
    var sum := n + bs[1] as int + bs[2];
    DataFields(l, fs, base, n, sum);
    if Passes(base, n) {
      DataOfFields(fs, bs, 4, n);
      SumOfLine(bs, n);
      DataStored(l, fs, bs[4..4 + n], base, n, sum, Sum(bs));
    }
  }

  lemma ReadExtended(l: Loader, fs: Fields, r: Record)
    requires l.Valid() && !r.Data? && InRange(l, r) && Spells(fs, RecordBytes(r))
    ensures ParseFields(l, fs) == (Apply(l, r), true)
  {
    hide Closes, Checksum, Overlaid, Marked;
    var bs := RecordBytes(r);
    ChecksumCloses(Body(r));
    SumOfLine(bs, 2);
    SumConcat([bs[4]], [bs[5]]);
    assert bs[4..6] == [bs[4]] + [bs[5]];
    assert Sum([bs[4]]) == bs[4] && Sum([bs[5]]) == bs[5];
  }

  lemma ReadData(l: Loader, fs: Fields, r: Record)
    requires l.Valid() && r.Data? && InRange(l, r) && Spells(fs, RecordBytes(r))
    ensures ParseFields(l, fs) == (Apply(l, r), true)
  {
    hide ParseFields, Closes, Sum, Checksum, Stored, Extends;
    var bs, n := RecordBytes(r), |r.bytes|;
    ChecksumCloses(Body(r));
    assert Word(bs[2], bs[1]) == r.addr && bs[4..4 + n] == r.bytes;
    DataLine(l, fs, bs, r.addr as int + l.extended, n);
  }

  /** Reading a written record does what the record means. */
  lemma ReadRecord(l: Loader, r: Record)
    requires l.Valid() && InRange(l, r)
    ensures ParseLine(l, Line(RecordBytes(r))) == (Apply(l, r), true)
  {
    var bs := RecordBytes(r);
    ParseWritten(l, bs, |bs| - 5);
    if r.Data? {
      ReadData(l, FieldsOf(Line(bs)), r);
    } else {
      ReadExtended(l, FieldsOf(Line(bs)), r);
    }
  }

  // ---------------------------------------------------------------- reading a file

  /** Every record fits where the ones before it leave the extended address. */
  ghost predicate AllInRange(l: Loader, rs: seq<Record>)
    requires l.Valid()
    decreases |rs|
  {
    rs == [] || (InRange(l, rs[0]) && AllInRange(Apply(l, rs[0]), rs[1..]))
  }

  ghost function ApplyAll(l: Loader, rs: seq<Record>): (t: Loader)
    requires l.Valid() && AllInRange(l, rs)
    ensures t.Valid() && t.ended == l.ended && t.stray == l.stray
    decreases |rs|
  {
    if rs == [] then l else ApplyAll(Apply(l, rs[0]), rs[1..])
  }

  /** The lines of a file: the records, one each. */
  function Lines(rs: seq<Record>): seq<string>
  {
    if rs == [] then [] else [Line(RecordBytes(rs[0]))] + Lines(rs[1..])
  }

  const END_BYTES: seq<byte> := [0, 0, 0, 1, 0xFF]

  lemma ReadEnd(l: Loader)
    requires l.Valid() && l.extended < MAX_MEMORY_SIZE
    ensures ParseLine(l, Line(END_BYTES)) == (l.(ended := true), true)
  {
    ParseWritten(l, END_BYTES, 0);
  }

  lemma {:induction false} LinesRest(rs: seq<Record>, more: seq<string>)
    requires rs != []
    ensures var lines := Lines(rs) + more;
            lines[0] == Line(RecordBytes(rs[0])) && lines[1..] == Lines(rs[1..]) + more
  {
    hide Line, RecordBytes;
    assert Lines(rs)[1..] == Lines(rs[1..]);
  }

  /** Reading what was written: the records up to the end record take effect one after the other, and
      nothing behind the end record is looked at. */
  lemma {:induction false} ReadWritten(l: Loader, rs: seq<Record>, more: seq<string>)
    requires l.Valid() && !l.ended && AllInRange(l, rs) && ApplyAll(l, rs).extended < MAX_MEMORY_SIZE
    ensures ReadLines(l, Lines(rs) + ([Line(END_BYTES)] + more)) == (ApplyAll(l, rs).(ended := true), true)
    decreases |rs|
  {
    if rs == [] {
      ReadEnd(l);
    } else {
      LinesRest(rs, [Line(END_BYTES)] + more);
      ReadRecord(l, rs[0]);
      ReadWritten(Apply(l, rs[0]), rs[1..], more);
    }
  }

  // ---------------------------------------------------------------- what the image holds

  /** The bytes of a data record at their absolute address. */
  datatype Span = Span(base: nat, bytes: seq<byte>) {
    predicate Covers(a: int) { base <= a < base + |bytes| }
  }

  function Spans(extended: nat, rs: seq<Record>): seq<Span>
    decreases |rs|
  {
    if rs == [] then []
    else match rs[0]
      case Data(a, bytes) => [Span(a + extended, bytes)] + Spans(extended, rs[1..])
      case Segment(b) => Spans(b * 16, rs[1..])
      case Linear(b) => Spans(b * 0x1_0000, rs[1..])
  }

  /** The byte the last span over `a` gives it. */
  function LastByte(spans: seq<Span>, a: int): Option<byte> {
    if spans == [] then None
    else match LastByte(spans[1..], a)
      case Some(b) => Some(b)
      case None => if spans[0].Covers(a) then Some(spans[0].bytes[a - spans[0].base]) else None
  }

  function Total(spans: seq<Span>): nat {
    if spans == [] then 0 else |spans[0].bytes| + Total(spans[1..])
  }

  /** Later records win, loaded bytes are marked, everything else stays as it was; the byte count grows
      by all the bytes of all the data records. */
  lemma {:induction false} ImageOf(l: Loader, rs: seq<Record>, a: int)
    requires l.Valid() && AllInRange(l, rs) && 0 <= a < MAX_MEMORY_SIZE
    ensures var t, last := ApplyAll(l, rs), LastByte(Spans(l.extended, rs), a);
            && t.image[a] == (match last case Some(b) => b case None => l.image[a])
            && t.mask[a] == (last.Some? || l.mask[a])
            && t.byteCount == l.byteCount + Total(Spans(l.extended, rs))
    decreases |rs|
  {
    if rs != [] {
      ImageOf(Apply(l, rs[0]), rs[1..], a);
      var sp := Spans(l.extended, rs);
      if rs[0].Data? { assert sp[1..] == Spans(l.extended, rs[1..]); }
    }
  }

  // ---------------------------------------------------------------- the byte count

  /** Number of marked addresses. */
  function Count(mask: seq<bool>): nat {
    if mask == [] then 0 else Count(mask[..|mask| - 1]) + if mask[|mask| - 1] then 1 else 0
  }

  lemma {:induction false} CountConcat(a: seq<bool>, b: seq<bool>)
    ensures Count(a + b) == Count(a) + Count(b)
  {
    if b == [] {
      assert a + b == a;
    } else {
      CountConcat(a, b[..|b| - 1]);
      assert (a + b)[..|a + b| - 1] == a + b[..|b| - 1];
    }
  }

  lemma {:induction false} CountBounds(mask: seq<bool>)
    ensures Count(mask) <= |mask|
    ensures Count(mask) == 0 <==> forall a :: 0 <= a < |mask| ==> !mask[a]
    ensures (forall a :: 0 <= a < |mask| ==> mask[a]) ==> Count(mask) == |mask|
  {
    if mask != [] { CountBounds(mask[..|mask| - 1]); }
  }

  lemma MarkedSplit(mask: seq<bool>, at: nat, n: nat)
    requires at + n <= |mask|
    ensures mask == mask[..at] + mask[at..at + n] + mask[at + n..]
    ensures Marked(mask, at, n) == mask[..at] + seq(n, _ => true) + mask[at + n..]
  {
  }

  /** Marking adds at most as many addresses as it marks, and exactly that many when none was marked. */
  lemma MarkedCount(mask: seq<bool>, at: nat, n: nat)
    requires at + n <= |mask|
    ensures Count(Marked(mask, at, n)) <= Count(mask) + n
    ensures Count(Marked(mask, at, n)) == Count(mask) + n <==> forall a :: at <= a < at + n ==> !mask[a]
  {
    var a, b, c, b' := mask[..at], mask[at..at + n], mask[at + n..], seq(n, _ => true);
    MarkedSplit(mask, at, n);
    CountConcat(a, b);
    CountConcat(a + b, c);
    CountConcat(a, b');
    CountConcat(a + b', c);
    CountBounds(b);
    CountBounds(b');
    assert Count(b) == 0 <==> forall x :: at <= x < at + n ==> !mask[x] by {
      assert forall x :: at <= x < at + n ==> mask[x] == b[x - at];
    }
  }

  /** No span touches a marked address, and no two spans touch each other. */
  ghost predicate Disjoint(mask: seq<bool>, spans: seq<Span>) {
    && (forall i, a :: 0 <= i < |spans| && 0 <= a < |mask| && spans[i].Covers(a) ==> !mask[a])
    && (forall i, j, a :: 0 <= i < j < |spans| && spans[i].Covers(a) ==> !spans[j].Covers(a))
  }

  lemma DisjointSplit(mask: seq<bool>, spans: seq<Span>)
    requires spans != [] && spans[0].base + |spans[0].bytes| <= |mask|
    ensures var s := spans[0];
            Disjoint(mask, spans) <==>
              (forall a :: s.base <= a < s.base + |s.bytes| ==> !mask[a])
              && Disjoint(Marked(mask, s.base, |s.bytes|), spans[1..])
  {
    var s, rest := spans[0], spans[1..];
    var m := Marked(mask, s.base, |s.bytes|);
    if Disjoint(mask, spans) {
      forall a | s.base <= a < s.base + |s.bytes| ensures !mask[a] { assert spans[0].Covers(a); }
      forall i, a | 0 <= i < |rest| && 0 <= a < |m| && rest[i].Covers(a) ensures !m[a] {
        assert rest[i] == spans[i + 1];
      }
    }
    if (forall a :: s.base <= a < s.base + |s.bytes| ==> !mask[a]) && Disjoint(m, rest) {
      forall i, a | 0 <= i < |spans| && 0 <= a < |mask| && spans[i].Covers(a) ensures !mask[a] {
        if i > 0 { assert rest[i - 1].Covers(a) && !m[a]; }
      }
      forall i, j, a | 0 <= i < j < |spans| && spans[i].Covers(a) ensures !spans[j].Covers(a) {
        assert spans[j] == rest[j - 1];
        if i > 0 { assert spans[i] == rest[i - 1]; } else { assert m[a]; }
      }
    }
  }

  lemma NoSpans(mask: seq<bool>)
    ensures Disjoint(mask, []) && Total([]) == 0
  {
  }

  /** One record more, for the addresses loaded in the end. */
  lemma SpanCount(mask: seq<bool>, end: seq<bool>, spans: seq<Span>)
    requires spans != [] && spans[0].base + |spans[0].bytes| <= |mask|
    requires var m := Marked(mask, spans[0].base, |spans[0].bytes|);
             && Count(end) <= Count(m) + Total(spans[1..])
             && (Count(end) == Count(m) + Total(spans[1..]) <==> Disjoint(m, spans[1..]))
    ensures Count(end) <= Count(mask) + Total(spans)
    ensures Count(end) == Count(mask) + Total(spans) <==> Disjoint(mask, spans)
  {
    hide Marked, Disjoint, Count;
    MarkedCount(mask, spans[0].base, |spans[0].bytes|);
    DisjointSplit(mask, spans);
  }

  /** The byte count never falls short of the number of loaded addresses, and is exact precisely when no
      two records overlap. */
  lemma {:induction false} ByteCountExact(l: Loader, rs: seq<Record>)
    requires l.Valid() && AllInRange(l, rs)
    ensures var t, spans := ApplyAll(l, rs), Spans(l.extended, rs);
            && Count(t.mask) <= Count(l.mask) + Total(spans)
            && (Count(t.mask) == Count(l.mask) + Total(spans) <==> Disjoint(l.mask, spans))
    decreases |rs|
  {
    hide Overlaid, Marked, Disjoint, Count, Total, Extends;
    if rs == [] {
      NoSpans(l.mask);
    } else {
      var l', spans := Apply(l, rs[0]), Spans(l.extended, rs);
      var rest := Spans(l'.extended, rs[1..]);
      assert ApplyAll(l, rs) == ApplyAll(l', rs[1..]);
      ByteCountExact(l', rs[1..]);
      hide ApplyAll, AllInRange;
      if rs[0].Data? {
        assert spans[1..] == rest;
        hide Spans;
        SpanCount(l.mask, ApplyAll(l, rs).mask, spans);
      }
    }
  }

  // ---------------------------------------------------------------- upper and lower case

  function Lowered(line: string): (r: string)
    ensures |r| == |line|
  {
    seq(|line|, i requires 0 <= i < |line| =>
      match line[i]
      case 'A' => 'a' case 'B' => 'b' case 'C' => 'c' case 'D' => 'd' case 'E' => 'e' case 'F' => 'f'
      case c => c)
  }

  lemma SameDigit(line: string, i: nat)
    requires i < |line|
    ensures HexValue(Lowered(line)[i]) == HexValue(line[i])
  {
  }

  /** Digits may be in lower case. */
  lemma CaseIgnored(l: Loader, line: string)
    requires l.Valid()
    ensures ParseLine(l, Lowered(line)) == ParseLine(l, line)
  {
    hide ParseFields;
    var low := Lowered(line);
    if line != [] {
      forall k | 0 <= k < |FieldsOf(line)| ensures FieldsOf(low)[k] == FieldsOf(line)[k] {
        SameDigit(line, 1 + 2 * k);
        SameDigit(line, 2 + 2 * k);
      }
      hide FieldsOf;
      assert FieldsOf(low) == FieldsOf(line);
    }
  }

  // ---------------------------------------------------------------- malformed lines

  /** A line is rejected and has no effect if it is too short, has no colon, announces more bytes than it has room for,
      or if its length, address or type is not written in digits. */
  lemma MalformedRejected(l: Loader, line: string)
    requires l.Valid()
    requires |line| < 11 || line[0] != ':' || !(forall i :: 1 <= i < 9 ==> HexValue(line[i]).Some?)
             || |line| < 11 + 2 * (16 * HexValue(line[1]).value + HexValue(line[2]).value)
    ensures ParseLine(l, line) == (l, false)
  {
    if |line| >= 11 && line[0] == ':' {
      var fs := FieldsOf(line);
      assert fs[0] == Hex2(line, 1) && fs[1] == Hex2(line, 3) && fs[2] == Hex2(line, 5) && fs[3] == Hex2(line, 7);
    }
  }

  lemma {:induction false} PrefixEnds(fs: Fields, bs: seq<byte>, k: nat, n: nat)
    requires k <= |bs| < k + n <= |fs| && Spells(fs, bs) && fs[|bs|].None?
    ensures DataPrefix(fs, k, n) == bs[k..]
    decreases n
  {
    if k < |bs| { PrefixEnds(fs, bs, k + 1, n - 1); }
  }

  /** A data line with a pair that is no digits: it is rejected, but the bytes before the pair have been stored and the
      length it announces has been counted. */
  lemma BadPairStored(l: Loader, fs: Fields, bs: seq<byte>, n: byte, base: nat)
    requires l.Valid() && |fs| >= 5 + n && 4 <= |bs| < 4 + n as int && Spells(fs, bs) && fs[|bs|].None?
    requires bs[0] == n && bs[3] == 0 && base == Word(bs[2], bs[1]) + l.extended && Passes(base, n)
    ensures ParseFields(l, fs) == (Stored(l, Origin(base), bs[4..], n), false)
    ensures Stored(l, Origin(base), bs[4..], n).byteCount == l.byteCount + n
  {
    PrefixEnds(fs, bs, 4, n);
  }

  // ---------------------------------------------------------------- damaged records

  lemma {:induction false} SumUpdate(s: seq<byte>, k: nat, v: byte)
    requires k < |s|
    ensures Sum(s[k := v]) == Sum(s) - s[k] + v
  {
    assert s == s[..k] + [s[k]] + s[k + 1..];
    assert s[k := v] == s[..k] + [v] + s[k + 1..];
    SumConcat(s[..k], [s[k]]);
    SumConcat(s[..k] + [s[k]], s[k + 1..]);
    SumConcat(s[..k], [v]);
    SumConcat(s[..k] + [v], s[k + 1..]);
  }

  /** Two sums that close are the same or at least 256 apart. */
  lemma {:induction false} ClosesApart(x: nat, y: nat)
    requires Closes(x) && Closes(y) && x < y
    ensures x + 256 <= y
  {
    if x > 0 { ClosesApart(x - 256, y - 256); }
  }

  lemma DamagedSum(bs: seq<byte>, k: nat, v: byte)
    requires Closes(Sum(bs)) && k < |bs| && v != bs[k]
    ensures !Closes(Sum(bs[k := v]))
  {
    SumUpdate(bs, k, v);
    var x, y := Sum(bs), Sum(bs[k := v]);
    if Closes(y) {
      if x < y { ClosesApart(x, y); } else { ClosesApart(y, x); }
    }
  }

  /** Any other value for any one byte of a data record, its length and type aside, makes the line
      rejected, in every state of the reader. */
  lemma DamageDetected(l: Loader, r: Record, k: nat, v: byte)
    requires l.Valid() && r.Data?
    requires k < |RecordBytes(r)| && k != 0 && k != 3 && v != RecordBytes(r)[k]
    ensures !ParseLine(l, Line(RecordBytes(r)[k := v])).1
  {
    var bad := RecordBytes(r)[k := v];
    ChecksumCloses(Body(r));
    DamagedSum(RecordBytes(r), k, v);
    ParseWritten(l, bad, |r.bytes|);
    DataLine(l, FieldsOf(Line(bad)), bad, Word(bad[2], bad[1]) + l.extended, |r.bytes|);
  }

  lemma AddressIgnored(l: Loader, fs: Fields, bs: seq<byte>, linear: bool)
    requires l.Valid() && |bs| == 7 && bs[0] == 2 && Spells(fs, bs) && !Closes(Sum(bs))
    ensures ExtendedRecord(l, fs, 2 + bs[1] as int + bs[2] + bs[3], linear) == l
  {
    hide Closes;
    SumOfLine(bs, 2);
    SumConcat([bs[4]], [bs[5]]);
    assert bs[4..6] == [bs[4]] + [bs[5]];
    assert Sum([bs[4]]) == bs[4] && Sum([bs[5]]) == bs[5];
  }

  /** The type byte is not protected: with any other type than data the line of a record that passes the range check
      is accepted and its data is silently dropped; type 1 ends the file, and no other has an effect. */
  lemma TypeDamageAccepted(l: Loader, r: Record, v: byte)
    requires l.Valid() && r.Data? && v != 0
    ensures var (t, ok) := ParseLine(l, Line(RecordBytes(r)[3 := v]));
            && (ok <==> Passes(r.addr + l.extended, |r.bytes|))
            && t == if ok && v == 1 then l.(ended := true) else l
  {
    hide Closes, Sum, Checksum, FieldsOf, DataRecord, ExtendedRecord, Line, ParseLine;
    var bad, fs := RecordBytes(r)[3 := v], FieldsOf(Line(RecordBytes(r)[3 := v]));
    ParseWritten(l, bad, |r.bytes|);
    assert Word(bad[2], bad[1]) == r.addr;
    if |r.bytes| == 2 {
      ChecksumCloses(Body(r));
      DamagedSum(RecordBytes(r), 3, v);
      AddressIgnored(l, fs, bad, v == 4);
    }
  }

  /** So it is with address records: with any one byte of the address or the checksum changed the line is accepted and
      has no effect. */
  lemma AddressDamageIgnored(l: Loader, r: Record, k: nat, v: byte)
    requires l.Valid() && !r.Data? && 4 <= k <= 6 && v != RecordBytes(r)[k] && InRange(l, r)
    ensures ParseLine(l, Line(RecordBytes(r)[k := v])) == (l, true)
  {
    hide Closes, Sum, Checksum, FieldsOf, ExtendedRecord, Line, ParseLine;
    var bad, fs := RecordBytes(r)[k := v], FieldsOf(Line(RecordBytes(r)[k := v]));
    ParseWritten(l, bad, 2);
    ChecksumCloses(Body(r));
    DamagedSum(RecordBytes(r), k, v);
    AddressIgnored(l, fs, bad, r.Linear?);
  }

  /** A damaged length byte: a larger length is always detected, a smaller one exactly when the bytes up to where
      the checksum is then looked for do not add up to zero. */
  lemma LengthDamageExact(l: Loader, r: Record, v: byte)
    requires l.Valid() && r.Data? && v as int != |r.bytes|
    ensures var bad := RecordBytes(r)[0 := v];
            ParseLine(l, Line(bad)).1 <==>
              v as int < |r.bytes| && Passes(r.addr + l.extended, v) && Closes(Sum(bad[..v as int + 5]))
  {
    hide Closes, Sum, Checksum, ParseFields, ParseLine, Line, Stored, FieldsOf;
    var bad, n: nat := RecordBytes(r)[0 := v], v;
    LineRead(l, bad, n);
    if n < |r.bytes| {
      DataLine(l, FieldsOf(Line(bad)), bad[..n + 5], r.addr as int + l.extended, n);
    }
  }

  // ---------------------------------------------------------------- the range check

  /** How the line of any data record is read: it is accepted exactly when its range passes the check. */
  lemma WrittenData(l: Loader, r: Record)
    requires l.Valid() && r.Data?
    ensures var base, n := r.addr + l.extended, |r.bytes|;
            ParseLine(l, Line(RecordBytes(r))) ==
              if Passes(base, n) then (Stored(l, Origin(base), r.bytes, n), true) else (l, false)
  {
    hide Closes, Sum, Checksum, ParseFields, ParseLine, Line, FieldsOf, Stored;
    var bs, n := RecordBytes(r), |r.bytes|;
    ParseWritten(l, bs, n);
    ChecksumCloses(Body(r));
    assert bs[4..4 + n] == r.bytes;
    DataLine(l, FieldsOf(Line(bs)), bs, r.addr as int + l.extended, n);
  }

  /** The check and the stores agree but for one extended address: the line of a data record stores outside of the
      image exactly when the extended address is 0xFFFF0000 and the record reaches the end of its 64KB. */
  lemma StrayExact(l: Loader, r: Record)
    requires l.Valid() && r.Data?
    ensures var t := ParseLine(l, Line(RecordBytes(r))).0;
            t.stray <==> l.stray || (l.extended == 0xFFFF_0000 && r.addr + |r.bytes| >= 0x1_0000)
  {
    hide ParseLine, Line, RecordBytes, Overlaid, Marked;
    WrittenData(l, r);
    PassesExact(r.addr + l.extended, |r.bytes|);
  }

  lemma ReadTwo(l: Loader, l1: Loader, l2: Loader, line1: string, line2: string)
    requires l.Valid() && !l.ended && l1.Valid() && !l1.ended && l2.Valid()
    requires ParseLine(l, line1) == (l1, true) && ParseLine(l1, line2) == (l2, true)
    ensures ReadLines(l, [line1, line2]) == (l2, true)
  {
    hide ParseLine;
    assert [line1, line2][1..] == [line2] && [line2][1..] == [];
    assert ReadLines(l2, []) == (l2, true);
    assert ReadLines(l1, [line2]) == (l2, true);
  }

  lemma TwoLines(r1: Record, r2: Record)
    ensures Lines([r1, r2]) == [Line(RecordBytes(r1)), Line(RecordBytes(r2))]
  {
    hide Line, RecordBytes;
    assert [r1, r2][1..] == [r2] && [r2][1..] == [];
    assert Lines([r2]) == [Line(RecordBytes(r2))] by { assert Lines([]) == []; }
  }

  /** The shortest such files, of two lines: each is read without complaint. What lies before the end of the
      64KB goes outside of the image, and what is left over lands at address zero. */
  lemma StrayFile(upper: Record, r: Record)
    requires upper == Linear(0xFFFF) && r.Data? && r.addr + |r.bytes| >= 0x1_0000
    ensures var (l, ok) := ReadLines(EMPTY, Lines([upper, r]));
            ok && l.stray && l.image == Overlaid(EMPTY.image, r.addr - 0x1_0000, r.bytes)
  {
    hide ParseLine, Line, Lines, RecordBytes, Overlaid, Marked, ReadLines;
    var l := Apply(EMPTY, upper);
    ReadRecord(EMPTY, upper);
    WrittenData(l, r);
    TwoLines(upper, r);
    var line1, line2 := Line(RecordBytes(upper)), Line(RecordBytes(r));
    ReadTwo(EMPTY, l, ParseLine(l, line2).0, line1, line2);
  }
}
