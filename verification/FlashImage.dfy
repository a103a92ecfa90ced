/**
 The image a page-wise download leaves in flash, and the page-by-page argument that loading words into
 the temporary buffer, committing and erasing arrives at it.
 */
module FlashImage {
  import opened Bytes
  import opened Hardware

  /** Index into a download at `start` of the byte that ends up at address `a`: the temporary buffer
      is addressed modulo the page, so the part of a page below `start`'s offset takes bytes one page
      further on. */
  function Slot(p: nat, start: nat, a: nat): int
    requires 0 < p
  {
    a - start + (if Offset(p, a) < Offset(p, start) then p else 0)
  }

  /** Pages are counted from the one that holds `start`; a page is touched when the download still
      has bytes left for it. */
  predicate Touched(p: nat, start: nat, n: int, a: nat)
    requires 0 < p
  {
    PageStart(p, start) <= a && PageStart(p, a) - PageStart(p, start) < n
  }

  /** Flash after downloading `bytes` to `start`. */
  function Programmed(mem: seq<byte>, p: nat, start: nat, bytes: seq<byte>): (r: seq<byte>)
    requires 0 < p
    ensures |r| == |mem|
  {
    seq(|mem|, a requires 0 <= a < |mem| =>
      if Touched(p, start, |bytes|, a) then
        var i := Slot(p, start, a);
        if 0 <= i < |bytes| then bytes[i] else ERASED
      else mem[a])
  }

  // ---------------------------------------------------------------- programming, page by page

  /** Distance from offset `s` to offset `o`, going round the page. */
  function Around(p: nat, s: nat, o: int): int {
    o - s + (if o < s then p else 0)
  }

  /** Flash in the middle of a download whose first page is at `q`: the pages before distance `c` hold their
      final bytes, and the one at distance `c` is erased. */
  function Partly(mem0: seq<byte>, final: seq<byte>, p: nat, q: nat, c: nat): (r: seq<byte>)
    requires |final| == |mem0|
    ensures |r| == |mem0|
  {
    seq(|mem0|, a requires 0 <= a < |mem0| =>
      if q <= a < q + c then final[a] else if q + c <= a < q + c + p then ERASED else mem0[a])
  }

  /** The temporary buffer with `fw[c..pos]`, whose first byte belongs at offset `s`. */
  function Buffered(p: nat, s: nat, fw: seq<byte>, c: nat, pos: nat): (r: seq<byte>)
    requires s < p && c <= pos <= |fw|
    ensures |r| == p
  {
    seq(p, o requires 0 <= o < p => if Around(p, s, o) < pos - c then fw[c + Around(p, s, o)] else ERASED)
  }

  /** A download stands at byte `pos`, with the pages up to byte `c` committed. */
  ghost predicate MidPage(mem0: seq<byte>, final: seq<byte>, mem: seq<byte>, temp: seq<byte>, filled: set<int>,
                          p: nat, q: nat, s: nat, fw: seq<byte>, c: nat, pos: nat)
    requires 0 < p
  {
    && |final| == |mem0| && s < p && c <= pos <= |fw| && Offset(p, c) == 0 && pos - c <= p
    && mem == Partly(mem0, final, p, q, c)
    && temp == Buffered(p, s, fw, c, pos)
    && forall o :: o in filled ==> 0 <= o < p && Around(p, s, o) < pos - c
  }

  /** Whole pages do not change the offset. */
  lemma {:induction false} OffsetPastPages(p: nat, q: nat, a: nat)
    requires 0 < p && Offset(p, q) == 0
    ensures Offset(p, q + a) == Offset(p, a)
  {
    if q > 0 { OffsetPastPages(p, q - p, a); }
  }

  /** A page start plus a whole number of pages is a page start, and offsets below it count from it. */
  lemma {:induction false} PageFacts(p: nat, q: nat, c: nat, o: nat)
    requires o < p && Offset(p, q) == 0 && Offset(p, c) == 0
    ensures Offset(p, q + c) == 0 && Offset(p, q + c + p) == 0
    ensures Offset(p, q + c + o) == o && PageStart(p, q + c + o) == q + c
  {
    OffsetPastPages(p, q, c);
    OffsetPastPages(p, q + c, p);
    OffsetPastPages(p, q + c, o);
  }

  lemma {:induction false} InPage(p: nat, q: nat, o: nat)
    requires o < p && Offset(p, q) == 0
    ensures PageStart(p, q + o) == q
  {
    OffsetPastPages(p, q, o);
  }

  lemma {:induction false} PageStartAligned(p: nat, a: nat)
    requires 0 < p
    ensures Offset(p, PageStart(p, a)) == 0
  {
    if a >= p { PageStartAligned(p, a - p); }
  }

  /** No page starts below `q`, itself a page start, and reaches past it. */
  lemma {:induction false} PageFloor(p: nat, q: nat, a: nat)
    requires 0 < p && Offset(p, q) == 0 && q <= a
    ensures q <= PageStart(p, a) <= a
  {
    if q > 0 { PageFloor(p, q - p, a - p); }
  }

  /** Memory ends on a page boundary, so a page that starts inside it ends inside it. */
  lemma {:induction false} PageRoom(p: nat, q: nat, size: nat)
    requires 0 < p && Offset(p, q) == 0 && Offset(p, size) == 0 && q < size
    ensures q + p <= size
  {
    if q > 0 { PageRoom(p, q - p, size - p); }
  }

  /** Offset of the `pos`-th byte of a download whose current page started at byte `c`. */
  lemma {:induction false} OffsetFacts(p: nat, q: nat, s: nat, c: nat, pos: nat)
    requires IsPageSize(p) && Offset(p, q) == 0 && 0 <= s < p && Offset(p, c) == 0 && 0 <= pos - c < p
    ensures var o := Offset(p, q + s + pos); 0 <= o < p && Around(p, s, o) == pos - c
  {
    var d := s + pos - c;
    PageFacts(p, q, c, s);
    if d < p { PageFacts(p, q, c, d); } else { PageFacts(p, q + c, p, d - p); }
  }

  /** The slot of the next word: both its bytes are inside the page, one after the other. */
  lemma {:induction false} WordSlot(p: nat, q: nat, s: nat, c: nat, pos: nat)
    requires IsPageSize(p) && Offset(p, q) == 0 && 0 <= s < p && Offset(p, c) == 0 && 0 <= pos - c < p
    requires s % 2 == 0 && pos % 2 == 0
    ensures var o := Offset(p, q + s + pos);
            && 0 <= o && o + 1 < p && pos + 2 - c <= p
            && Around(p, s, o) == pos - c && Around(p, s, o + 1) == pos - c + 1
  {
    OffsetFacts(p, q, s, c, pos);
    OffsetParity(p, q);
    OffsetParity(p, c);
    OffsetParity(p, q + s + pos);
  }

  /** Loading the next word keeps `MidPage`, and finds its slot unused. */
  lemma {:induction false} FillStep(mem0: seq<byte>, final: seq<byte>, mem: seq<byte>, temp: seq<byte>,
                                    filled: set<int>, p: nat, q: nat, s: nat, fw: seq<byte>, c: nat, pos: nat, o: int)
    requires IsPageSize(p) && MidPage(mem0, final, mem, temp, filled, p, q, s, fw, c, pos)
    requires Offset(p, q) == 0 && s % 2 == 0 && pos % 2 == 0 && pos + 2 <= |fw| && pos - c < p
    requires o == Offset(p, q + s + pos)
    ensures o !in filled && 0 <= o && o + 1 < p && pos + 2 - c <= p
    ensures MidPage(mem0, final, mem, temp[o := fw[pos]][o + 1 := fw[pos + 1]], filled + {o}, p, q, s, fw, c, pos + 2)
  {
    WordSlot(p, q, s, c, pos);
    assert temp[o := fw[pos]][o + 1 := fw[pos + 1]] == Buffered(p, s, fw, c, pos + 2);
  }

  /** Which byte of a download belongs at an address of its page at distance `c`. */
  lemma {:induction false} SlotInPage(p: nat, q: nat, s: nat, c: nat, a: nat)
    requires s < p && Offset(p, q) == 0 && Offset(p, c) == 0 && q + c <= a < q + c + p
    ensures Slot(p, q + s, a) == c + Around(p, s, a - q - c)
    ensures PageStart(p, a) == q + c && PageStart(p, q + s) == q
  {
    assert Offset(p, a) == a - q - c by { PageFacts(p, q, c, a - q - c); }
    assert Offset(p, q + s) == s by { PageFacts(p, q, 0, s); }
  }

  /** What the finished download leaves in its page at distance `c`. */
  lemma {:induction false} FinalPage(mem0: seq<byte>, p: nat, q: nat, s: nat, fw: seq<byte>, c: nat, a: nat)
    requires s < p && Offset(p, q) == 0 && Offset(p, c) == 0 && c < |fw|
    requires q + c <= a < q + c + p && a < |mem0|
    ensures var i := c + Around(p, s, a - q - c);
            Programmed(mem0, p, q + s, fw)[a] == if i < |fw| then fw[i] else ERASED
  {
    SlotInPage(p, q, s, c, a);
  }

  /** Outside its pages a finished download changes nothing. */
  lemma {:induction false} FinalElsewhere(mem0: seq<byte>, p: nat, q: nat, s: nat, fw: seq<byte>, c: nat, a: nat)
    requires s < p && Offset(p, q) == 0 && Offset(p, c) == 0 && c < |fw| <= c + p
    requires 0 <= a < |mem0| && !(q <= a < q + c + p)
    ensures Programmed(mem0, p, q + s, fw)[a] == mem0[a]
  {
    PageFacts(p, q, 0, s);
    PageFacts(p, q, c, 0);
    if q + c + p <= a { PageFloor(p, q + c + p, a); }
  }

  /** `mem` with `bytes` at the start of the page at `a`, and the rest of that page erased. */
  function PageHolding(mem: seq<byte>, p: nat, a: nat, bytes: seq<byte>): (r: seq<byte>)
    ensures |r| == |mem|
  {
    seq(|mem|, x requires 0 <= x < |mem| =>
      if a <= x < a + |bytes| then bytes[x - a] else if a <= x < a + p then ERASED else mem[x])
  }

  lemma {:induction false} AlignedAt(mem: seq<byte>, p: nat, a: nat, bytes: seq<byte>, x: nat)
    requires 0 < |bytes| <= p && Offset(p, a) == 0 && x < |mem|
    ensures Programmed(mem, p, a, bytes)[x] == PageHolding(mem, p, a, bytes)[x]
  {
    if a <= x < a + p {
      FinalPage(mem, p, a, 0, bytes, 0, x);
    } else {
      FinalElsewhere(mem, p, a, 0, bytes, 0, x);
    }
  }

  /** A download from a page boundary that stays within the page. */
  lemma {:induction false} AlignedPage(mem: seq<byte>, p: nat, a: nat, bytes: seq<byte>)
    requires 0 < |bytes| <= p && Offset(p, a) == 0
    ensures Programmed(mem, p, a, bytes) == PageHolding(mem, p, a, bytes)
  {
    var r, w := Programmed(mem, p, a, bytes), PageHolding(mem, p, a, bytes);
    forall x | 0 <= x < |mem| ensures r[x] == w[x] { AlignedAt(mem, p, a, bytes, x); }
  }

  /** Programming the loaded page completes it. */
  lemma {:induction false} CommitAt(mem0: seq<byte>, p: nat, q: nat, s: nat, fw: seq<byte>, c: nat, pos: nat, a: nat)
    requires s < p && Offset(p, q) == 0 && Offset(p, c) == 0 && c < |fw| && a < |mem0|
    requires c <= pos <= |fw| && (pos == |fw| || pos == c + p)
    ensures var final := Programmed(mem0, p, q + s, fw);
            WithCommitted(Partly(mem0, final, p, q, c), q + c, Buffered(p, s, fw, c, pos))[a]
            == if q <= a < q + c + p then final[a] else mem0[a]
  {
    if q + c <= a < q + c + p {
      FinalPage(mem0, p, q, s, fw, c, a);
      AndErased(Buffered(p, s, fw, c, pos)[a - q - c]);
    }
  }

  /** A full page is committed and the next one erased. */
  lemma {:induction false} CommitStep(mem0: seq<byte>, p: nat, q: nat, s: nat, fw: seq<byte>, c: nat)
    requires s < p && Offset(p, q) == 0 && Offset(p, c) == 0 && c + p <= |fw|
    ensures Offset(p, c + p) == 0
    ensures var final := Programmed(mem0, p, q + s, fw);
            WithErased(WithCommitted(Partly(mem0, final, p, q, c), q + c, Buffered(p, s, fw, c, c + p)), q + c + p, p)
            == Partly(mem0, final, p, q, c + p)
  {
    PageFacts(p, c, 0, 0);
    var final := Programmed(mem0, p, q + s, fw);
    var r := WithCommitted(Partly(mem0, final, p, q, c), q + c, Buffered(p, s, fw, c, c + p));
    forall a | 0 <= a < |mem0| ensures r[a] == if q <= a < q + c + p then final[a] else mem0[a] {
      CommitAt(mem0, p, q, s, fw, c, c + p, a);
    }
  }

  /** A blank buffer is one nothing has been loaded to. */
  lemma {:induction false} BlankBuffer(temp: seq<byte>, p: nat, s: nat, fw: seq<byte>, c: nat)
    requires |temp| == p && s < p && c <= |fw| && forall o :: 0 <= o < p ==> temp[o] == ERASED
    ensures temp == Buffered(p, s, fw, c, c)
  {
  }

  /** The last page, full or not, completes the download. */
  lemma {:induction false} LastCommit(mem0: seq<byte>, p: nat, q: nat, s: nat, fw: seq<byte>, c: nat)
    requires s < p && Offset(p, q) == 0 && Offset(p, c) == 0 && c < |fw| <= c + p
    ensures var final := Programmed(mem0, p, q + s, fw);
            WithCommitted(Partly(mem0, final, p, q, c), q + c, Buffered(p, s, fw, c, |fw|)) == final
  {
    var final := Programmed(mem0, p, q + s, fw);
    var r := WithCommitted(Partly(mem0, final, p, q, c), q + c, Buffered(p, s, fw, c, |fw|));
    forall a | 0 <= a < |mem0| ensures r[a] == final[a] {
      CommitAt(mem0, p, q, s, fw, c, |fw|, a);
      if !(q <= a < q + c + p) { FinalElsewhere(mem0, p, q, s, fw, c, a); }
    }
  }

  /** What was in the first page does not matter once it has been programmed over. */
  lemma {:induction false} ProgrammedOverErased(mem: seq<byte>, p: nat, start: nat, fw: seq<byte>)
    requires 0 < p && fw != []
    ensures Programmed(WithErased(mem, PageStart(p, start), p), p, start, fw) == Programmed(mem, p, start, fw)
  {
    var q := PageStart(p, start);
    PageStartAligned(p, start);
    var r, r' := Programmed(WithErased(mem, q, p), p, start, fw), Programmed(mem, p, start, fw);
    forall a | 0 <= a < |r| ensures r[a] == r'[a] {
      if q <= a < q + p { PageFacts(p, q, 0, a - q); }
    }
  }

  /** Committing a blank buffer over an erased page changes nothing. */
  lemma {:induction false} CommitBlank(mem: seq<byte>, q: nat, p: nat, temp: seq<byte>)
    requires |temp| == p && forall o :: 0 <= o < p ==> temp[o] == ERASED
    ensures WithCommitted(WithErased(mem, q, p), q, temp) == WithErased(mem, q, p)
  {
    AndErased(ERASED);
  }

  /** One page: erased, loaded with at most a page of bytes, committed. */
  lemma {:induction false} OnePage(mem0: seq<byte>, p: nat, q: nat, s: nat, fw: seq<byte>)
    requires s < p && Offset(p, q) == 0 && 0 < |fw| <= p
    ensures var mem := WithErased(mem0, q, p);
            WithCommitted(Partly(mem, Programmed(mem, p, q + s, fw), p, q, 0), q, Buffered(p, s, fw, 0, |fw|))
            == Programmed(mem0, p, q + s, fw)
  {
    assert PageStart(p, q + s) == q by { InPage(p, q, s); }
    LastCommit(WithErased(mem0, q, p), p, q, s, fw, 0);
    ProgrammedOverErased(mem0, p, q + s, fw);
  }

  /** The same with nothing loaded. */
  lemma {:induction false} EmptyPage(mem0: seq<byte>, p: nat, q: nat, s: nat)
    requires s < p
    ensures var mem := WithErased(mem0, q, p);
            WithCommitted(Partly(mem, Programmed(mem, p, q + s, []), p, q, 0), q, Buffered(p, s, [], 0, 0)) == mem
  {
    var mem := WithErased(mem0, q, p);
    assert Partly(mem, Programmed(mem, p, q + s, []), p, q, 0) == mem;
    CommitBlank(mem0, q, p, Buffered(p, s, [], 0, 0));
  }

  // ---------------------------------------------------------------- loading the page buffer

  /** The flash stands in the middle of a download of `fw`; see `MidPage`. */
  ghost predicate Loading(flash: Flash, mem0: seq<byte>, q: nat, s: nat, fw: seq<byte>, c: nat, pos: nat)
    reads flash
  {
    && flash.Valid() && Offset(flash.pageSize, q) == 0 && s % 2 == 0
    && q + c in flash.erased
    && MidPage(mem0, Programmed(mem0, flash.pageSize, q + s, fw), flash.mem, flash.temp, flash.filled,
               flash.pageSize, q, s, fw, c, pos)
  }

  /** With its first page erased and the buffer blank, a download can begin. */
  lemma {:induction false} BeginLoading(flash: Flash, start: nat, fw: seq<byte>)
    requires flash.Valid() && flash.Blank() && start % 2 == 0
    requires PageStart(flash.pageSize, start) in flash.erased
    requires flash.mem == WithErased(flash.mem, PageStart(flash.pageSize, start), flash.pageSize)
    ensures Loading(flash, flash.mem, PageStart(flash.pageSize, start), Offset(flash.pageSize, start), fw, 0, 0)
  {
    var p, q := flash.pageSize, PageStart(flash.pageSize, start);
    PageStartAligned(p, start);
    OffsetParity(p, start);
    BlankBuffer(flash.temp, p, Offset(p, start), fw, 0);
    assert flash.mem == Partly(flash.mem, Programmed(flash.mem, p, start, fw), p, q, 0);
  }

  /** boot_page_fill in a download: the word goes to its slot of the page buffer. */
  method LoadWord(flash: Flash, addr: nat, w: word,
                  ghost mem0: seq<byte>, ghost q: nat, ghost s: nat, ghost fw: seq<byte>, ghost c: nat, ghost pos: nat)
    requires Loading(flash, mem0, q, s, fw, c, pos) && pos % 2 == 0
    requires addr == q + s + pos && pos - c < flash.pageSize && pos + 2 <= |fw|
    requires w == Word(fw[pos], fw[pos + 1])
    modifies flash
    ensures flash.mem == old(flash.mem) && flash.erased == old(flash.erased)
    ensures Loading(flash, mem0, q, s, fw, c, pos + 2)
  {
    hide Partly, Programmed, Buffered, Around;
    var p := flash.pageSize;
    OffsetParity(p, q);
    WordBytes(fw[pos], fw[pos + 1]);
    FillStep(mem0, Programmed(mem0, p, q + s, fw), flash.mem, flash.temp, flash.filled,
             p, q, s, fw, c, pos, Offset(p, q + s + pos));
    flash.Fill(addr, w);
  }

  /** With all bytes loaded, committing the page completes the download. */
  lemma {:induction false} LastPageLoaded(flash: Flash, mem0: seq<byte>, q: nat, s: nat, fw: seq<byte>, c: nat)
    requires Loading(flash, mem0, q, s, fw, c, |fw|) && c < |fw| && q + |fw| <= |flash.mem|
    ensures var a := q + s + c;
            && a < |flash.mem| && PageStart(flash.pageSize, a) in flash.erased
            && WithCommitted(flash.mem, PageStart(flash.pageSize, a), flash.temp)
               == Programmed(mem0, flash.pageSize, q + s, fw)
  {
    hide Partly, Programmed, Buffered, WithCommitted, Offset, PageStart;
    PageFacts(flash.pageSize, q, c, s);
    PageRoom(flash.pageSize, q + c, |flash.mem|);
    LastCommit(mem0, flash.pageSize, q, s, fw, c);
  }

  /** Commits the last page of a download. */
  method FinishLast(flash: Flash, pageAddress: nat,
                    ghost mem0: seq<byte>, ghost q: nat, ghost s: nat, ghost fw: seq<byte>, ghost c: nat)
    requires pageAddress == q + s + c && Loading(flash, mem0, q, s, fw, c, |fw|) && c < |fw| && q + |fw| <= |flash.mem|
    modifies flash
    ensures flash.Valid() && flash.Blank() && flash.mem == Programmed(mem0, flash.pageSize, q + s, fw)
  {
    LastPageLoaded(flash, mem0, q, s, fw, c);
    hide MidPage, Programmed, WithCommitted, Offset, PageStart;
    flash.Commit(pageAddress);
  }

  /** boot_page_write of one page, boot_page_erase of the next. */
  method CommitThenErase(flash: Flash, pageAddress: nat, currAddress: nat, ghost a: nat, ghost b: nat)
    requires flash.Valid() && pageAddress < |flash.mem| && currAddress < |flash.mem|
    requires PageStart(flash.pageSize, pageAddress) == a && a in flash.erased
    requires PageStart(flash.pageSize, currAddress) == b
    modifies flash
    ensures flash.Valid() && flash.Blank() && b in flash.erased
    ensures flash.mem == WithErased(WithCommitted(old(flash.mem), a, old(flash.temp)), b, flash.pageSize)
  {
    flash.Commit(pageAddress);
    flash.Erase(currAddress);
  }

  /** Where two consecutive pages of a download are. */
  lemma {:induction false} NextPage(p: nat, q: nat, s: nat, c: nat, size: nat)
    requires s < p && Offset(p, q) == 0 && Offset(p, c) == 0 && Offset(p, size) == 0 && q + c + p < size
    ensures q + c + p + s < size
    ensures PageStart(p, q + c + s) == q + c && PageStart(p, q + c + p + s) == q + c + p
  {
    var x, y := q + c, q + c + p;
    assert Offset(p, x) == 0 && Offset(p, y) == 0 by { PageFacts(p, q, c, 0); }
    assert PageStart(p, x + s) == x by { InPage(p, x, s); }
    assert PageStart(p, y + s) == y by { InPage(p, y, s); }
    assert y + p <= size by { PageRoom(p, y, size); }
  }

  /** Commits a full page and erases the next one. */
  method FinishPage(flash: Flash, pageAddress: nat, currAddress: nat,
                    ghost mem0: seq<byte>, ghost q: nat, ghost s: nat, ghost fw: seq<byte>, ghost c: nat)
    requires pageAddress == q + s + c && currAddress == pageAddress + flash.pageSize
    requires c + flash.pageSize < |fw| && q + |fw| <= |flash.mem|
    requires Loading(flash, mem0, q, s, fw, c, c + flash.pageSize)
    modifies flash
    ensures Loading(flash, mem0, q, s, fw, c + flash.pageSize, c + flash.pageSize) && |flash.mem| == |old(flash.mem)|
  {
    hide Partly, Programmed, Buffered, WithCommitted, WithErased, Offset, PageStart, Around;
    ghost var p, a, b := flash.pageSize, q + c, q + c + flash.pageSize;
    assert PageStart(p, pageAddress) == a && PageStart(p, currAddress) == b && currAddress < |flash.mem| by {
      NextPage(p, q, s, c, |flash.mem|);
    }
    CommitStep(mem0, p, q, s, fw, c);
    CommitThenErase(flash, pageAddress, currAddress, a, b);
    BlankBuffer(flash.temp, p, s, fw, c + p);
  }

  /** Stores one word; a full page, or the last one, is committed. */
  method StoreWord(flash: Flash, w: word, currAddress: nat, pageAddress: nat, wordsInPage: nat, last: bool,
                   ghost mem0: seq<byte>, ghost q: nat, ghost s: nat, ghost fw: seq<byte>, ghost c: nat, ghost pos: nat)
    returns (pageAddress': nat, wordsInPage': nat, ghost c': nat)
    requires pos % 2 == 0 && currAddress == q + s + pos && pageAddress == q + s + c
    requires 2 * wordsInPage == pos - c < flash.pageSize
    requires Loading(flash, mem0, q, s, fw, c, pos) && pos + 2 <= |fw| && q + |fw| <= |flash.mem|
    requires w == Word(fw[pos], fw[pos + 1]) && last == (pos + 2 == |fw|)
    modifies flash
    ensures flash.Valid() && |flash.mem| == old(|flash.mem|)
    ensures last ==> flash.Blank() && flash.mem == Programmed(mem0, flash.pageSize, q + s, fw)
    ensures !last ==> Loading(flash, mem0, q, s, fw, c', pos + 2) && pageAddress' == q + s + c'
                      && 2 * wordsInPage' == pos + 2 - c' < flash.pageSize
  {
    hide Partly, Programmed, Buffered, Offset, Around;
    LoadWord(flash, currAddress, w, mem0, q, s, fw, c, pos);
    pageAddress', wordsInPage', c' := pageAddress, wordsInPage + 1, c;
    if wordsInPage' == flash.pageSize / 2 || last {
      if last {
        FinishLast(flash, pageAddress, mem0, q, s, fw, c);
      } else {
        FinishPage(flash, pageAddress, currAddress + 2, mem0, q, s, fw, c);
        pageAddress', wordsInPage', c' := currAddress + 2, 0, pos + 2;
      }
    }
  }

  // ---------------------------------------------------------------- erasing the application section

  /** Flash after the application section has been erased. */
  function ApplicationErased(mem: seq<byte>, bootStart: nat): (r: seq<byte>)
    ensures |r| == |mem|
  {
    seq(|mem|, a requires 0 <= a < |mem| => if a < bootStart then ERASED else mem[a])
  }

  /** Erasing and committing one more page extends the erased part. */
  lemma {:induction false} EraseOnePage(mem: seq<byte>, a: nat, p: nat, temp: seq<byte>)
    requires |temp| == p && forall o :: 0 <= o < p ==> temp[o] == ERASED
    ensures WithCommitted(WithErased(ApplicationErased(mem, a), a, p), a, temp) == ApplicationErased(mem, a + p)
  {
    AndErased(ERASED);
  }

  /** The erase loop of the bootloaders: pages are erased and committed with a blank buffer. */
  method EraseApplication(flash: Flash, bootStart: nat)
    requires flash.Valid() && flash.Blank() && bootStart <= |flash.mem| && Offset(flash.pageSize, bootStart) == 0
    modifies flash
    ensures flash.Valid() && flash.Blank()
    ensures flash.mem == ApplicationErased(old(flash.mem), bootStart)
  {
    var currFlashAddress := 0;
    ghost var mem0, p := flash.mem, flash.pageSize;
    assert mem0 == ApplicationErased(mem0, 0);
    while currFlashAddress < bootStart
      invariant 0 <= currFlashAddress <= bootStart && Offset(p, currFlashAddress) == 0
      invariant flash.Valid() && flash.Blank()
      invariant flash.mem == ApplicationErased(mem0, currFlashAddress)
    {
      PageRoom(p, currFlashAddress, bootStart);
      PageFacts(p, currFlashAddress, 0, 0);
      EraseOnePage(mem0, currFlashAddress, p, flash.temp);
      flash.Erase(currFlashAddress);
      flash.Commit(currFlashAddress);
      currFlashAddress := currFlashAddress + flash.pageSize;
    }
  }
}
