/** Blocks written to and read from the CDC bootloader: what flash and EEPROM then
    hold, what the host reads back, and where the address ends up. */
module CdcBlocks {
  import opened Spm
  import opened Chunks
  import opened Endpoints
  import opened Cdc
  import opened CdcResults

  // ----- flash -----

  function Writes(kind: byte, blocks: seq<seq<byte>>): (ops: seq<Request>)
    ensures |ops| == |blocks|
    decreases |blocks|
  {
    if |blocks| == 0 then [] else [WriteBlock(kind, blocks[0])] + Writes(kind, blocks[1..])
  }

  function Reads(kind: byte, counts: seq<nat>): (ops: seq<Request>)
    ensures |ops| == |counts|
    decreases |counts|
  {
    if |counts| == 0 then [] else [ReadBlock(kind, counts[0])] + Reads(kind, counts[1..])
  }

  /** The response to n commands that succeed. */
  function Acknowledged(n: nat): (r: seq<seq<byte>>)
    ensures |r| == n
  {
    if n == 0 then [] else [[DONE]] + Acknowledged(n - 1)
  }

  /** Full pages, with a possibly shorter even last one. */
  predicate PageBlocks(blocks: seq<seq<byte>>, page: nat)
    decreases |blocks|
  {
    |blocks| > 0 ==>
      && 0 < |blocks[0]| <= page && |blocks[0]| % 2 == 0
      && (|blocks| > 1 ==> |blocks[0]| == page)
      && PageBlocks(blocks[1..], page)
  }

  /** A page-aligned block of at most a page stores exactly its bytes, the rest
      of the page blank. */
  lemma WriteFlashExact(s: Cdc, bytes: seq<byte>)
    requires ValidCdc(s) && BufferEmpty(s.m) && Aligned(s.addr, |s.m.buffer|)
    requires |bytes| <= |s.m.buffer| && |bytes| % 2 == 0 && s.addr + |s.m.buffer| <= |s.m.flash|
    ensures WriteFlash(s, bytes)
            == s.(addr := s.addr + |bytes|,
                  m := Memory(Put(s.m.flash, s.addr, bytes + Blank(|s.m.buffer| - |bytes|)), Blank(|s.m.buffer|)))
  {
    hide Offset, Put, Rewritten;
    RewrittenExact(s.m, s.addr, bytes);
    assert s.m.buffer[|bytes|..] == Blank(|s.m.buffer| - |bytes|);
    assert Even(|bytes|) == |bytes|;
  }

  lemma NothingProgrammed(flash: seq<byte>, page: nat, a: nat)
    requires ValidPage(page) && a <= |flash|
    ensures Programmed(flash, page, a, []) == flash
  {
    AlignedZero(page);
    assert [] + Blank(0) == [];
    PutNothing(flash, a);
  }

  lemma FirstBlock(k: nat, n: nat, page: nat)
    requires ValidPage(page) && 0 < k <= page
    ensures RoundUp(k, page) == page
    ensures k == page ==> RoundUp(k + n, page) == page + RoundUp(n, page)
  {
    hide Offset;
    WholePage(page);
    OffsetShift(page, n, page);
    if k < page {
      SmallOffset(k, page);
    }
  }

  lemma ShiftAligned(a: nat, page: nat)
    requires ValidPage(page) && Aligned(a, page)
    ensures Aligned(a + page, page)
  {
    hide Offset;
    WholePage(page);
    OffsetShift(a, page, page);
  }

  lemma FirstPage(flash: seq<byte>, page: nat, a: nat, first: seq<byte>, rest: seq<byte>)
    requires ValidPage(page) && |first| == page && a + page + RoundUp(|rest|, page) <= |flash|
    ensures Programmed(Put(flash, a, first), page, a + page, rest) == Programmed(flash, page, a, first + rest)
  {
    hide Put, RoundUp;
    FirstBlock(page, |rest|, page);
    var padded := rest + Blank(RoundUp(|rest|, page) - |rest|);
    PutAppend(flash, a, first, padded);
    assert first + padded == first + rest + Blank(RoundUp(|rest|, page) - |rest|);
  }

  lemma LastPage(flash: seq<byte>, page: nat, a: nat, last: seq<byte>)
    requires ValidPage(page) && 0 < |last| <= page
    ensures Programmed(flash, page, a, last) == Put(flash, a, last + Blank(page - |last|))
  {
    hide Put, RoundUp;
    FirstBlock(|last|, 0, page);
  }

  /** An image written in page blocks with auto-increment is stored exactly, and
      the address advances by exactly its length. */
  lemma {:induction false} ImageWritten(c: Config, s: Cdc, blocks: seq<seq<byte>>)
    requires ValidCdc(s) && BufferEmpty(s.m) && Aligned(s.addr, |s.m.buffer|) && PageBlocks(blocks, |s.m.buffer|)
    requires s.addr + RoundUp(|Flatten(blocks)|, |s.m.buffer|) <= |s.m.flash|
    ensures var image, page := Flatten(blocks), |s.m.buffer|;
            PerformAll(c, s, Writes(FLASH, blocks))
            == (s.(addr := s.addr + |image|, m := Memory(Programmed(s.m.flash, page, s.addr, image), Blank(page))),
                Acknowledged(|blocks|))
    decreases |blocks|
  {
    hide Offset, Put, WriteFlash, RoundUp, Programmed, Aligned;
    var page := |s.m.buffer|;
    if |blocks| == 0 {
      NothingProgrammed(s.m.flash, page, s.addr);
    } else {
      var first, rest := blocks[0], Flatten(blocks[1..]);
      FirstBlock(|first|, |rest|, page);
      WriteFlashExact(s, first);
      var t := WriteFlash(s, first);
      if |blocks| == 1 {
        assert first + rest == first;
        LastPage(s.m.flash, page, s.addr, first);
      } else {
        ShiftAligned(s.addr, page);
        assert first + Blank(0) == first;
        ImageWritten(c, t, blocks[1..]);
        FirstPage(s.m.flash, page, s.addr, first, rest);
      }
    }
  }

  // ----- reading back -----

  function Total(counts: seq<nat>): (n: nat)
    decreases |counts|
  {
    if |counts| == 0 then 0 else counts[0] + Total(counts[1..])
  }

  /** Every odd chunk has only empty chunks behind it. */
  predicate OddLast(counts: seq<nat>)
    decreases |counts|
  {
    |counts| == 0 || ((counts[0] % 2 == 1 ==> Total(counts[1..]) == 0) && OddLast(counts[1..]))
  }

  /** The whole words of the chunks, which is what the address advances by. */
  function WordBytes(counts: seq<nat>): (n: nat)
    ensures n <= Total(counts)
    decreases |counts|
  {
    if |counts| == 0 then 0 else Even(counts[0]) + WordBytes(counts[1..])
  }

  lemma ReadStep(c: Config, s: Cdc, kind: byte, counts: seq<nat>)
    requires ValidCdc(s)
    ensures PerformAll(c, s, Reads(kind, counts))
            == if |counts| == 0 then (s, []) else
               var o := Perform(c, s, ReadBlock(kind, counts[0]));
               var rest := PerformAll(c, o.0, Reads(kind, counts[1..]));
               (rest.0, [o.1] + rest.1)
  {
    hide Perform;
    if |counts| > 0 {
      assert Reads(kind, counts)[1..] == Reads(kind, counts[1..]);
    }
  }

  lemma CellsJoin(mem: seq<byte>, a: nat, n: nat, k: nat)
    ensures Cells(mem, a, n) + Cells(mem, a + n, k) == Cells(mem, a, n + k)
  {
  }

  /** Flash reads change the address only. */
  lemma {:induction false} ReadsAdvance(c: Config, s: Cdc, counts: seq<nat>)
    requires ValidCdc(s)
    ensures PerformAll(c, s, Reads(FLASH, counts)).0 == s.(addr := s.addr + WordBytes(counts))
    decreases |counts|
  {
    hide PerformAll, Reads, Cells;
    ReadStep(c, s, FLASH, counts);
    if |counts| > 0 {
      ReadsAdvance(c, s.(addr := s.addr + Even(counts[0])), counts[1..]);
    }
  }

  predicate AllEven(counts: seq<nat>)
    decreases |counts|
  {
    |counts| == 0 || (counts[0] % 2 == 0 && AllEven(counts[1..]))
  }

  lemma {:induction false} AdvanceTotal(counts: seq<nat>)
    ensures WordBytes(counts) == Total(counts) <==> AllEven(counts)
    decreases |counts|
  {
    if |counts| > 0 {
      AdvanceTotal(counts[1..]);
    }
  }

  /** Over any list of chunks the address ends up behind the bytes read exactly
      when every chunk is even. */
  lemma AdvanceIff(c: Config, s: Cdc, counts: seq<nat>)
    requires ValidCdc(s)
    ensures PerformAll(c, s, Reads(FLASH, counts)).0.addr == s.addr + Total(counts) <==> AllEven(counts)
  {
    ReadsAdvance(c, s, counts);
    AdvanceTotal(counts);
  }

  /** Chunks with at most a last odd one read consecutive flash. */
  lemma {:induction false} FlashReads(c: Config, s: Cdc, counts: seq<nat>)
    requires ValidCdc(s) && OddLast(counts)
    ensures Flatten(PerformAll(c, s, Reads(FLASH, counts)).1) == Cells(s.m.flash, s.addr, Total(counts))
    decreases |counts|
  {
    hide Cells, PerformAll, Reads;
    ReadStep(c, s, FLASH, counts);
    if |counts| == 0 {
      assert Cells(s.m.flash, s.addr, 0) == [];
    } else {
      var n, rest := counts[0], Total(counts[1..]);
      var t := s.(addr := s.addr + Even(n));
      FlashReads(c, t, counts[1..]);
      assert Cells(s.m.flash, t.addr, rest) == Cells(s.m.flash, s.addr + n, rest) by {
        if n % 2 == 1 {
          assert Cells(s.m.flash, t.addr, 0) == Cells(s.m.flash, s.addr + n, 0);
        }
      }
      CellsJoin(s.m.flash, s.addr, n, rest);
      FlattenCons(Cells(s.m.flash, s.addr, n), PerformAll(c, t, Reads(FLASH, counts[1..])).1);
    }
  }

  /** Flash in which neighbours differ. */
  function Alternating(n: nat): (f: seq<byte>)
    ensures |f| == n
  {
    seq(n, k => (k % 2) as byte)
  }

  /** The replies to any chunks are as long as what was asked for, and start at
      the current address. */
  lemma {:induction false} FirstReply(c: Config, s: Cdc, counts: seq<nat>)
    requires ValidCdc(s)
    ensures var bytes := Flatten(PerformAll(c, s, Reads(FLASH, counts)).1);
            |bytes| == Total(counts) && (|bytes| > 0 ==> bytes[0] == Cell(s.m.flash, s.addr))
    decreases |counts|
  {
    hide PerformAll, Reads, Cell;
    ReadStep(c, s, FLASH, counts);
    if |counts| > 0 {
      var n := counts[0];
      var t := s.(addr := s.addr + Even(n));
      FirstReply(c, t, counts[1..]);
      FlattenCons(Cells(s.m.flash, s.addr, n), PerformAll(c, t, Reads(FLASH, counts[1..])).1);
    }
  }

  lemma {:induction false} NothingIsOddLast(counts: seq<nat>)
    requires Total(counts) == 0
    ensures OddLast(counts)
    decreases |counts|
  {
    if |counts| > 0 {
      NothingIsOddLast(counts[1..]);
    }
  }

  /** Otherwise some byte is repeated, which alternating flash shows. */
  lemma {:induction false} OddRepeats(c: Config, s: Cdc, counts: seq<nat>)
    requires ValidCdc(s) && !OddLast(counts)
    requires s.addr + Total(counts) <= |s.m.flash| && s.m.flash == Alternating(|s.m.flash|)
    ensures Flatten(PerformAll(c, s, Reads(FLASH, counts)).1) != Cells(s.m.flash, s.addr, Total(counts))
    decreases |counts|
  {
    hide PerformAll, Reads, Flatten, Cells, Cell;
    ReadStep(c, s, FLASH, counts);
    var n, rest, f, a := counts[0], Total(counts[1..]), s.m.flash, s.addr;
    var t := s.(addr := a + Even(n));
    var later := Flatten(PerformAll(c, t, Reads(FLASH, counts[1..])).1);
    FlattenCons(Cells(f, a, n), PerformAll(c, t, Reads(FLASH, counts[1..])).1);
    CellsJoin(f, a, n, rest);
    FirstReply(c, t, counts[1..]);
    if n % 2 == 1 && rest > 0 {
      Neighbours(f, a, n, rest);
      DifferBehind(Cells(f, a, n), later, Cells(f, a + n, rest));
    } else {
      if rest == 0 {
        NothingIsOddLast(counts[1..]);
      }
      assert n % 2 == 0;
      OddRepeats(c, t, counts[1..]);
      DifferBehind(Cells(f, a, n), later, Cells(f, a + n, rest));
    }
  }

  lemma Neighbours(f: seq<byte>, a: nat, n: nat, rest: nat)
    requires f == Alternating(|f|) && a + n + rest <= |f| && n % 2 == 1 && rest > 0
    ensures Cell(f, a + Even(n)) != Cells(f, a + n, rest)[0]
  {
    var b := a + n - 1;
    assert a + Even(n) == b;
    assert Cells(f, a + n, rest)[0] == Cell(f, a + n) == Alternating(|f|)[b + 1];
    assert Cell(f, b) == Alternating(|f|)[b];
  }

  lemma DifferBehind(p: seq<byte>, x: seq<byte>, y: seq<byte>)
    requires x != y
    ensures p + x != p + y
  {
    assert (p + x)[|p|..] == x && (p + y)[|p|..] == y;
  }

  function WithFlash(s: Cdc, f: seq<byte>): (r: Cdc) {
    s.(m := s.m.(flash := f))
  }

  /** Within flash, the replies join to the cells asked for, whatever flash holds,
      exactly when every odd chunk has only empty chunks behind it. */
  lemma FlashReadsIff(c: Config, s: Cdc, counts: seq<nat>)
    requires ValidCdc(s) && s.addr + Total(counts) <= |s.m.flash|
    ensures (forall f: seq<byte> | |f| == |s.m.flash| ::
               Flatten(PerformAll(c, WithFlash(s, f), Reads(FLASH, counts)).1) == Cells(f, s.addr, Total(counts)))
            <==> OddLast(counts)
  {
    hide PerformAll, Reads, Flatten, Cells, Alternating;
    if OddLast(counts) {
      forall f: seq<byte> | |f| == |s.m.flash|
        ensures Flatten(PerformAll(c, WithFlash(s, f), Reads(FLASH, counts)).1) == Cells(f, s.addr, Total(counts))
      {
        FlashReads(c, WithFlash(s, f), counts);
      }
    } else {
      OddRepeats(c, WithFlash(s, Alternating(|s.m.flash|)), counts);
    }
  }

  /** An odd chunk's last byte comes again as the first byte of the next chunk. */
  lemma LastByteAgain(c: Config, s: Cdc, n: nat, k: nat)
    requires ValidCdc(s) && k > 0
    ensures var replies := PerformAll(c, s, Reads(FLASH, [n, k])).1;
            && |replies[0]| == n && |replies[1]| == k
            && (n % 2 == 1 ==> replies[1][0] == replies[0][n - 1])
  {
    hide PerformAll, Reads, Cell;
    assert [n, k][1..] == [k] && [k][1..] == [];
    ReadStep(c, s, FLASH, [n, k]);
    var t := s.(addr := s.addr + Even(n));
    ReadStep(c, t, FLASH, [k]);
  }

  lemma FlattenCons(p: seq<byte>, ps: seq<seq<byte>>)
    ensures Flatten([p] + ps) == p + Flatten(ps)
  {
    assert ([p] + ps)[1..] == ps;
  }

  /** Set the address, write blocks, set it back, read. */
  function WriteThenRead(kind: byte, hi: byte, lo: byte, blocks: seq<seq<byte>>, counts: seq<nat>): (ops: seq<Request>) {
    ([SetAddress(hi, lo)] + Writes(kind, blocks)) + ([SetAddress(hi, lo)] + Reads(kind, counts))
  }

  /** The run of such a session, from the runs of its parts. */
  lemma SessionParts(c: Config, s: Cdc, kind: byte, hi: byte, lo: byte, blocks: seq<seq<byte>>, counts: seq<nat>)
    requires ValidCdc(s)
    ensures var w := PerformAll(c, s.(addr := NewAddress(hi, lo)), Writes(kind, blocks));
            var r := PerformAll(c, w.0.(addr := NewAddress(hi, lo)), Reads(kind, counts));
            PerformAll(c, s, WriteThenRead(kind, hi, lo, blocks, counts))
            == (r.0, ([[DONE]] + w.1) + ([[DONE]] + r.1))
  {
    hide NewAddress, Writes, Reads;
    var home := SetAddress(hi, lo);
    PerformSet(c, s, hi, lo, Writes(kind, blocks));
    var t := PerformAll(c, s, [home] + Writes(kind, blocks)).0;
    PerformSet(c, t, hi, lo, Reads(kind, counts));
    PerformAppend(c, s, [home] + Writes(kind, blocks), [home] + Reads(kind, counts));
  }

  lemma PerformSet(c: Config, s: Cdc, hi: byte, lo: byte, ops: seq<Request>)
    requires ValidCdc(s)
    ensures var r := PerformAll(c, s.(addr := NewAddress(hi, lo)), ops);
            PerformAll(c, s, [SetAddress(hi, lo)] + ops) == (r.0, [[DONE]] + r.1)
  {
    assert ([SetAddress(hi, lo)] + ops)[1..] == ops;
  }

  /** Round trip: an image written in page blocks from a page that set-address
      reaches, the address set back, and read in chunks with at most a last odd
      one. Every write is acknowledged and the reads return the image. */
  lemma FlashRoundTrip(c: Config, s: Cdc, hi: byte, lo: byte, blocks: seq<seq<byte>>, counts: seq<nat>)
    requires ValidCdc(s) && BufferEmpty(s.m) && PageBlocks(blocks, |s.m.buffer|) && OddLast(counts)
    requires Aligned(NewAddress(hi, lo), |s.m.buffer|)
    requires NewAddress(hi, lo) + RoundUp(|Flatten(blocks)|, |s.m.buffer|) <= |s.m.flash|
    requires Total(counts) == |Flatten(blocks)|
    ensures var replies := PerformAll(c, s, WriteThenRead(FLASH, hi, lo, blocks, counts)).1;
            && replies[..|blocks| + 2] == ([[DONE]] + Acknowledged(|blocks|)) + [[DONE]]
            && Flatten(replies[|blocks| + 2..]) == Flatten(blocks)
  {
    hide PerformAll, WriteThenRead, Writes, Reads, NewAddress, Flatten, Cells, Programmed, RoundUp, PageBlocks;
    hide OddLast, Total, Acknowledged, Offset;
    SessionParts(c, s, FLASH, hi, lo, blocks, counts);
    var s1 := s.(addr := NewAddress(hi, lo));
    ImageWritten(c, s1, blocks);
    var w := PerformAll(c, s1, Writes(FLASH, blocks));
    FlashReads(c, w.0.(addr := s1.addr), counts);
    ProgrammedCells(s.m.flash, |s.m.buffer|, s1.addr, Flatten(blocks));
    SplitReplies(w.1, PerformAll(c, w.0.(addr := s1.addr), Reads(FLASH, counts)).1);
  }

  lemma {:induction false} WritesNoExit(kind: byte, blocks: seq<seq<byte>>)
    ensures NoExit(Writes(kind, blocks))
    decreases |blocks|
  {
    if |blocks| > 0 {
      WritesNoExit(kind, blocks[1..]);
    }
  }

  lemma {:induction false} ReadsNoExit(kind: byte, counts: seq<nat>)
    ensures NoExit(Reads(kind, counts))
    decreases |counts|
  {
    if |counts| > 0 {
      ReadsNoExit(kind, counts[1..]);
    }
  }

  /** The same over the wire: however the host cuts the commands into packets, it
      gets one acknowledgement per write and transfers that join to the image. */
  lemma FlashOverTheWire(c: Config, s: Cdc, hi: byte, lo: byte, blocks: seq<seq<byte>>, counts: seq<nat>,
                         transfers: seq<seq<seq<byte>>>) returns (replies: seq<seq<byte>>)
    requires ValidCdc(s) && s.run && CarriesAll(transfers, WriteThenRead(FLASH, hi, lo, blocks, counts))
    requires BufferEmpty(s.m) && PageBlocks(blocks, |s.m.buffer|) && OddLast(counts)
    requires Aligned(NewAddress(hi, lo), |s.m.buffer|)
    requires NewAddress(hi, lo) + RoundUp(|Flatten(blocks)|, |s.m.buffer|) <= |s.m.flash|
    requires Total(counts) == |Flatten(blocks)|
    ensures Session(c, Station(s, Queue([], Flatten(transfers)), Sender([], []))).t == Sender([], Responses(replies))
    ensures |replies| == |blocks| + |counts| + 2
    ensures replies[..|blocks| + 2] == ([[DONE]] + Acknowledged(|blocks|)) + [[DONE]]
    ensures Flatten(replies[|blocks| + 2..]) == Flatten(blocks)
  {
    hide PerformAll, Session, Flatten, Responses, CarriesAll, PageBlocks, OddLast, RoundUp, Offset, Total, Acknowledged;
    var ops := WriteThenRead(FLASH, hi, lo, blocks, counts);
    WritesNoExit(FLASH, blocks);
    ReadsNoExit(FLASH, counts);
    SessionPerforms(c, s, transfers, ops, []);
    FlashRoundTrip(c, s, hi, lo, blocks, counts);
    replies := PerformAll(c, s, ops).1;
    assert [] + Responses(replies) == Responses(replies);
  }

  lemma SplitReplies(w: seq<seq<byte>>, r: seq<seq<byte>>)
    ensures var all := ([[DONE]] + w) + ([[DONE]] + r);
            all[..|w| + 2] == ([[DONE]] + w) + [[DONE]] && all[|w| + 2..] == r
  {
  }

  // ----- EEPROM -----

  lemma {:induction false} StoredExact(eeprom: seq<byte>, addr: nat, bytes: seq<byte>, n: nat)
    requires n <= |bytes| && addr / 2 + |bytes| <= |eeprom| <= 65536
    ensures Stored(eeprom, addr, bytes, n) == Put(eeprom, addr / 2, bytes[..n])
    decreases n
  {
    hide Put;
    if n == 0 {
      assert bytes[..0] == [];
      PutNothing(eeprom, addr / 2);
    } else {
      StoredExact(eeprom, addr, bytes, n - 1);
      assert (addr / 2 + n - 1) % 65536 == addr / 2 + (n - 1);
      assert bytes[..n] == bytes[..n - 1] + [bytes[n - 1]];
      PutByte(eeprom, addr / 2, bytes[..n - 1], bytes[n - 1]);
    }
  }

  lemma {:induction false} EepromWritten(c: Config, s: Cdc, blocks: seq<seq<byte>>)
    requires ValidCdc(s) && s.addr / 2 + |Flatten(blocks)| <= |s.eeprom| <= 65536
    ensures var image := Flatten(blocks);
            PerformAll(c, s, Writes(EEPROM, blocks))
            == (s.(eeprom := Put(s.eeprom, s.addr / 2, image), addr := s.addr + 2 * |image|), Acknowledged(|blocks|))
    decreases |blocks|
  {
    hide Put, Stored;
    if |blocks| == 0 {
      PutNothing(s.eeprom, s.addr / 2);
    } else {
      var first, rest := blocks[0], Flatten(blocks[1..]);
      StoredExact(s.eeprom, s.addr, first, |first|);
      assert first[..|first|] == first;
      var t := Perform(c, s, WriteBlock(EEPROM, first)).0;
      assert t.addr / 2 == s.addr / 2 + |first|;
      EepromWritten(c, t, blocks[1..]);
      PutAppend(s.eeprom, s.addr / 2, first, rest);
    }
  }

  lemma ReadCellsJoin(e: seq<byte>, addr: nat, n: nat, k: nat)
    requires addr % 2 == 0
    ensures ReadCells(e, addr, n) + ReadCells(e, addr + 2 * n, k) == ReadCells(e, addr, n + k)
  {
    assert (addr + 2 * n) / 2 == addr / 2 + n;
  }

  lemma {:induction false} EepromReads(c: Config, s: Cdc, counts: seq<nat>)
    requires ValidCdc(s)
    ensures var r := PerformAll(c, s, Reads(EEPROM, counts));
            && r.0 == s.(addr := s.addr + 2 * Total(counts))
            && Flatten(r.1) == ReadCells(s.eeprom, s.addr, Total(counts))
    decreases |counts|
  {
    hide ReadCells, PerformAll, Reads;
    ReadStep(c, s, EEPROM, counts);
    if |counts| == 0 {
      assert ReadCells(s.eeprom, s.addr, 0) == [];
    } else {
      var n := counts[0];
      var t := s.(addr := s.addr + 2 * n);
      EepromReads(c, t, counts[1..]);
      ReadCellsJoin(s.eeprom, s.addr, n, Total(counts[1..]));
      FlattenCons(ReadCells(s.eeprom, s.addr, n), PerformAll(c, t, Reads(EEPROM, counts[1..])).1);
    }
  }

  lemma StoredCells(e: seq<byte>, addr: nat, data: seq<byte>)
    requires addr / 2 + |data| <= |e| <= 65536
    ensures ReadCells(Put(e, addr / 2, data), addr, |data|) == data
  {
    var p, stored := addr / 2, Put(e, addr / 2, data);
    forall k | 0 <= k < |data| ensures Cell(stored, (p + k) % 65536) == data[k] {
      assert (p + k) % 65536 == p + k;
      assert stored[p + k] == data[k];
    }
  }

  /** EEPROM keeps what is written to it in blocks of any size, read back in
      chunks of any size. */
  lemma EepromRoundTrip(c: Config, s: Cdc, hi: byte, lo: byte, blocks: seq<seq<byte>>, counts: seq<nat>)
    requires ValidCdc(s) && Total(counts) == |Flatten(blocks)|
    requires NewAddress(hi, lo) / 2 + |Flatten(blocks)| <= |s.eeprom| <= 65536
    ensures var replies := PerformAll(c, s, WriteThenRead(EEPROM, hi, lo, blocks, counts)).1;
            && replies[..|blocks| + 2] == ([[DONE]] + Acknowledged(|blocks|)) + [[DONE]]
            && Flatten(replies[|blocks| + 2..]) == Flatten(blocks)
  {
    hide PerformAll, WriteThenRead, Writes, Reads, NewAddress, Flatten, ReadCells, Put, Total, Acknowledged;
    SessionParts(c, s, EEPROM, hi, lo, blocks, counts);
    var s1 := s.(addr := NewAddress(hi, lo));
    EepromWritten(c, s1, blocks);
    var w := PerformAll(c, s1, Writes(EEPROM, blocks));
    EepromReads(c, w.0.(addr := s1.addr), counts);
    StoredCells(s.eeprom, s1.addr, Flatten(blocks));
    SplitReplies(w.1, PerformAll(c, w.0.(addr := s1.addr), Reads(EEPROM, counts)).1);
  }
}
