/** What the Printer parser does to the boot section. Words are only loaded below
    it, but pages are erased and written at the page the parser holds, and that
    page can be the first one of the boot section. */
module PrinterBoot {
  import opened Spm
  import opened Chunks
  import opened IntelHex
  import opened Printer
  import opened PrinterPlacement
  import opened PrinterRuns

  /** No page at or above the boot section is erased or written. */
  predicate Safe(c: Part, ops: seq<Op>) {
    forall op | op in ops :: op.FillOp? || op.a < c.boot
  }

  /** A word is loaded into the page buffer. */
  predicate Loads(ops: seq<Op>) {
    exists op | op in ops :: op.FillOp?
  }

  /** Somewhere in the text a word is loaded while the parser holds a page at or
      above the boot section. */
  predicate LoadsAbove(c: Part, p: Parser, xs: string)
    requires ValidPart(c)
    decreases |xs|
  {
    |xs| > 0 &&
    var o := Step(c, p, xs[0]);
    (Loads(o.ops) && p.pageStart >= c.boot) || LoadsAbove(c, o.p, xs[1..])
  }

  predicate DirtyBelow(c: Part, p: Parser) {
    p.dirty ==> p.pageStart < c.boot
  }

  lemma FlushSafe(c: Part, p: Parser)
    requires ValidPart(c) && DirtyBelow(c, p)
    ensures var o := Flush(c, p);
            Safe(c, o.ops) && !Loads(o.ops) && DirtyBelow(c, o.p)
  {
    hide PageOf;
  }

  /** A word under a page below the boot section is safe, one under a page at or
      above it erases that page. */
  lemma WordSafeIff(c: Part, p: Parser, lo: byte, hi: byte)
    requires ValidPart(c) && DirtyBelow(c, p)
    ensures var o := DataWord(c, p, lo, hi);
            && Loads(o.ops) && (Safe(c, o.ops) <==> p.pageStart < c.boot)
            && (p.pageStart < c.boot ==> DirtyBelow(c, o.p))
  {
    hide PageOf;
    var o, e, f := DataWord(c, p, lo, hi), EraseOp(p.pageStart), FillOp(p.addr, lo, hi);
    assert f in o.ops;
    if p.pageStart >= c.boot {
      assert e in o.ops;
    }
  }

  lemma StepSafeIff(c: Part, p: Parser, ch: char)
    requires ValidPart(c) && DirtyBelow(c, p)
    ensures var o := Step(c, p, ch);
            && (Safe(c, o.ops) <==> !(Loads(o.ops) && p.pageStart >= c.boot))
            && (Safe(c, o.ops) ==> DirtyBelow(c, o.p))
  {
    hide Step, Flush, DataWord;
    var q, lo, hi := StepKinds(c, p, ch);
    FlushSafe(c, q);
    WordSafeIff(c, q, lo, hi);
  }

  /** Exactly when a run erases or writes a page of the boot section: when it
      loads a word while the parser holds such a page. */
  lemma {:induction false} RunSafeIff(c: Part, p: Parser, xs: string)
    requires ValidPart(c) && DirtyBelow(c, p)
    ensures Safe(c, Trace(c, p, xs)) <==> !LoadsAbove(c, p, xs)
    decreases |xs|
  {
    hide Step, Loads, DirtyBelow;
    if |xs| > 0 {
      var o := Step(c, p, xs[0]);
      StepSafeIff(c, p, xs[0]);
      SafeAppend(c, o.ops, Trace(c, o.p, xs[1..]));
      if Safe(c, o.ops) {
        RunSafeIff(c, o.p, xs[1..]);
      }
    }
  }

  lemma SafeAppend(c: Part, xs: seq<Op>, ys: seq<Op>)
    ensures Safe(c, xs + ys) <==> Safe(c, xs) && Safe(c, ys)
  {
    assert forall op | op in xs :: op in xs + ys;
    assert forall op | op in ys :: op in xs + ys;
  }

  // ----- how the parser comes to hold such a page -----

  /** It takes one at a word that ends at or above the boot section, or when a
      dirty page is flushed at the checksum of a record addressed there. */
  lemma HoldsBootIff(c: Part, p: Parser, ch: char)
    requires ValidPart(c) && p.pageStart < c.boot
    ensures var o := Step(c, p, ch);
            o.p.pageStart >= c.boot
            <==> if Loads(o.ops) then p.addr + 2 >= c.boot else o.ops != [] && p.addr >= c.boot
  {
    hide TakeByte, HexToDecimal, Loads, ShiftIn;
    assert !Loads([]) by { NothingLoads(); }
    if p.phase != WaitLine && ch != ':' && HexToDecimal(ch) >= 0 && p.readMSB {
      ByteHoldsIff(c, p, ShiftIn(p.data, HexToDecimal(ch)));
    }
  }

  lemma NothingLoads()
    ensures !Loads([])
  {
  }

  lemma ByteHoldsIff(c: Part, p: Parser, b: byte)
    requires ValidPart(c) && p.pageStart < c.boot
    ensures var o := TakeByte(c, p, b);
            o.p.pageStart >= c.boot
            <==> if Loads(o.ops) then p.addr + 2 >= c.boot else o.ops != [] && p.addr >= c.boot
  {
    hide DataWord, Flush, Complement, Loads;
    NothingLoads();
    var q := p.(data := b, readMSB := false);
    FlushHoldsIff(c, q);
    var r := q.(checksum := ((q.checksum as int + b as int) % 256) as byte,
                dataRem := ((p.dataRem as int + 255) % 256) as byte);
    WordHoldsIff(c, r, r.prevData, b);
  }

  lemma FlushHoldsIff(c: Part, p: Parser)
    requires ValidPart(c) && p.pageStart < c.boot
    ensures var o := Flush(c, p);
            !Loads(o.ops) && (o.p.pageStart >= c.boot <==> o.ops != [] && p.addr >= c.boot)
  {
    hide Offset, PageOf;
    PageBelow(p.addr, c.boot, c.page);
  }

  lemma WordHoldsIff(c: Part, p: Parser, lo: byte, hi: byte)
    requires ValidPart(c) && p.pageStart < c.boot
    ensures var o := DataWord(c, p, lo, hi);
            Loads(o.ops) && (o.p.pageStart >= c.boot <==> p.addr + 2 >= c.boot)
  {
    hide Offset, PageOf;
    var o := DataWord(c, p, lo, hi);
    assert FillOp(p.addr, lo, hi) in o.ops;
    PageBelow(p.addr + 2, c.boot, c.page);
  }

  /** The page of an address below a page boundary ends at or below it. */
  lemma {:induction false} PageBelow(a: nat, boot: nat, page: nat)
    requires ValidPage(page) && Aligned(boot, page)
    ensures if a < boot then PageOf(a, page) + page <= boot else PageOf(a, page) >= boot
    decreases a
  {
    if a >= page && boot >= page {
      PageBelow(a - page, boot - page, page);
    }
  }

  // ----- the contents of the boot section -----

  lemma PutKeepsAbove(f: seq<byte>, p: nat, x: seq<byte>, from: nat)
    requires p + |x| <= from <= |f|
    ensures Put(f, p, x)[from..] == f[from..]
  {
  }

  lemma ExecKeepsBoot(c: Part, m: Memory, op: Op)
    requires ValidPart(c) && |m.buffer| == c.page && c.boot <= |m.flash| && (op.FillOp? || op.a < c.boot)
    ensures Exec(m, op).flash[c.boot..] == m.flash[c.boot..]
  {
    hide Put, Offset, AndAll, PageOf;
    if !op.FillOp? {
      PageBelow(op.a, c.boot, c.page);
      var p := PageOf(op.a, c.page);
      PutKeepsAbove(m.flash, p, Blank(c.page), c.boot);
      PutKeepsAbove(m.flash, p, AndAll(m.flash[p..p + c.page], m.buffer), c.boot);
    }
  }

  lemma {:induction false} ExecAllKeepsBoot(c: Part, m: Memory, ops: seq<Op>)
    requires ValidPart(c) && |m.buffer| == c.page && c.boot <= |m.flash| && Safe(c, ops)
    ensures ExecAll(m, ops).flash[c.boot..] == m.flash[c.boot..]
    decreases |ops|
  {
    hide Exec;
    if |ops| > 0 {
      assert ops[0] in ops;
      ExecKeepsBoot(c, m, ops[0]);
      assert forall op | op in ops[1..] :: op in ops;
      ExecAllKeepsBoot(c, Exec(m, ops[0]), ops[1..]);
    }
  }

  /** A run that loads no word under a boot page leaves the boot section alone. */
  lemma BootKept(c: Part, l: Loader, xs: string)
    requires ValidLoader(c, l) && c.boot <= |l.m.flash| && DirtyBelow(c, l.p) && !LoadsAbove(c, l.p, xs)
    ensures Run(c, l, xs).m.flash[c.boot..] == l.m.flash[c.boot..]
  {
    hide Run, Trace, LoadsAbove, ExecAll;
    RunSafeIff(c, l.p, xs);
    RunIsTrace(c, l, xs);
    ExecAllKeepsBoot(c, l.m, Trace(c, l.p, xs));
  }

  /** The word that destroys the bootloader: an image that fills the application
      section, then one more data record. Its word ends up at the start of the
      boot section, the rest of that page erased. */
  lemma BootOverwritten(c: Part, l: Loader, m0: Memory, done: seq<byte>, x: byte, y: byte)
    requires Tracking(c, l, m0, done) && |done| == c.boot > 2 && c.boot + c.page <= |m0.flash|
    ensures Run(c, l, Record(0, DATA_RECORD, [x, y])).m.flash == Put(l.m.flash, c.boot, [x, y] + Blank(c.page - 2))
  {
    hide Run, Record, Put, Streamed, PageOf, Offset, TakeByte, Sum, Complement, Rewritten;
    var start := l.(p := l.p.(checksum := 0, addr := l.p.base, readMSB := false, phase := ByteCount));
    var l1 := start.(p := AfterHeader(start.p, 2, 0, DATA_RECORD));
    RunRecord(c, l, 0, DATA_RECORD, [x, y]);
    PageStable(c.boot, c.page);
    BootWord(c, l1, x, y);
    FullBuffer(m0, done, c.page);
    RewrittenExact(l.m, c.boot, [x, y]);
    assert l.m.buffer[2..] == Blank(c.page - 2);
    FlushedAlready(c, RunBytes(c, l1, [x, y]), Complement(Sum(Header(2, 0, DATA_RECORD) + [x, y])));
  }

  lemma FullBuffer(m: Memory, done: seq<byte>, page: nat)
    requires page == |m.buffer| && ValidPage(page) && Aligned(|done|, page)
    ensures Streamed(m, 0, done).buffer == Blank(page)
  {
    hide Offset, Put;
    assert done[|done|..] + Blank(page) == Blank(page);
  }

  /** The data bytes of that record. */
  lemma BootWord(c: Part, l: Loader, x: byte, y: byte)
    requires ValidLoader(c, l) && l.p.phase == ReadData && l.p.dataRem == 2 && l.p.recordType == DATA_RECORD
    requires l.p.addr == 0 && l.p.pageStart == c.boot > 2 && !l.p.dirty
    ensures var r := RunBytes(c, l, [x, y]);
            r.m == Rewritten(l.m, c.boot, [x, y]) && !r.p.dirty && r.p.phase == Checksum && r.p.recordType == DATA_RECORD
  {
    hide TakeByte, Offset, PageOf, Erase, Fill, Write, ExecAll;
    LowByte(c, l.p, x);
    ExecNothing(l, TakeByte(c, l.p, x).p);
    var l1 := ByteStep(c, l, x);
    HighByte(c, l1.p, y);
    PageBelow(2, c.boot, c.page);
    var e, f, w := EraseOp(c.boot), FillOp(0, x, y), WriteOp(c.boot);
    assert [e] + [f] + [w] == [e, f, w];
    ExecThree(l.m, e, f, w);
    OnePageFill(Erase(l.m, c.boot), c.boot, x, y);
    assert [x, y][1..] == [y] && [y][1..] == [];
    assert RunBytes(c, l1, [y]) == RunBytes(c, ByteStep(c, l1, y), []);
  }

  lemma OnePageFill(m: Memory, a: nat, x: byte, y: byte)
    requires ValidMemory(m) && Aligned(a, |m.buffer|)
    ensures Fill(m, 0, x, y) == Filled(m, a, [x, y], 1)
  {
    hide Fill, Offset;
    AlignedZero(|m.buffer|);
    FillAt(m, 0, 0, x, y);
    FillAt(m, a, 0, x, y);
    assert Filled(m, a, [x, y], 0) == m;
  }

  /** With nothing dirty a checksum byte leaves the memory alone. */
  lemma FlushedAlready(c: Part, l: Loader, b: byte)
    requires ValidLoader(c, l) && l.p.phase == Checksum && !l.p.dirty
    ensures ByteStep(c, l, b).m == l.m
  {
    hide PageOf, Offset, Complement, ExecAll;
    ExecNothing(l, TakeByte(c, l.p, b).p);
  }

  /** The same from a fresh start: the text of an image that fills the
      application section and one further record. */
  lemma FullImageThenRecord(c: Part, l: Loader, chunks: seq<seq<byte>>, x: byte, y: byte)
    requires ValidLoader(c, l) && Fresh(l.p) && BufferEmpty(l.m) && 2 < c.boot <= 0x10000
    requires c.boot + c.page <= |l.m.flash| && |Flatten(chunks)| == c.boot
    requires forall k | k in chunks :: 0 < |k| < 256 && |k| % 2 == 0
    ensures Run(c, l, DataRecords(0, chunks) + Record(0, DATA_RECORD, [x, y])).m.flash
            == Flatten(chunks) + ([x, y] + Blank(c.page - 2)) + l.m.flash[c.boot + c.page..]
  {
    hide Run, Record, Tracking, DataRecords, Flatten, Put, Streamed;
    var image, text := Flatten(chunks), DataRecords(0, chunks);
    FreshTracks(c, l);
    RecordsTracked(c, l, l.m, [], chunks);
    assert [] + image == image;
    RunAppend(c, l, text, Record(0, DATA_RECORD, [x, y]));
    BootOverwritten(c, Run(c, l, text), l.m, image, x, y);
    FullFlash(c, l.m, image);
    BehindImage(l.m.flash, image, [x, y] + Blank(c.page - 2));
    assert Run(c, l, text).m == Streamed(l.m, 0, image) by { TrackedMemory(c, Run(c, l, text), l.m, image); }
  }

  lemma TrackedMemory(c: Part, l: Loader, m0: Memory, done: seq<byte>)
    requires Tracking(c, l, m0, done)
    ensures l.m == Streamed(m0, 0, done)
  {
  }

  lemma FullFlash(c: Part, m: Memory, image: seq<byte>)
    requires ValidPart(c) && |m.buffer| == c.page && |image| == c.boot
    ensures Streamed(m, 0, image).flash == Put(m.flash, 0, image)
  {
    hide Offset, Put;
    PageStable(c.boot, c.page);
    StreamedWhole(m, 0, image);
  }

  lemma BehindImage(f: seq<byte>, image: seq<byte>, x: seq<byte>)
    requires |image| + |x| <= |f|
    ensures Put(Put(f, 0, image), |image|, x) == image + x + f[|image| + |x|..]
  {
  }

  // ----- a record at or above the boot section -----

  /** Whatever its type, its data is skipped, and so is the page being filled: the
      guard marks it clean. */
  lemma RecordAbove(c: Part, l: Loader, address: nat, kind: byte, data: seq<byte>)
    requires ValidLoader(c, l) && 0 < |data| < 256 && address < 0x10000 && l.p.base + address >= c.boot
    ensures var r := Run(c, l, Record(address, kind, data));
            && r.m == l.m && r.p.phase == WaitLine && !r.p.dirty && !r.p.readMSB
            && r.p.base == l.p.base && r.p.run == l.p.run && r.p.pageStart == l.p.pageStart
  {
    hide Run, Record, TakeByte, Sum, Complement, Apply, RunBytes;
    var start := l.(p := l.p.(checksum := 0, addr := l.p.base, readMSB := false, phase := ByteCount));
    var l1 := start.(p := AfterHeader(start.p, |data|, address, kind));
    RunRecord(c, l, address, kind, data);
    Guarded(c, l1, data[0]);
    RunBytesFirst(c, l1, data);
    SkipsBytes(c, ByteStep(c, l1, data[0]), data[1..]);
    SkipsBytes(c, RunBytes(c, l1, data), [Complement(Sum(Header(|data|, address, kind) + data))]);
    RunOne(c, RunBytes(c, l1, data), Complement(Sum(Header(|data|, address, kind) + data)));
  }

  lemma Guarded(c: Part, l: Loader, b: byte)
    requires ValidLoader(c, l) && l.p.phase == ReadData && l.p.addr >= c.boot
    ensures var r := ByteStep(c, l, b);
            && r.m == l.m && r.p.phase == WaitLine && !r.p.dirty && !r.p.readMSB
            && r.p.base == l.p.base && r.p.run == l.p.run && r.p.pageStart == l.p.pageStart
  {
    hide ExecAll, DataWord, PageOf;
    ExecNothing(l, TakeByte(c, l.p, b).p);
  }

  lemma RunBytesFirst(c: Part, l: Loader, bs: seq<byte>)
    requires ValidLoader(c, l) && |bs| > 0
    ensures RunBytes(c, l, bs) == RunBytes(c, ByteStep(c, l, bs[0]), bs[1..])
  {
    hide ByteStep;
  }

  lemma {:induction false} SkipsBytes(c: Part, l: Loader, bs: seq<byte>)
    requires ValidLoader(c, l) && l.p.phase == WaitLine && !l.p.readMSB
    ensures var r := RunBytes(c, l, bs);
            r.m == l.m && r.p == l.p.(checksum := r.p.checksum, addr := r.p.addr)
    decreases |bs|
  {
    hide Apply, TakeByte;
    if |bs| > 0 {
      SkipsBytes(c, ByteStep(c, l, bs[0]), bs[1..]);
    }
  }

  /** With nothing dirty an end-of-file record only ends the session. */
  lemma EofOnly(c: Part, l: Loader)
    requires ValidLoader(c, l) && !l.p.dirty
    ensures var r := Run(c, l, Record(0, EOF_RECORD, []));
            r.m == l.m && !r.p.run
  {
    hide Run, Record, TakeByte, Sum, Complement, Apply;
    var h := Header(0, 0, EOF_RECORD);
    var start := l.(p := l.p.(checksum := 0, addr := l.p.base, readMSB := false, phase := ByteCount));
    var l1 := start.(p := AfterHeader(start.p, 0, 0, EOF_RECORD));
    RunRecord(c, l, 0, EOF_RECORD, []);
    assert h + [] == h;
    ModSum(Sum(h), 0);
    ComplementMod(Sum(h), l1.p.checksum as nat);
    FlushedAlready(c, l1, Complement(Sum(h)));
    EofAccepted(c, l1, Complement(Sum(h)));
  }

  lemma EofAccepted(c: Part, l: Loader, b: byte)
    requires ValidLoader(c, l) && l.p.phase == Checksum && l.p.recordType == EOF_RECORD
    requires b == Complement(l.p.checksum as nat)
    ensures !ByteStep(c, l, b).p.run
  {
    hide PageOf, ExecAll, Complement;
  }

  /** After an image, a data record at or above the boot section and the end of
      file: the image's unfinished page is erased and never written. */
  lemma TailDropped(c: Part, l: Loader, m0: Memory, done: seq<byte>, address: nat, data: seq<byte>)
    requires Tracking(c, l, m0, done) && 0 < |data| < 256 && c.boot <= address < 0x10000
    ensures var r := Run(c, l, Record(address, DATA_RECORD, data) + Record(0, EOF_RECORD, []));
            r.m == Streamed(m0, 0, done) && !r.p.run
  {
    hide Run, Record, Streamed, PageOf;
    var text := Record(address, DATA_RECORD, data);
    RecordAbove(c, l, address, DATA_RECORD, data);
    RunAppend(c, l, text, Record(0, EOF_RECORD, []));
    EofOnly(c, Run(c, l, text));
  }

  /** Such a record is harmless, the memory ending as without it, exactly when the
      image is shorter than a page or blank from its last page boundary on. */
  lemma TailDroppedIff(c: Part, l: Loader, m0: Memory, done: seq<byte>, address: nat, data: seq<byte>)
    requires Tracking(c, l, m0, done) && 0 < |data| < 256 && c.boot <= address < 0x10000
    ensures var p := PageOf(|done|, c.page);
            Run(c, l, Record(address, DATA_RECORD, data) + Record(0, EOF_RECORD, [])).m
            == Run(c, l, Record(0, EOF_RECORD, [])).m
            <==> |done| < c.page || done[p..] == Blank(|done| - p)
  {
    hide Run, Record, Committed;
    TailDropped(c, l, m0, done, address, data);
    PlaceEof(c, l, m0, done);
    RoundUpBound(|done|, c);
    CommitsIff(c, m0, done);
  }

  lemma CommitsIff(c: Part, m0: Memory, done: seq<byte>)
    requires ValidPart(c) && |m0.buffer| == c.page && RoundUp(|done|, c.page) <= |m0.flash|
    ensures var p := PageOf(|done|, c.page);
            Streamed(m0, 0, done) == Committed(m0, done) <==> |done| < c.page || done[p..] == Blank(|done| - p)
  {
    hide Committed, Streamed, Put, Offset, WriteAt, RoundUp;
    var page, p := c.page, PageOf(|done|, c.page);
    if |done| < page {
      CommitShort(m0, done);
    } else {
      CommitStreamed(m0, done);
      StreamedTail(m0, done, p);
      if Aligned(|done|, page) {
        assert done[p..] == [] == Blank(0);
      } else {
        LastPageInside(|done|, page);
        WritesBlankIff(Streamed(m0, 0, done), p);
      }
    }
  }

  lemma LastPageInside(n: nat, page: nat)
    requires ValidPage(page) && !Aligned(n, page)
    ensures RoundUp(n, page) == PageOf(n, page) + page && PageOf(PageOf(n, page), page) == PageOf(n, page)
  {
    hide Offset;
    PageStable(n, page);
  }

  /** The unfinished page: erased in flash, its data in the buffer. */
  lemma StreamedTail(m: Memory, data: seq<byte>, p: nat)
    requires ValidMemory(m) && p == PageOf(|data|, |m.buffer|)
    ensures var s, page := Streamed(m, 0, data), |m.buffer|;
            && s.buffer == data[p..] + Blank(p + page - |data|)
            && (BufferEmpty(s) <==> data[p..] == Blank(|data| - p))
            && (p < |data| && p + page <= |m.flash| ==> s.flash[p..p + page] == Blank(page))
  {
    hide Put, Offset;
    var s, page := Streamed(m, 0, data), |m.buffer|;
    assert BufferEmpty(s) ==> data[p..] == s.buffer[..|data| - p];
    assert Blank(|data| - p) + Blank(p + page - |data|) == Blank(page);
    if p < |data| && p + page <= |m.flash| {
      PutRead(Put(m.flash, 0, data[..p]), p, Blank(page));
    }
  }

  /** Writing an erased page changes something unless the buffer is empty. */
  lemma WritesBlankIff(s: Memory, p: nat)
    requires ValidMemory(s) && PageOf(p, |s.buffer|) == p && p + |s.buffer| <= |s.flash|
    requires s.flash[p..p + |s.buffer|] == Blank(|s.buffer|)
    ensures Write(s, p) == s <==> BufferEmpty(s)
  {
    hide Put, Offset, WriteAt;
    ErasedWrite(s, p);
    if BufferEmpty(s) {
      PutSame(s.flash, p, s.buffer);
    }
  }

  lemma PutSame(f: seq<byte>, p: nat, x: seq<byte>)
    requires p + |x| <= |f| && f[p..p + |x|] == x
    ensures Put(f, p, x) == f
  {
  }
}
