/** When a list of data records reaches the boot section, read off their addresses
    and lengths alone. */
module PrinterRecords {
  import opened Spm
  import opened IntelHex
  import opened Printer
  import opened PrinterPlacement
  import opened PrinterRuns
  import opened PrinterBoot

  // ----- the operations of bytes -----

  /** The operations that a completed byte issues. */
  function ByteOps(c: Part, p: Parser, b: byte): (ops: seq<Op>)
    requires ValidPart(c)
  {
    if p.phase == WaitLine then [] else TakeByte(c, p, b).ops
  }

  function BytesOps(c: Part, l: Loader, bs: seq<byte>): (ops: seq<Op>)
    requires ValidLoader(c, l)
    decreases |bs|
  {
    if |bs| == 0 then [] else ByteOps(c, l.p, bs[0]) + BytesOps(c, ByteStep(c, l, bs[0]), bs[1..])
  }

  lemma {:induction false} TraceAppend(c: Part, l: Loader, xs: string, ys: string)
    requires ValidLoader(c, l)
    ensures Trace(c, l.p, xs + ys) == Trace(c, l.p, xs) + Trace(c, Run(c, l, xs).p, ys)
    decreases |xs|
  {
    hide Step;
    if |xs| == 0 {
      assert xs + ys == ys;
    } else {
      var l1 := Apply(l, Step(c, l.p, xs[0]));
      TraceAppend(c, l1, xs[1..], ys);
      assert (xs + ys)[1..] == xs[1..] + ys;
    }
  }

  lemma TraceTwo(c: Part, p: Parser, x: char, y: char)
    requires ValidPart(c)
    ensures Trace(c, p, [x, y]) == Step(c, p, x).ops + Step(c, Step(c, p, x).p, y).ops
  {
    hide Step;
    var p1 := Step(c, p, x).p;
    assert [x, y][1..] == [y] && [y][1..] == [];
    assert Trace(c, p1, [y]) == Step(c, p1, y).ops + Trace(c, Step(c, p1, y).p, []);
  }

  lemma TwoDigitsTrace(c: Part, p: Parser, b: byte)
    requires ValidPart(c) && !p.readMSB
    ensures Trace(c, p, HexByte(b)) == ByteOps(c, p, b)
  {
    hide Step, TakeByte, Trace, Digit, ShiftIn, LowNibble;
    var x, y := Digit((b / 16) as nat), Digit((b % 16) as nat);
    TraceTwo(c, p, x, y);
    DigitValue((b / 16) as nat);
    DigitValue((b % 16) as nat);
    if p.phase == WaitLine {
      WaitingStep(c, p, x);
      WaitingStep(c, Step(c, p, x).p, y);
    } else {
      FirstDigit(c, p, (b / 16) as nat);
      var p1 := Step(c, p, x).p;
      SecondDigit(c, p1, b);
      TakeByteIgnoresData(c, p, p1, b);
    }
  }

  lemma {:induction false} TraceHex(c: Part, l: Loader, bs: seq<byte>)
    requires ValidLoader(c, l) && !l.p.readMSB
    ensures Trace(c, l.p, HexBytes(bs)) == BytesOps(c, l, bs)
    decreases |bs|
  {
    hide Trace, ByteOps, ByteStep, HexByte, Run;
    if |bs| == 0 {
      assert Trace(c, l.p, "") == [] by { NoTrace(c, l.p); }
    } else {
      TwoDigits(c, l, bs[0]);
      TwoDigitsTrace(c, l.p, bs[0]);
      TraceAppend(c, l, HexByte(bs[0]), HexBytes(bs[1..]));
      TraceHex(c, ByteStep(c, l, bs[0]), bs[1..]);
    }
  }

  lemma NoTrace(c: Part, p: Parser)
    requires ValidPart(c)
    ensures Trace(c, p, "") == []
  {
  }

  lemma {:induction false} BytesOpsAppend(c: Part, l: Loader, xs: seq<byte>, ys: seq<byte>)
    requires ValidLoader(c, l)
    ensures BytesOps(c, l, xs + ys) == BytesOps(c, l, xs) + BytesOps(c, RunBytes(c, l, xs), ys)
    decreases |xs|
  {
    hide ByteOps, ByteStep;
    if |xs| == 0 {
      assert xs + ys == ys;
    } else {
      BytesOpsAppend(c, ByteStep(c, l, xs[0]), xs[1..], ys);
      assert (xs + ys)[1..] == xs[1..] + ys;
    }
  }

  // ----- one record -----

  /** The words of a record below the boot section. The first is loaded under the
      page the parser holds, the others under pages below the boot section; then
      the parser holds the page behind the record. */
  lemma {:induction false} WordsSafeIff(c: Part, l: Loader, data: seq<byte>)
    requires ValidLoader(c, l) && l.p.phase == ReadData && l.p.recordType == DATA_RECORD && DirtyBelow(c, l.p)
    requires 0 < |data| == l.p.dataRem as nat && |data| % 2 == 0 && l.p.addr + |data| <= c.boot
    ensures var r := RunBytes(c, l, data);
            && (Safe(c, BytesOps(c, l, data)) <==> l.p.pageStart < c.boot)
            && (l.p.pageStart < c.boot ==> DirtyBelow(c, r.p))
            && r.p.phase == Checksum && r.p.base == l.p.base && r.p.addr == l.p.addr + |data|
            && r.p.pageStart == PageOf(r.p.addr, c.page)
    decreases |data|
  {
    hide TakeByte, DataWord, Safe, DirtyBelow, PageOf, Apply;
    var x, y, rest := data[0], data[1], data[2..];
    assert data == [x, y] + rest;
    WordStep(c, l, x, y);
    var l2 := RunBytes(c, l, [x, y]);
    BytesOpsAppend(c, l, [x, y], rest);
    RunBytesAppend(c, l, [x, y], rest);
    SafeAppend(c, BytesOps(c, l, [x, y]), BytesOps(c, l2, rest));
    if |rest| == 0 {
      assert Safe(c, []) by { NothingSafe(c); }
    } else {
      PageBelow(l2.p.addr, c.boot, c.page);
      if l.p.pageStart < c.boot {
        WordsSafeIff(c, l2, rest);
      } else {
        WordsMove(c, l2, rest);
      }
    }
  }

  lemma NothingSafe(c: Part)
    ensures Safe(c, [])
  {
  }

  /** One word. */
  lemma WordStep(c: Part, l: Loader, x: byte, y: byte)
    requires ValidLoader(c, l) && l.p.phase == ReadData && l.p.recordType == DATA_RECORD
    requires l.p.dataRem >= 2 && l.p.dataRem % 2 == 0 && l.p.addr < c.boot
    ensures var r := RunBytes(c, l, [x, y]);
            && (DirtyBelow(c, l.p) ==> (Safe(c, BytesOps(c, l, [x, y])) <==> l.p.pageStart < c.boot))
            && (DirtyBelow(c, l.p) && l.p.pageStart < c.boot ==> DirtyBelow(c, r.p))
            && r.p.phase == (if l.p.dataRem == 2 then Checksum else ReadData) && r.p.dataRem == l.p.dataRem - 2
            && r.p.base == l.p.base && r.p.addr == l.p.addr + 2 && r.p.recordType == DATA_RECORD
            && r.p.pageStart == PageOf(r.p.addr, c.page)
  {
    hide TakeByte, DataWord, Safe, PageOf, Apply, Flush;
    LowByte(c, l.p, x);
    ExecNothing(l, TakeByte(c, l.p, x).p);
    var l1 := ByteStep(c, l, x);
    HighByte(c, l1.p, y);
    var q := l1.p.(data := y, readMSB := false, checksum := AddByte(l1.p.checksum, y), dataRem := l1.p.dataRem - 1);
    DataWordKeeps(c, q, x, y);
    WordMoves(c, q, x, y);
    if DirtyBelow(c, l.p) {
      WordSafeIff(c, q, x, y);
    }
    assert [x, y][1..] == [y] && [y][1..] == [];
    var l2 := ByteStep(c, l1, y);
    MemoryAside(l1, TakeByte(c, l1.p, y));
    assert RunBytes(c, l1, [y]) == RunBytes(c, l2, []);
    assert BytesOps(c, l1, [y]) == ByteOps(c, l1.p, y) + BytesOps(c, l2, []);
    assert BytesOps(c, l, [x, y]) == ByteOps(c, l1.p, y);
  }

  lemma MemoryAside(l: Loader, o: Out)
    requires ValidMemory(l.m)
    ensures Apply(l, o).p == o.p
  {
  }

  /** After a word the parser holds the page behind it. */
  lemma WordMoves(c: Part, p: Parser, lo: byte, hi: byte)
    requires ValidPart(c)
    ensures DataWord(c, p, lo, hi).p.pageStart == PageOf(p.addr + 2, c.page)
  {
    hide PageOf;
  }

  lemma {:induction false} WordsMove(c: Part, l: Loader, data: seq<byte>)
    requires ValidLoader(c, l) && l.p.phase == ReadData && l.p.recordType == DATA_RECORD
    requires 0 < |data| == l.p.dataRem as nat && |data| % 2 == 0 && l.p.addr + |data| <= c.boot
    ensures var r := RunBytes(c, l, data);
            && r.p.phase == Checksum && r.p.base == l.p.base && r.p.addr == l.p.addr + |data|
            && r.p.pageStart == PageOf(r.p.addr, c.page)
    decreases |data|
  {
    hide TakeByte, Safe, PageOf, Apply, BytesOps, DirtyBelow;
    var x, y, rest := data[0], data[1], data[2..];
    assert data == [x, y] + rest;
    WordStep(c, l, x, y);
    RunBytesAppend(c, l, [x, y], rest);
    if |rest| > 0 {
      WordsMove(c, RunBytes(c, l, [x, y]), rest);
    }
  }

  /** The header issues nothing. */
  lemma HeaderSilent(c: Part, l: Loader, len: nat, address: nat)
    requires ValidLoader(c, l) && len < 256 && address < 0x10000
    requires l.p.phase == ByteCount && !l.p.readMSB
    ensures BytesOps(c, l, Header(len, address, DATA_RECORD)) == []
  {
    hide TakeByte, Apply;
    var h := Header(len, address, DATA_RECORD);
    assert h == [h[0], h[1], h[2], h[3]];
    HeaderByte(c, l.p, h[0]);
    MemoryAside(l, TakeByte(c, l.p, h[0]));
    var l1 := ByteStep(c, l, h[0]);
    HeaderByte(c, l1.p, h[1]);
    MemoryAside(l1, TakeByte(c, l1.p, h[1]));
    var l2 := ByteStep(c, l1, h[1]);
    HeaderByte(c, l2.p, h[2]);
    MemoryAside(l2, TakeByte(c, l2.p, h[2]));
    var l3 := ByteStep(c, l2, h[2]);
    HeaderByte(c, l3.p, h[3]);
    SilentFour(c, l, h);
  }

  lemma SilentFour(c: Part, l: Loader, h: seq<byte>)
    requires ValidLoader(c, l) && |h| == 4
    ensures var l1 := ByteStep(c, l, h[0]);
            var l2 := ByteStep(c, l1, h[1]);
            var l3 := ByteStep(c, l2, h[2]);
            BytesOps(c, l, h)
            == ByteOps(c, l.p, h[0]) + (ByteOps(c, l1.p, h[1]) + (ByteOps(c, l2.p, h[2]) + ByteOps(c, l3.p, h[3])))
  {
    hide ByteOps, ByteStep;
    var l1 := ByteStep(c, l, h[0]);
    var l2 := ByteStep(c, l1, h[1]);
    var l3 := ByteStep(c, l2, h[2]);
    assert h[1..][1..] == h[2..] && h[2..][1..] == h[3..] && h[3..][1..] == [];
    assert BytesOps(c, l3, h[3..]) == ByteOps(c, l3.p, h[3]) + BytesOps(c, ByteStep(c, l3, h[3]), []);
    assert BytesOps(c, l2, h[2..]) == ByteOps(c, l2.p, h[2]) + BytesOps(c, l3, h[3..]);
    assert BytesOps(c, l1, h[1..]) == ByteOps(c, l1.p, h[1]) + BytesOps(c, l2, h[2..]);
  }

  /** A checksum byte behind the page the parser holds issues nothing. */
  lemma ChecksumSilent(c: Part, l: Loader, b: byte)
    requires ValidLoader(c, l) && l.p.phase == Checksum && l.p.pageStart == PageOf(l.p.addr, c.page)
    ensures var r := ByteStep(c, l, b);
            ByteOps(c, l.p, b) == [] && r.p.base == l.p.base && r.p.pageStart == l.p.pageStart && r.p.dirty == l.p.dirty
  {
    hide PageOf, Complement, ExecAll;
  }

  /** A data record of whole words below the boot section is safe exactly when the
      parser holds a page below it; then the parser holds the page behind the
      record. */
  lemma RecordSafeIff(c: Part, l: Loader, address: nat, data: seq<byte>)
    requires ValidLoader(c, l) && l.p.base == 0 && DirtyBelow(c, l.p)
    requires 0 < |data| < 256 && |data| % 2 == 0 && address < 0x10000 && address + |data| <= c.boot
    ensures var text := Record(address, DATA_RECORD, data);
            var r := Run(c, l, text);
            && (Safe(c, Trace(c, l.p, text)) <==> l.p.pageStart < c.boot)
            && (l.p.pageStart < c.boot ==> DirtyBelow(c, r.p))
            && r.p.base == 0 && r.p.pageStart == PageOf(address + |data|, c.page)
  {
    hide Run, TakeByte, Sum, Complement, Apply, RunBytes, BytesOps, Safe, DirtyBelow;
    hide PageOf, Header, HexBytes, ByteStep, ByteOps, Trace;
    var h := Header(|data|, address, DATA_RECORD);
    var body := h + data;
    var check := Complement(Sum(body));
    var start := l.(p := l.p.(checksum := 0, addr := l.p.base, readMSB := false, phase := ByteCount));
    var l1 := start.(p := AfterHeader(start.p, |data|, address, DATA_RECORD));
    RunRecord(c, l, address, DATA_RECORD, data);
    RecordTrace(c, l, address, data);
    DirtySame(c, l.p, l1.p);
    WordsSafeIff(c, l1, data);
    var l2 := RunBytes(c, l1, data);
    ChecksumSilent(c, l2, check);
    DirtySame(c, l2.p, ByteStep(c, l2, check).p);
    assert BytesOps(c, l1, data) + [] == BytesOps(c, l1, data);
  }

  lemma DirtySame(c: Part, p: Parser, q: Parser)
    requires q.dirty == p.dirty && q.pageStart == p.pageStart
    ensures DirtyBelow(c, p) == DirtyBelow(c, q)
  {
  }

  /** The operations of a record are those of its data and its checksum. */
  lemma RecordTrace(c: Part, l: Loader, address: nat, data: seq<byte>)
    requires ValidLoader(c, l) && 0 < |data| < 256 && address < 0x10000
    ensures var start := l.(p := l.p.(checksum := 0, addr := l.p.base, readMSB := false, phase := ByteCount));
            var l1 := start.(p := AfterHeader(start.p, |data|, address, DATA_RECORD));
            var check := Complement(Sum(Header(|data|, address, DATA_RECORD) + data));
            Trace(c, l.p, Record(address, DATA_RECORD, data))
            == BytesOps(c, l1, data) + ByteOps(c, RunBytes(c, l1, data).p, check)
  {
    hide Run, Trace, Step, TakeByte, Sum, Complement, Apply, RunBytes, BytesOps, HexBytes, ByteStep, ByteOps, AfterHeader, Header;
    var h := Header(|data|, address, DATA_RECORD);
    var body := h + data;
    var check := Complement(Sum(body));
    var start := l.(p := l.p.(checksum := 0, addr := l.p.base, readMSB := false, phase := ByteCount));
    var l1 := start.(p := AfterHeader(start.p, |data|, address, DATA_RECORD));
    var text := HexBytes(body + [check]);
    ColonTrace(c, l, text);
    TraceHex(c, start, body + [check]);
    BytesOpsAppend(c, start, body, [check]);
    BytesOpsAppend(c, start, h, data);
    HeaderSilent(c, start, |data|, address);
    ReadHeader(c, start, |data|, address, DATA_RECORD);
    RunBytesAppend(c, start, h, data);
    OneByte(c, RunBytes(c, l1, data), check);
    assert [] + BytesOps(c, l1, data) == BytesOps(c, l1, data);
  }

  lemma OneByte(c: Part, l: Loader, b: byte)
    requires ValidLoader(c, l)
    ensures BytesOps(c, l, [b]) == ByteOps(c, l.p, b)
  {
    hide ByteOps, ByteStep;
    assert [b][1..] == [];
    assert BytesOps(c, l, [b]) == ByteOps(c, l.p, b) + BytesOps(c, ByteStep(c, l, b), []);
  }

  lemma ColonTrace(c: Part, l: Loader, text: string)
    requires ValidLoader(c, l)
    ensures Trace(c, l.p, ":" + text)
            == Trace(c, l.p.(checksum := 0, addr := l.p.base, readMSB := false, phase := ByteCount), text)
  {
    hide TakeByte;
    assert (":" + text)[0] == ':' && (":" + text)[1..] == text;
  }

  // ----- lists of records -----

  datatype DataRecord = DataRecord(at: nat, bytes: seq<byte>)

  /** A data record of whole words below the boot section. */
  predicate Fits(c: Part, r: DataRecord) {
    0 < |r.bytes| < 256 && |r.bytes| % 2 == 0 && r.at < 0x10000 && r.at + |r.bytes| <= c.boot
  }

  predicate AllFit(c: Part, rs: seq<DataRecord>) {
    forall i | 0 <= i < |rs| :: Fits(c, rs[i])
  }

  /** The record ends where the boot section starts. */
  predicate Reaches(c: Part, r: DataRecord) {
    r.at + |r.bytes| == c.boot
  }

  function TextOf(c: Part, rs: seq<DataRecord>): (text: string)
    requires AllFit(c, rs)
    decreases |rs|
  {
    if |rs| == 0 then "" else Record(rs[0].at, DATA_RECORD, rs[0].bytes) + TextOf(c, rs[1..])
  }

  /** Data records in any order, whose addresses need not be contiguous, erase or
      write a page of the boot section exactly when one that reaches it is not the
      last. */
  lemma {:induction false} RecordsSafeIff(c: Part, l: Loader, rs: seq<DataRecord>)
    requires ValidLoader(c, l) && l.p.base == 0 && DirtyBelow(c, l.p) && AllFit(c, rs)
    ensures Safe(c, Trace(c, l.p, TextOf(c, rs)))
            <==> |rs| == 0 || (l.p.pageStart < c.boot && forall i | 0 <= i < |rs| - 1 :: !Reaches(c, rs[i]))
    decreases |rs|
  {
    hide Run, Trace, Safe, DirtyBelow, PageOf, Record, ValidLoader;
    if |rs| == 0 {
      NoTrace(c, l.p) by { LoaderPart(c, l); }
      NothingSafe(c);
    } else {
      var r, rest := rs[0], rs[1..];
      var text := Record(r.at, DATA_RECORD, r.bytes);
      var l1 := Run(c, l, text);
      assert ValidPart(c) by { LoaderPart(c, l); }
      RecordSafeIff(c, l, r.at, r.bytes);
      TraceAppend(c, l, text, TextOf(c, rest));
      SafeAppend(c, Trace(c, l.p, text), Trace(c, l1.p, TextOf(c, rest)));
      PageBelow(r.at + |r.bytes|, c.boot, c.page);
      if l.p.pageStart < c.boot {
        RecordsSafeIff(c, l1, rest);
        assert l1.p.pageStart < c.boot <==> !Reaches(c, r);
        LaterReaches(c, rs);
      }
    }
  }

  lemma LoaderPart(c: Part, l: Loader)
    requires ValidLoader(c, l)
    ensures ValidPart(c)
  {
  }

  lemma LaterReaches(c: Part, rs: seq<DataRecord>)
    requires |rs| > 0
    ensures (forall i | 0 <= i < |rs| - 1 :: !Reaches(c, rs[i]))
            <==> (|rs| == 1 || !Reaches(c, rs[0])) && forall i | 0 <= i < |rs[1..]| - 1 :: !Reaches(c, rs[1..][i])
  {
    var rest := rs[1..];
    assert forall i | 0 <= i < |rest| :: rest[i] == rs[i + 1];
    if forall i | 0 <= i < |rest| - 1 :: !Reaches(c, rest[i]) {
      forall i | 0 < i < |rs| - 1 ensures !Reaches(c, rs[i]) {
        assert rest[i - 1] == rs[i];
      }
    }
  }

  /** So a sender that puts a record reaching the boot section only last leaves the
      boot section as it was. */
  lemma RecordsKeepBoot(c: Part, l: Loader, rs: seq<DataRecord>)
    requires ValidLoader(c, l) && Fresh(l.p) && 0 < c.boot <= |l.m.flash| && AllFit(c, rs)
    requires forall i | 0 <= i < |rs| - 1 :: !Reaches(c, rs[i])
    ensures Run(c, l, TextOf(c, rs)).m.flash[c.boot..] == l.m.flash[c.boot..]
  {
    hide Run, Trace, TextOf, ExecAll, Safe;
    RecordsSafeIff(c, l, rs);
    RunIsTrace(c, l, TextOf(c, rs));
    ExecAllKeepsBoot(c, l.m, Trace(c, l.p, TextOf(c, rs)));
  }
}
