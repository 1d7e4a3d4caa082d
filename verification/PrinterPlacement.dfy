/** Printing an Intel HEX file places its image: what the Printer parser leaves
    in flash after the records of a contiguous image. */
module PrinterPlacement {
  import opened Spm
  import opened Chunks
  import opened IntelHex
  import opened Printer

  // ----- from characters to bytes -----

  /** The effect of one byte of text; waiting for a line discards it. */
  function ByteStep(c: Part, l: Loader, b: byte): (r: Loader)
    requires ValidLoader(c, l)
    ensures ValidLoader(c, r) && |r.m.flash| == |l.m.flash|
  {
    if l.p.phase == WaitLine then l.(p := l.p.(checksum := 0, addr := l.p.base, readMSB := false))
    else Apply(l, TakeByte(c, l.p, b))
  }

  function RunBytes(c: Part, l: Loader, bs: seq<byte>): (r: Loader)
    requires ValidLoader(c, l)
    ensures ValidLoader(c, r) && |r.m.flash| == |l.m.flash|
    decreases |bs|
  {
    if |bs| == 0 then l else RunBytes(c, ByteStep(c, l, bs[0]), bs[1..])
  }

  lemma DigitValue(v: nat)
    requires v < 16
    ensures HexToDecimal(Digit(v)) == v && Digit(v) != ':'
  {
  }

  lemma ExecNothing(l: Loader, p: Parser)
    requires ValidMemory(l.m)
    ensures Apply(l, Out(p, [])) == l.(p := p)
  {
  }

  lemma TakeByteReady(c: Part, p: Parser, b: byte)
    requires ValidPart(c)
    ensures !TakeByte(c, p, b).p.readMSB
  {
  }

  /** The first digit of a byte only shifts a nibble in. */
  lemma FirstDigit(c: Part, p: Parser, v: nat)
    requires ValidPart(c) && v < 16 && !p.readMSB && p.phase != WaitLine
    ensures Step(c, p, Digit(v)) == Out(p.(data := ShiftIn(p.data, v), readMSB := true), [])
  {
    hide ShiftIn, TakeByte, Digit, HexToDecimal;
    DigitValue(v);
  }

  /** The second digit completes the byte. */
  lemma SecondDigit(c: Part, p: Parser, b: byte)
    requires ValidPart(c) && p.phase != WaitLine && p.readMSB && LowNibble(p.data) == (b / 16) as nat
    ensures Step(c, p, Digit((b % 16) as nat)) == TakeByte(c, p, b)
  {
    hide TakeByte, ShiftIn, Digit, HexToDecimal;
    DigitValue((b % 16) as nat);
    assert 16 * (b / 16) + b % 16 == b;
  }

  /** The half-assembled byte does not matter once the byte is complete. */
  lemma TakeByteIgnoresData(c: Part, p: Parser, q: Parser, b: byte)
    requires ValidPart(c) && q == p.(data := q.data, readMSB := q.readMSB)
    ensures TakeByte(c, p, b) == TakeByte(c, q, b)
  {
    assert p.(data := b, readMSB := false) == q.(data := b, readMSB := false);
  }

  lemma RunTwo(c: Part, l: Loader, x: char, y: char)
    requires ValidLoader(c, l)
    ensures var l1 := Apply(l, Step(c, l.p, x));
            Run(c, l, [x, y]) == Apply(l1, Step(c, l1.p, y))
  {
    hide Step, Apply;
    var l1 := Apply(l, Step(c, l.p, x));
    assert [x, y][1..] == [y] && [y][1..] == [];
    assert Run(c, l1, [y]) == Run(c, Apply(l1, Step(c, l1.p, y)), []);
  }

  /** Outside a record any character but ':' resets the line fields. */
  lemma WaitingStep(c: Part, p: Parser, ch: char)
    requires ValidPart(c) && p.phase == WaitLine && ch != ':'
    ensures Step(c, p, ch) == Out(p.(checksum := 0, addr := p.base, readMSB := false), [])
  {
  }

  lemma TwoDigits(c: Part, l: Loader, b: byte)
    requires ValidLoader(c, l) && !l.p.readMSB
    ensures Run(c, l, HexByte(b)) == ByteStep(c, l, b)
    ensures !ByteStep(c, l, b).p.readMSB
  {
    hide TakeByte, Step, Apply, Digit, HexToDecimal, ShiftIn, LowNibble;
    var d1, d2 := Digit((b / 16) as nat), Digit((b % 16) as nat);
    var l1 := Apply(l, Step(c, l.p, d1));
    RunTwo(c, l, d1, d2);
    DigitValue((b / 16) as nat);
    DigitValue((b % 16) as nat);
    ExecNothing(l, Step(c, l.p, d1).p);
    if l.p.phase == WaitLine {
      WaitingStep(c, l.p, d1);
      WaitingStep(c, l1.p, d2);
      ExecNothing(l1, Step(c, l1.p, d2).p);
    } else {
      FirstDigit(c, l.p, (b / 16) as nat);
      SecondDigit(c, l1.p, b);
      TakeByteIgnoresData(c, l.p, l1.p, b);
      TakeByteReady(c, l.p, b);
      SameMemory(l, l1, TakeByte(c, l.p, b));
    }
  }

  lemma SameMemory(l: Loader, l1: Loader, o: Out)
    requires ValidMemory(l.m) && l1.m == l.m
    ensures Apply(l, o) == Apply(l1, o) && Apply(l, o).p == o.p
  {
  }

  /** Reading the text of bytes is reading the bytes. */
  lemma {:induction false} RunHex(c: Part, l: Loader, bs: seq<byte>)
    requires ValidLoader(c, l) && !l.p.readMSB
    ensures Run(c, l, HexBytes(bs)) == RunBytes(c, l, bs)
    decreases |bs|
  {
    hide Step, ByteStep, Apply, HexByte;
    if |bs| > 0 {
      TwoDigits(c, l, bs[0]);
      RunAppend(c, l, HexByte(bs[0]), HexBytes(bs[1..]));
      RunHex(c, ByteStep(c, l, bs[0]), bs[1..]);
    }
  }

  lemma {:induction false} RunBytesAppend(c: Part, l: Loader, xs: seq<byte>, ys: seq<byte>)
    requires ValidLoader(c, l)
    ensures RunBytes(c, l, xs + ys) == RunBytes(c, RunBytes(c, l, xs), ys)
    decreases |xs|
  {
    hide ByteStep;
    if |xs| == 0 {
      assert xs + ys == ys;
    } else {
      RunBytesAppend(c, ByteStep(c, l, xs[0]), xs[1..], ys);
      assert (xs + ys)[1..] == xs[1..] + ys;
    }
  }

  // ----- one word of data -----

  /** The page bookkeeping is in step with address a. */
  predicate InStep(c: Part, p: Parser, a: nat)
    requires ValidPart(c)
  {
    p.pageStart == PageOf(a, c.page) && p.dirty == !Aligned(a, c.page)
  }

  lemma ExecThree(m: Memory, x: Op, y: Op, z: Op)
    requires ValidMemory(m)
    ensures ExecAll(m, []) == m
    ensures ExecAll(m, [x]) == Exec(m, x)
    ensures ExecAll(m, [x, y]) == Exec(Exec(m, x), y)
    ensures ExecAll(m, [x, y, z]) == Exec(Exec(Exec(m, x), y), z)
  {
    hide Exec;
    assert [x, y, z][1..] == [y, z] && [y, z][1..] == [z] && [z][1..] == [] && [x, y][1..] == [y];
    assert ExecAll(Exec(m, x), [y]) == ExecAll(Exec(Exec(m, x), y), []);
    assert ExecAll(Exec(m, x), [y, z]) == ExecAll(Exec(Exec(m, x), y), [z])
        == ExecAll(Exec(Exec(Exec(m, x), y), z), []);
  }

  /** The operations of the one-word streaming step at a. */
  function StreamOps(a: nat, page: nat, lo: byte, hi: byte): (ops: seq<Op>)
    requires ValidPage(page)
  {
    var p, f := PageOf(a, page), FillOp(a, lo, hi);
    if Aligned(a, page) then
      if Aligned(a + 2, page) then [EraseOp(p), f, WriteOp(p)] else [EraseOp(p), f]
    else
      if Aligned(a + 2, page) then [f, WriteOp(p)] else [f]
  }

  lemma StreamOpsExec(m: Memory, a: nat, lo: byte, hi: byte)
    requires ValidMemory(m)
    ensures ExecAll(m, StreamOps(a, |m.buffer|, lo, hi)) == StreamWord(m, a, lo, hi)
  {
    hide Erase, Fill, Write, Offset, PageOf, ExecAll;
    var p := PageOf(a, |m.buffer|);
    var e, f, w := EraseOp(p), FillOp(a, lo, hi), WriteOp(p);
    SamePage(m, a, p);
    var erased := if Aligned(a, |m.buffer|) then Erase(m, a) else m;
    SamePage(Fill(erased, a, lo, hi), a, p);
    ExecThree(m, e, f, w);
    ExecThree(m, f, w, w);
  }

  /** With the bookkeeping in step, a data word issues the streaming step. */
  lemma DataWordStreams(c: Part, p: Parser, lo: byte, hi: byte)
    requires ValidPart(c) && p.addr % 2 == 0 && InStep(c, p, p.addr)
    ensures var o := DataWord(c, p, lo, hi);
            && o.ops == StreamOps(p.addr, c.page, lo, hi)
            && InStep(c, o.p, p.addr + 2)
            && o.p == p.(pageStart := o.p.pageStart, dirty := o.p.dirty, addr := p.addr + 2)
  {
    hide Offset, PageOf;
    PageStable(p.addr, c.page);
    PageStable(p.addr + 2, c.page);
    PageCrossing(p.addr, c.page);
  }

  // ----- the data of a record -----

  /** Parser and memory are exactly where streaming `done` from address 0 of
      the memory m0 leads. */
  predicate Tracking(c: Part, l: Loader, m0: Memory, done: seq<byte>) {
    && ValidLoader(c, l) && |m0.buffer| == c.page && c.boot <= |m0.flash|
    && |done| % 2 == 0 && |done| <= c.boot
    && l.m == Streamed(m0, 0, done)
    && InStep(c, l.p, |done|)
    && l.p.base == 0 && l.p.run && !l.p.readMSB
  }

  function AddByte(sum: byte, b: byte): (r: byte) {
    ((sum as int + b as int) % 256) as byte
  }

  /** A byte that leaves an odd number to come waits as the low byte of a word. */
  lemma LowByte(c: Part, p: Parser, b: byte)
    requires ValidPart(c) && p.phase == ReadData && p.dataRem > 0 && p.dataRem % 2 == 0 && p.addr < c.boot
    ensures TakeByte(c, p, b) == Out(p.(data := b, readMSB := false, checksum := AddByte(p.checksum, b),
                                        dataRem := p.dataRem - 1, prevData := b), [])
  {
  }

  /** A byte that leaves an even number to come completes a word. */
  lemma HighByte(c: Part, p: Parser, b: byte)
    requires ValidPart(c) && p.phase == ReadData && p.dataRem % 2 == 1 && p.addr < c.boot
    requires p.recordType == DATA_RECORD
    ensures var o := DataWord(c, p.(data := b, readMSB := false, checksum := AddByte(p.checksum, b),
                                    dataRem := p.dataRem - 1), p.prevData, b);
            TakeByte(c, p, b) == Out(if p.dataRem == 1 then o.p.(phase := Checksum) else o.p, o.ops)
  {
    hide DataWord;
  }

  /** Reading a record's data with `n` bytes to come. */
  predicate Reading(c: Part, l: Loader, m0: Memory, done: seq<byte>, n: nat) {
    && Tracking(c, l, m0, done) && n < 256
    && l.p.phase == (if n > 0 then ReadData else Checksum)
    && l.p.dataRem as nat == n && l.p.recordType == DATA_RECORD && l.p.addr == |done|
  }

  lemma ReadLow(c: Part, l: Loader, m0: Memory, done: seq<byte>, n: nat, b: byte)
    requires Reading(c, l, m0, done, n) && n > 0 && n % 2 == 0 && |done| < c.boot
    ensures var r := ByteStep(c, l, b);
            Reading(c, r, m0, done, n - 1) && r.p.prevData == b && r.p.checksum == AddByte(l.p.checksum, b)
  {
    hide TakeByte, Streamed, PageOf, Offset, Apply;
    LowByte(c, l.p, b);
    ExecNothing(l, TakeByte(c, l.p, b).p);
  }

  lemma EvenBoot(c: Part, n: nat)
    requires ValidPart(c) && n % 2 == 0 && n < c.boot
    ensures n + 2 <= c.boot
  {
    AlignedEven(c.boot, c.page);
  }

  lemma {:induction false} AlignedEven(a: nat, page: nat)
    requires ValidPage(page) && Aligned(a, page)
    ensures a % 2 == 0
  {
    hide Offset;
    OffsetStep(a, page);
    if a >= page {
      AlignedEven(a - page, page);
      EvenSum(a - page, page);
    }
  }

  lemma OffsetStep(a: nat, page: nat)
    requires ValidPage(page)
    ensures Offset(a, page) == if a < page then a else Offset(a - page, page)
  {
  }

  lemma EvenSum(x: nat, y: nat)
    requires x % 2 == 0 && y % 2 == 0
    ensures (x + y) % 2 == 0
  {
    assert x + y == 2 * (x / 2 + y / 2);
  }

  lemma ReadHigh(c: Part, l: Loader, m0: Memory, done: seq<byte>, n: nat, b: byte)
    requires Reading(c, l, m0, done, n) && n % 2 == 1 && |done| < c.boot
    ensures var r := ByteStep(c, l, b);
            Reading(c, r, m0, done + [l.p.prevData, b], n - 1) && r.p.checksum == AddByte(l.p.checksum, b)
  {
    hide TakeByte, Streamed, PageOf, Offset, ExecAll, StreamOps, StreamWord, DataWord;
    var q := l.p.(data := b, readMSB := false, checksum := AddByte(l.p.checksum, b), dataRem := l.p.dataRem - 1);
    HighByte(c, l.p, b);
    DataWordStreams(c, q, q.prevData, b);
    StreamOpsExec(l.m, q.addr, q.prevData, b);
    EvenBoot(c, |done|);
    AlignedZero(c.page);
    StreamedWord(m0, 0, done, q.prevData, b);
  }

  /** What the data bytes of a record contribute: an odd count pairs the first
      byte with whatever low byte was left over. */
  function Paired(prev: byte, data: seq<byte>): (r: seq<byte>)
    ensures |r| == |data| + |data| % 2
  {
    if |data| % 2 == 1 then [prev] + data else data
  }

  lemma PairedStep(done: seq<byte>, prev: byte, any: byte, data: seq<byte>)
    requires |data| > 0
    ensures |data| % 2 == 0 ==> done + Paired(prev, data) == done + Paired(data[0], data[1..])
    ensures |data| % 2 == 1 ==> done + Paired(prev, data) == done + [prev, data[0]] + Paired(any, data[1..])
  {
    var x, rest := data[0], data[1..];
    assert [x] + rest == data;
    PairJoin(done, prev, x, rest);
  }

  lemma PairJoin(done: seq<byte>, prev: byte, x: byte, rest: seq<byte>)
    ensures done + ([prev] + ([x] + rest)) == done + [prev, x] + rest
  {
  }

  lemma {:induction false} ReadAll(c: Part, l: Loader, m0: Memory, done: seq<byte>, data: seq<byte>)
    requires Reading(c, l, m0, done, |data|) && |done| + |data| <= c.boot
    ensures var r := RunBytes(c, l, data);
            && Reading(c, r, m0, done + Paired(l.p.prevData, data), 0)
            && r.p.checksum as nat == (l.p.checksum as nat + Sum(data)) % 256
    decreases |data|
  {
    hide ByteStep, Tracking, Reading, AddByte, ValidLoader, Paired, ValidPart;
    if |data| == 0 {
      assert done + Paired(l.p.prevData, data) == done;
    } else {
      var b, rest, prev := data[0], data[1..], l.p.prevData;
      ReadingEven(c, l, m0, done, |data|);
      AddByteSum(l.p.checksum, b, Sum(rest));
      var l1 := ByteStep(c, l, b);
      PairedStep(done, prev, l1.p.prevData, data);
      if |data| % 2 == 0 {
        ReadLow(c, l, m0, done, |data|, b);
        ReadAll(c, l1, m0, done, rest);
      } else {
        ReadHigh(c, l, m0, done, |data|, b);
        EvenBoot(c, |done| + |rest|);
        ReadAll(c, l1, m0, done + [prev, b], rest);
      }
    }
  }

  lemma ReadingEven(c: Part, l: Loader, m0: Memory, done: seq<byte>, n: nat)
    requires Reading(c, l, m0, done, n)
    ensures |done| % 2 == 0 && ValidLoader(c, l) && ValidPart(c)
  {
  }

  lemma AddByteSum(sum: byte, b: byte, n: nat)
    ensures (AddByte(sum, b) as nat + n) % 256 == (sum as nat + (b as nat + n)) % 256
  {
  }

  // ----- whole records -----

  /** ':' starts a record in any phase. */
  lemma ColonStep(c: Part, l: Loader)
    requires ValidLoader(c, l)
    ensures Apply(l, Step(c, l.p, ':'))
            == l.(p := l.p.(checksum := 0, addr := l.p.base, readMSB := false, phase := ByteCount))
  {
    ExecNothing(l, Step(c, l.p, ':').p);
  }

  /** Parser right after the four header bytes. */
  function AfterHeader(p: Parser, len: nat, address: nat, kind: byte): (q: Parser)
    requires len < 256 && address < 0x10000
  {
    p.(phase := if len > 0 then ReadData else Checksum, data := kind, readMSB := false, recordType := kind,
       dataRem := len as byte, checksum := (Sum(Header(len, address, kind)) % 256) as byte, addr := p.base + address)
  }

  lemma HeaderSum(len: nat, address: nat, kind: byte)
    requires len < 256 && address < 0x10000
    ensures AddByte(AddByte(AddByte(AddByte(0, len as byte), (address / 256) as byte), (address % 256) as byte), kind)
            as nat == Sum(Header(len, address, kind)) % 256
  {
    hide AddByte, Sum;
    var h := Header(len, address, kind);
    var s1 := AddByte(0, h[0]);
    var s2 := AddByte(s1, h[1]);
    AddAllSum(0, h);
    assert h[1..][1..] == h[2..] && h[2..][1..] == h[3..] && h[3..][1..] == [];
    assert AddAll(s1, h[1..]) == AddAll(s2, h[2..]) == AddAll(AddByte(s2, h[2]), h[3..]);
    assert AddAll(AddByte(s2, h[2]), h[3..]) == AddAll(AddByte(AddByte(s2, h[2]), h[3]), []);
  }

  function AddAll(sum: byte, bs: seq<byte>): (r: byte)
    decreases |bs|
  {
    if |bs| == 0 then sum else AddAll(AddByte(sum, bs[0]), bs[1..])
  }

  /** Adding byte by byte is the sum modulo 256. */
  lemma {:induction false} AddAllSum(sum: byte, bs: seq<byte>)
    ensures AddAll(sum, bs) as nat == (sum as nat + Sum(bs)) % 256
    decreases |bs|
  {
    if |bs| > 0 {
      AddAllSum(AddByte(sum, bs[0]), bs[1..]);
      AddByteSum(sum, bs[0], Sum(bs[1..]));
    }
  }

  lemma HeaderByte(c: Part, p: Parser, b: byte)
    requires ValidPart(c)
    ensures var q := p.(data := b, readMSB := false, checksum := AddByte(p.checksum, b));
            && (p.phase == ByteCount ==> TakeByte(c, p, b) == Out(q.(dataRem := b, phase := AddressHigh), []))
            && (p.phase == AddressHigh ==>
                  TakeByte(c, p, b) == Out(q.(addr := q.addr + b as nat * 256, phase := AddressLow), []))
            && (p.phase == AddressLow ==>
                  TakeByte(c, p, b) == Out(q.(addr := q.addr + b as nat, phase := RecordType), []))
            && (p.phase == RecordType ==>
                  TakeByte(c, p, b)
                  == Out(q.(recordType := b, phase := if q.dataRem != 0 then ReadData else Checksum), []))
  {
  }

  lemma RunFour(c: Part, l: Loader, h: seq<byte>)
    requires ValidLoader(c, l) && |h| == 4
    ensures RunBytes(c, l, h)
            == ByteStep(c, ByteStep(c, ByteStep(c, ByteStep(c, l, h[0]), h[1]), h[2]), h[3])
  {
    hide ByteStep;
    var l1 := ByteStep(c, l, h[0]);
    var l2 := ByteStep(c, l1, h[1]);
    assert h[1..][1..] == h[2..] && h[2..][1..] == h[3..] && h[3..][1..] == [];
    assert RunBytes(c, l1, h[1..]) == RunBytes(c, l2, h[2..]);
    var l3 := ByteStep(c, l2, h[2]);
    assert RunBytes(c, l2, h[2..]) == RunBytes(c, l3, h[3..]);
    assert RunBytes(c, l3, h[3..]) == RunBytes(c, ByteStep(c, l3, h[3]), []);
  }

  lemma ReadHeader(c: Part, l: Loader, len: nat, address: nat, kind: byte)
    requires ValidLoader(c, l) && len < 256 && address < 0x10000
    requires l.p.phase == ByteCount && l.p.checksum == 0 && l.p.addr == l.p.base && !l.p.readMSB
    ensures RunBytes(c, l, Header(len, address, kind)) == l.(p := AfterHeader(l.p, len, address, kind))
  {
    hide TakeByte, Apply, AddByte, Sum;
    var h := Header(len, address, kind);
    RunFour(c, l, h);
    HeaderSum(len, address, kind);
    HeaderByte(c, l.p, h[0]);
    ExecNothing(l, TakeByte(c, l.p, h[0]).p);
    var l1 := ByteStep(c, l, h[0]);
    HeaderByte(c, l1.p, h[1]);
    ExecNothing(l1, TakeByte(c, l1.p, h[1]).p);
    var l2 := ByteStep(c, l1, h[1]);
    HeaderByte(c, l2.p, h[2]);
    ExecNothing(l2, TakeByte(c, l2.p, h[2]).p);
    var l3 := ByteStep(c, l2, h[2]);
    HeaderByte(c, l3.p, h[3]);
    ExecNothing(l3, TakeByte(c, l3.p, h[3]).p);
  }

  /** A record's text is ':' and its bytes. */
  lemma RunRecord(c: Part, l: Loader, address: nat, kind: byte, data: seq<byte>)
    requires ValidLoader(c, l) && |data| < 256 && address < 0x10000
    ensures var start := l.(p := l.p.(checksum := 0, addr := l.p.base, readMSB := false, phase := ByteCount));
            var body := Header(|data|, address, kind) + data;
            Run(c, l, Record(address, kind, data))
            == ByteStep(c, RunBytes(c, start.(p := AfterHeader(start.p, |data|, address, kind)), data),
                        Complement(Sum(body)))
  {
    hide Step, Apply, TakeByte, ByteStep, Sum, HexBytes, AfterHeader, Header, Complement;
    var start := l.(p := l.p.(checksum := 0, addr := l.p.base, readMSB := false, phase := ByteCount));
    var h := Header(|data|, address, kind);
    var body, text := h + data, HexBytes(h + data + [Complement(Sum(h + data))]);
    ColonStep(c, l);
    assert (":" + text)[0] == ':' && (":" + text)[1..] == text;
    RunHex(c, start, body + [Complement(Sum(body))]);
    RunBytesAppend(c, start, body, [Complement(Sum(body))]);
    RunBytesAppend(c, start, h, data);
    ReadHeader(c, start, |data|, address, kind);
    RunOne(c, RunBytes(c, start, body), Complement(Sum(body)));
  }

  lemma RunOne(c: Part, l: Loader, b: byte)
    requires ValidLoader(c, l)
    ensures RunBytes(c, l, [b]) == ByteStep(c, l, b)
  {
    hide ByteStep;
    assert [b][1..] == [];
  }

  /** An accepted checksum on a tracked data record changes nothing. */
  lemma AcceptData(c: Part, l: Loader, m0: Memory, done: seq<byte>, b: byte)
    requires Reading(c, l, m0, done, 0) && b == Complement(l.p.checksum as nat)
    ensures Tracking(c, ByteStep(c, l, b), m0, done) && ByteStep(c, l, b).p.prevData == l.p.prevData
  {
    hide Streamed, Complement, PageOf, Offset, Apply;
    var q := l.p.(data := b, readMSB := false);
    assert TakeByte(c, l.p, b) == Out(q, []);
    ExecNothing(l, q);
  }

  lemma ComplementMod(n: nat, m: nat)
    requires n % 256 == m % 256
    ensures Complement(n) == Complement(m)
  {
  }

  /** A data record that continues the stream extends it by its data, whatever
      its length: an odd one by one byte more. */
  lemma PlaceRecord(c: Part, l: Loader, m0: Memory, done: seq<byte>, data: seq<byte>)
    requires Tracking(c, l, m0, done) && 0 < |data| < 256
    requires |done| < 0x10000 && |done| + |data| <= c.boot
    ensures Tracking(c, Run(c, l, Record(|done|, DATA_RECORD, data)), m0, done + Paired(l.p.prevData, data))
  {
    hide Streamed, ByteStep, PageOf, Offset, Complement, RunBytes, Run, Record, Paired, Sum;
    var h := Header(|data|, |done|, DATA_RECORD);
    var start := l.(p := l.p.(checksum := 0, addr := l.p.base, readMSB := false, phase := ByteCount));
    var l1 := start.(p := AfterHeader(start.p, |data|, |done|, DATA_RECORD));
    RunRecord(c, l, |done|, DATA_RECORD, data);
    assert Reading(c, l1, m0, done, |data|);
    ReadAll(c, l1, m0, done, data);
    var l2 := RunBytes(c, l1, data);
    SumAppend(h, data);
    ModSum(Sum(h), Sum(data));
    ComplementMod(Sum(h + data), l2.p.checksum as nat);
    AcceptData(c, l2, m0, done + Paired(l.p.prevData, data), Complement(Sum(h + data)));
  }

  lemma ModSum(a: nat, b: nat)
    ensures (a % 256 + b) % 256 == (a + b) % 256 == ((a + b) % 256) % 256
  {
  }

  // ----- whole files -----

  /** Memory once the end-of-file record has been accepted: an image that
      reaches page 1 is programmed; a shorter one is left waiting in the buffer
      over an erased page 0, because the last flush compares against page 0. */
  function Committed(m0: Memory, image: seq<byte>): (r: Memory)
    requires ValidMemory(m0)
  {
    if |image| < |m0.buffer| then Streamed(m0, 0, image)
    else Memory(Programmed(m0.flash, |m0.buffer|, 0, image), Blank(|m0.buffer|))
  }

  lemma FirstPage(n: nat, page: nat)
    requires ValidPage(page)
    ensures PageOf(n, page) == 0 <==> n < page
    ensures PageOf(0, page) == 0
  {
    PageOfSmall(n, page);
    PageOfSmall(0, page);
  }

  lemma PageOfSmall(n: nat, page: nat)
    requires ValidPage(page)
    ensures PageOf(n, page) == 0 <==> n < page
  {
  }

  lemma CommitStreamed(m0: Memory, image: seq<byte>)
    requires ValidMemory(m0) && |image| >= |m0.buffer| && RoundUp(|image|, |m0.buffer|) <= |m0.flash|
    ensures Committed(m0, image)
            == if Aligned(|image|, |m0.buffer|) then Streamed(m0, 0, image)
               else Write(Streamed(m0, 0, image), PageOf(|image|, |m0.buffer|))
  {
    hide Streamed, Write, Programmed, RoundUp, Offset, PageOf;
    AlignedZero(|m0.buffer|);
    StreamedFlushed(m0, 0, image);
    SamePage(Streamed(m0, 0, image), |image|, PageOf(|image|, |m0.buffer|));
  }

  lemma RoundUpBound(n: nat, c: Part)
    requires ValidPart(c) && n <= c.boot
    ensures RoundUp(n, c.page) <= c.boot
  {
    BoundaryAbove(n, c.boot, c.page);
  }

  /** The end-of-file record flushes the last page and ends the session. */
  lemma AcceptEof(c: Part, l: Loader, m0: Memory, done: seq<byte>, b: byte)
    requires Tracking(c, l, m0, done)
    requires l.p.phase == Checksum && l.p.recordType == EOF_RECORD && l.p.addr == 0
    requires b == Complement(l.p.checksum as nat)
    ensures ByteStep(c, l, b).m == Committed(m0, done) && !ByteStep(c, l, b).p.run
  {
    hide Streamed, Complement, PageOf, Offset, Write, Committed, RoundUp;
    var page, o := c.page, TakeByte(c, l.p, b);
    FirstPage(|done|, page);
    ExecThree(l.m, WriteOp(l.p.pageStart), WriteOp(0), WriteOp(0));
    if |done| < page {
      CommitShort(m0, done);
    } else {
      RoundUpBound(|done|, c);
      CommitStreamed(m0, done);
      assert o.ops == if l.p.dirty then [WriteOp(l.p.pageStart)] else [];
    }
  }

  lemma CommitShort(m0: Memory, image: seq<byte>)
    requires ValidMemory(m0) && |image| < |m0.buffer|
    ensures Committed(m0, image) == Streamed(m0, 0, image)
  {
  }

  lemma PlaceEof(c: Part, l: Loader, m0: Memory, done: seq<byte>)
    requires Tracking(c, l, m0, done)
    ensures var r := Run(c, l, Record(0, EOF_RECORD, []));
            r.m == Committed(m0, done) && !r.p.run
  {
    hide Streamed, ByteStep, PageOf, Offset, Complement, Run, Record, Committed, Sum;
    var h := Header(0, 0, EOF_RECORD);
    var start := l.(p := l.p.(checksum := 0, addr := l.p.base, readMSB := false, phase := ByteCount));
    var l1 := start.(p := AfterHeader(start.p, 0, 0, EOF_RECORD));
    RunRecord(c, l, 0, EOF_RECORD, []);
    assert h + [] == h;
    ModSum(Sum(h), 0);
    ComplementMod(Sum(h), l1.p.checksum as nat);
    assert Tracking(c, l1, m0, done);
    AcceptEof(c, l1, m0, done, Complement(Sum(h)));
  }

  /** Records of even length that continue the stream extend it by their data. */
  lemma {:induction false} RecordsTracked(c: Part, l: Loader, m0: Memory, done: seq<byte>, chunks: seq<seq<byte>>)
    requires Tracking(c, l, m0, done)
    requires forall k | k in chunks :: 0 < |k| < 256 && |k| % 2 == 0
    requires |done| + |Flatten(chunks)| <= c.boot && |done| + |Flatten(chunks)| <= 0x10000
    ensures ValidLoader(c, l) && Tracking(c, Run(c, l, DataRecords(|done|, chunks)), m0, done + Flatten(chunks))
    decreases |chunks|
  {
    hide Run, Tracking, Record, ValidLoader;
    assert ValidLoader(c, l) by { TrackingValid(c, l, m0, done); }
    if |chunks| == 0 {
      assert done + [] == done;
      RunNothing(c, l);
    } else {
      var k, rest := chunks[0], chunks[1..];
      var text := Record(|done|, DATA_RECORD, k);
      PlaceRecord(c, l, m0, done, k);
      RunAppend(c, l, text, DataRecords(|done| + |k|, rest));
      RecordsTracked(c, Run(c, l, text), m0, done + k, rest);
      assert done + (k + Flatten(rest)) == done + k + Flatten(rest);
    }
  }

  lemma RunNothing(c: Part, l: Loader)
    requires ValidLoader(c, l)
    ensures Run(c, l, "") == l
  {
  }

  /** Then the end-of-file record commits it. */
  lemma PlaceFile(c: Part, l: Loader, m0: Memory, done: seq<byte>, chunks: seq<seq<byte>>)
    requires Tracking(c, l, m0, done)
    requires forall k | k in chunks :: 0 < |k| < 256 && |k| % 2 == 0
    requires |done| + |Flatten(chunks)| <= c.boot && |done| + |Flatten(chunks)| <= 0x10000
    ensures var r := Run(c, l, File(|done|, chunks));
            r.m == Committed(m0, done + Flatten(chunks)) && !r.p.run
  {
    hide Run, Tracking, Record, Committed, DataRecords, ValidLoader, Flatten;
    var text := DataRecords(|done|, chunks);
    RecordsTracked(c, l, m0, done, chunks);
    RunAppend(c, l, text, Record(0, EOF_RECORD, []));
    PlaceEof(c, Run(c, l, text), m0, done + Flatten(chunks));
  }

  lemma TrackingValid(c: Part, l: Loader, m0: Memory, done: seq<byte>)
    requires Tracking(c, l, m0, done)
    ensures ValidLoader(c, l)
  {
  }
}
