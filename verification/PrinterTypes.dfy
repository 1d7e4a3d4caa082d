/** Which lines of the text make the Printer parser touch the memory or its base
    address, over any stream: the words it loads and the bases it takes are those an
    independent decoder of the line finds, and records of every other type do
    nothing. */
module PrinterTypes {
  import opened Spm
  import opened IntelHex
  import opened Printer
  import opened PrinterPlacement
  import opened PrinterEof

  // ----- the words of a line, by the decoder -----

  /** The last byte of the line completes a word: an even number of data bytes is
      still to come. */
  predicate EndsWord(bs: seq<byte>) {
    4 < |bs| <= 4 + bs[0] as nat && (4 + bs[0] as nat - |bs|) % 2 == 0
  }

  /** The address of that word in a data record at `base`; an odd record starts with
      a word of one byte. */
  function WordAddress(base: nat, bs: seq<byte>): (a: nat)
    requires EndsWord(bs)
  {
    base + Word(bs[1], bs[2]) + (|bs| - 5) / 2 * 2
  }

  predicate IsData(bs: seq<byte>) {
    |bs| > 3 && bs[3] == 0
  }

  predicate IsExtended(bs: seq<byte>) {
    |bs| > 3 && (bs[3] == 2 || bs[3] == 4)
  }

  /** What the parser knows of the words of the line: their address and the byte
      that waits for its partner. */
  predicate Worded(p: Parser, bs: seq<byte>) {
    && (|bs| <= 1 ==> p.addr == p.base)
    && (|bs| == 2 ==> p.addr == p.base + 256 * bs[1] as nat)
    && (|bs| == 3 ==> p.addr == p.base + Word(bs[1], bs[2]))
    && (p.phase == ReadData ==>
          && (IsData(bs) ==> p.addr == p.base + Word(bs[1], bs[2]) + WordsBefore(bs))
          && (|bs| > 4 && p.dataRem % 2 == 1 ==> p.prevData == bs[|bs| - 1]))
  }

  /** Bytes of complete words read so far. */
  function WordsBefore(bs: seq<byte>): (n: nat)
    requires |bs| > 3
  {
    (|bs| - 4 + (bs[0] % 2) as nat) / 2 * 2
  }

  predicate WordedLine(p: Parser, h: Line) {
    h.Open? && p.phase != WaitLine ==> Worded(p, h.bytes)
  }

  lemma {:induction false} WordsCount(bs: seq<byte>)
    requires |bs| > 3
    ensures EndsWord(bs) ==> WordsBefore(bs) == (|bs| - 5) / 2 * 2 + 2
  {
    if EndsWord(bs) {
      var k, n := |bs| - 4, bs[0] as nat;
      assert k % 2 == n % 2;
      assert (bs[0] % 2) as nat == n % 2;
      if n % 2 == 0 {
        assert k == 2 * (k / 2);
      } else {
        assert k == 2 * (k / 2) + 1;
      }
    }
  }

  /** One byte more, with the words before it. */
  lemma WordsNext(bs: seq<byte>, b: byte)
    requires |bs| > 3 && |bs| < 4 + bs[0] as nat
    ensures if EndsWord(bs + [b]) then WordsBefore(bs + [b]) == WordsBefore(bs) + 2 else WordsBefore(bs + [b]) == WordsBefore(bs)
    ensures EndsWord(bs + [b]) ==> WordsBefore(bs) == (|bs| - 4) / 2 * 2
  {
    var k, n := |bs| - 4, bs[0] as nat;
    assert (bs + [b])[0] == bs[0] && (bs[0] % 2) as nat == n % 2;
    ParityStep(k, n);
  }

  lemma ParityStep(k: nat, n: nat)
    requires k < n
    ensures (n - k - 1) % 2 == 0 ==>
              (k + 1 + n % 2) / 2 * 2 == (k + n % 2) / 2 * 2 + 2 && (k + n % 2) / 2 * 2 == k / 2 * 2
    ensures (n - k - 1) % 2 != 0 ==> (k + 1 + n % 2) / 2 * 2 == (k + n % 2) / 2 * 2
  {
    var a, b := k / 2, n / 2;
    assert k == 2 * a + k % 2 && n == 2 * b + n % 2;
  }

  // ----- one byte -----

  /** The erases and loads among the operations. */
  function Loads(ops: seq<Op>): (r: seq<Op>)
    decreases |ops|
  {
    if |ops| == 0 then [] else (if ops[0].WriteOp? then [] else [ops[0]]) + Loads(ops[1..])
  }

  /** The low byte of the word: the byte before, or what an earlier record left. */
  function LowOf(p: Parser, bs: seq<byte>): (b: byte)
    requires |bs| > 4
  {
    if |bs| > 5 then bs[|bs| - 2] else p.prevData
  }

  /** The loads a line's last byte calls for: one word of a data record below the
      boot section, after an erase if the page is clean. */
  function Called(c: Part, p: Parser, bs: seq<byte>): (ops: seq<Op>) {
    if IsData(bs) && EndsWord(bs) && WordAddress(p.base, bs) < c.boot
    then (if p.dirty then [] else [EraseOp(p.pageStart)]) + [FillOp(WordAddress(p.base, bs), LowOf(p, bs), bs[|bs| - 1])]
    else []
  }

  /** The base after a line's last byte: the word of an extended address record,
      low byte first, in units of 16 bytes or 64 KiB; `read` if the line has not
      been abandoned. */
  function BaseAfter(p: Parser, bs: seq<byte>, read: bool): (a: nat) {
    if IsExtended(bs) && EndsWord(bs) && read
    then (bs[|bs| - 1] as nat * 256 + LowOf(p, bs) as nat) * (if bs[3] == 4 then 65536 else 16)
    else p.base
  }

  lemma FlushLoads(c: Part, p: Parser)
    requires ValidPart(c)
    ensures Loads(Flush(c, p).ops) == []
  {
    hide PageOf;
    var w := WriteOp(p.pageStart);
    assert [w][1..] == [];
    assert Loads([w]) == [] + Loads([]);
  }

  lemma WordLoads(c: Part, p: Parser, lo: byte, hi: byte)
    requires ValidPart(c)
    ensures Loads(DataWord(c, p, lo, hi).ops)
            == (if p.dirty then [] else [EraseOp(p.pageStart)]) + [FillOp(p.addr, lo, hi)]
  {
    hide Flush, PageOf;
    var tail, e, f := Flush(c, p.(dirty := true, addr := p.addr + 2)).ops, EraseOp(p.pageStart), FillOp(p.addr, lo, hi);
    FlushLoads(c, p.(dirty := true, addr := p.addr + 2));
    assert [] + [f] + tail == [f] + tail && ([f] + tail)[1..] == tail;
    assert [e] + [f] + tail == [e] + ([f] + tail) && ([e] + ([f] + tail))[1..] == [f] + tail;
    assert Loads([f] + tail) == [f] + Loads(tail);
    assert Loads([e] + ([f] + tail)) == [e] + Loads([f] + tail);
  }

  /** Header bytes and the checksum load nothing and keep the base. */
  lemma QuietByte(c: Part, p: Parser, bs: seq<byte>, b: byte)
    requires ValidPart(c) && p.phase != WaitLine && p.phase != ReadData && Position(p, bs) && Worded(p, bs)
    ensures var o := TakeByte(c, p, b);
            && Loads(o.ops) == [] == Called(c, p, bs + [b]) && o.p.base == p.base && o.p.phase != WaitLine
            && BaseAfter(p, bs + [b], true) == p.base && Worded(o.p, bs + [b])
  {
    hide Flush, Complement, PageOf;
    var q := p.(data := b, readMSB := false);
    FlushLoads(c, q);
    FlushKeeps(c, q);
    if |bs| == 3 {
      WordsStart(bs + [b]);
    }
  }

  lemma WordsStart(bs: seq<byte>)
    requires |bs| == 4
    ensures WordsBefore(bs) == 0
  {
    assert (bs[0] % 2) as nat < 2;
  }

  /** A byte of data. */
  lemma DataWords(c: Part, p: Parser, bs: seq<byte>, b: byte)
    requires ValidPart(c) && p.phase == ReadData && Position(p, bs) && Worded(p, bs)
    ensures var o, bs' := TakeByte(c, p, b), bs + [b];
            && Loads(o.ops) == Called(c, p, bs') && o.p.base == BaseAfter(p, bs', o.p.phase != WaitLine)
            && (o.p.phase != WaitLine ==> Worded(o.p, bs'))
  {
    hide TakeByte, WordsBefore, EndsWord;
    var bs' := bs + [b];
    WordsNext(bs, b);
    WordEnds(p, bs, b);
    DataTaken(c, p, b);
    assert bs'[|bs'| - 1] == b && bs'[1] == bs[1] && bs'[2] == bs[2] && bs'[3] == bs[3];
    assert |bs'| > 5 ==> bs'[|bs'| - 2] == bs[|bs| - 1];
    if EndsWord(bs') {
      assert LowOf(p, bs') == p.prevData;
    }
  }

  /** What a byte of data does, by the bytes still to come. */
  lemma DataTaken(c: Part, p: Parser, b: byte)
    requires ValidPart(c) && p.phase == ReadData && p.dataRem > 0
    ensures var o, word := TakeByte(c, p, b), p.dataRem % 2 == 1 && p.addr < c.boot;
            && (o.p.phase == WaitLine <==> p.addr >= c.boot)
            && (o.p.phase == ReadData ==> o.p.dataRem == p.dataRem - 1)
            && (p.addr < c.boot && p.dataRem % 2 == 0 ==> o.p.prevData == b)
            && o.p.addr == (if word && p.recordType == 0 then p.addr + 2 else p.addr)
            && o.p.base == (if word && (p.recordType == 2 || p.recordType == 4)
                            then (b as nat * 256 + p.prevData as nat) * (if p.recordType == 4 then 65536 else 16)
                            else p.base)
            && Loads(o.ops) == if word && p.recordType == 0
                               then (if p.dirty then [] else [EraseOp(p.pageStart)]) + [FillOp(p.addr, p.prevData, b)]
                               else []
  {
    hide DataWord, PageOf;
    var q := p.(data := b, readMSB := false, checksum := AddByte(p.checksum, b), dataRem := p.dataRem - 1);
    Countdown(p.dataRem);
    WordLoads(c, q, p.prevData, b);
    DataWordKeeps(c, q, p.prevData, b);
  }

  lemma Countdown(rem: byte)
    requires rem > 0
    ensures ((rem as int + 255) % 256) as byte == rem - 1
    ensures (rem - 1) % 2 == 1 <==> rem % 2 == 0
  {
    var r := rem as int;
    assert (r + 255) % 256 == r - 1;
  }

  lemma WordEnds(p: Parser, bs: seq<byte>, b: byte)
    requires p.phase == ReadData && Position(p, bs)
    ensures EndsWord(bs + [b]) <==> p.dataRem % 2 == 1
  {
    assert (bs + [b])[0] == bs[0];
    assert 4 + bs[0] as nat - |bs + [b]| == p.dataRem as nat - 1;
    Countdown(p.dataRem);
  }

  // ----- over any stream -----

  lemma StepWords(c: Part, p: Parser, h: Line, ch: char)
    requires ValidPart(c) && Agree(p, h) && WordedLine(p, h)
    ensures var o, k := Step(c, p, ch), ReadChar(h, ch);
            && WordedLine(o.p, k)
            && Loads(o.ops) == (if p.phase != WaitLine && Completes(h, ch) then Called(c, p, k.bytes) else [])
            && o.p.base == (if p.phase != WaitLine && Completes(h, ch) then BaseAfter(p, k.bytes, o.p.phase != WaitLine) else p.base)
  {
    hide TakeByte, HexToDecimal, Sum, Covered, Position, Worded, ShiftIn, LowNibble, Called, BaseAfter;
    if p.phase == WaitLine || ch == ':' {
      NewLineWorded(p.(checksum := 0, addr := p.base, readMSB := false, phase := ByteCount));
    } else if HexToDecimal(ch) >= 0 {
      if h.half {
        var b := (16 * h.nibble + HexToDecimal(ch)) as byte;
        if p.phase == ReadData {
          DataWords(c, p, h.bytes, b);
        } else {
          QuietByte(c, p, h.bytes, b);
        }
      } else {
        WordedAlike(p, Step(c, p, ch).p, h.bytes);
      }
    }
  }

  lemma NewLineWorded(p: Parser)
    requires p.phase == ByteCount && p.addr == p.base
    ensures Worded(p, [])
  {
  }

  lemma WordedAlike(p: Parser, q: Parser, bs: seq<byte>)
    requires Worded(p, bs) && q == p.(data := q.data, readMSB := q.readMSB)
    ensures Worded(q, bs)
  {
  }

  lemma {:induction false} RunWords(c: Part, l: Loader, h: Line, xs: string)
    requires ValidLoader(c, l) && Agree(l.p, h) && WordedLine(l.p, h)
    ensures var r := Run(c, l, xs);
            Agree(r.p, LineOf(h, xs)) && WordedLine(r.p, LineOf(h, xs))
    decreases |xs|
  {
    hide Step, ReadChar, Agree, WordedLine;
    if |xs| > 0 {
      StepAgrees(c, l.p, h, xs[0]);
      StepWords(c, l.p, h, xs[0]);
      RunWords(c, Apply(l, Step(c, l.p, xs[0])), ReadChar(h, xs[0]), xs[1..]);
    }
  }

  /** At any point of any stream, the next character erases or loads, and changes the
      base, exactly as the decoded line calls for: only the completed words of data
      records reach the page buffer, only those of extended address records the base. */
  lemma StreamLoads(c: Part, l: Loader, h: Line, xs: string, ch: char)
    requires ValidLoader(c, l) && Agree(l.p, h) && WordedLine(l.p, h)
    ensures var p, k := Run(c, l, xs).p, ReadChar(LineOf(h, xs), ch);
            var o := Step(c, p, ch);
            var byteRead := p.phase != WaitLine && Completes(LineOf(h, xs), ch);
            && LineOf(h, xs + [ch]) == k
            && Loads(o.ops) == (if byteRead then Called(c, p, k.bytes) else [])
            && o.p.base == (if byteRead then BaseAfter(p, k.bytes, o.p.phase != WaitLine) else p.base)
  {
    hide Run, Step, ReadChar, Agree, WordedLine, Called, BaseAfter, LineOf;
    RunWords(c, l, h, xs);
    LineOfSnoc(h, xs, ch);
    StepWords(c, Run(c, l, xs).p, LineOf(h, xs), ch);
  }

  /** The last byte of the line is its checksum, and the line sums to zero. */
  predicate SumsUp(bs: seq<byte>) {
    |bs| >= 5 && |bs| >= 5 + bs[0] as nat && (Sum(Covered(bs)) + bs[|bs| - 1] as nat) % 256 == 0
  }

  lemma ByteQuiet(c: Part, p: Parser, bs: seq<byte>, b: byte)
    requires ValidPart(c) && p.phase != WaitLine && Position(p, bs) && p.checksum as nat == Sum(Covered(bs)) % 256
    ensures TakeByte(c, p, b).ops != [] ==> (IsData(bs + [b]) && EndsWord(bs + [b])) || SumsUp(bs + [b])
  {
    hide Flush, DataWord, PageOf, Sum, Covered, Complement, EndsWord;
    CoveredAppend(bs, b, p.checksum);
    ChecksumMatches(p.checksum, Sum(Covered(bs)), b);
    assert (bs + [b])[|bs + [b]| - 1] == b;
    if p.phase == ReadData {
      WordEnds(p, bs, b);
      Countdown(p.dataRem);
    }
  }

  /** No other character of a stream makes the parser issue any operation: a record
      with a wrong checksum does not even write the page it filled. */
  lemma StreamQuiet(c: Part, l: Loader, h: Line, xs: string, ch: char)
    requires ValidLoader(c, l) && Agree(l.p, h)
    ensures var k := LineOf(h, xs + [ch]);
            Step(c, Run(c, l, xs).p, ch).ops != [] ==>
              && Completes(LineOf(h, xs), ch) && k.Open?
              && ((IsData(k.bytes) && EndsWord(k.bytes)) || SumsUp(k.bytes))
  {
    hide Run, TakeByte, HexToDecimal, Sum, Covered, Position, ShiftIn, LowNibble, SumsUp, EndsWord, IsData;
    RunAgrees(c, l, h, xs);
    LineOfSnoc(h, xs, ch);
    var p, k := Run(c, l, xs).p, LineOf(h, xs);
    if p.phase != WaitLine && Completes(k, ch) {
      ByteQuiet(c, p, k.bytes, (16 * k.nibble + HexToDecimal(ch)) as byte);
    }
  }

  // ----- records of other types -----

  /** A byte of a record that is neither data nor an extended address. */
  lemma OtherByte(c: Part, l: Loader, b: byte)
    requires ValidLoader(c, l) && l.p.phase == ReadData && l.p.dataRem > 0 && l.p.addr < c.boot
    requires l.p.recordType != DATA_RECORD && l.p.recordType != EXTENDED_SEGMENT && l.p.recordType != EXTENDED_LINEAR
    ensures var r := ByteStep(c, l, b);
            && r.m == l.m && r.p.phase == (if l.p.dataRem == 1 then Checksum else ReadData)
            && r.p == l.p.(phase := r.p.phase, data := b, readMSB := false, checksum := AddByte(l.p.checksum, b),
                           dataRem := l.p.dataRem - 1, prevData := r.p.prevData)
  {
    hide ExecAll;
    Countdown(l.p.dataRem);
    ExecNothing(l, TakeByte(c, l.p, b).p);
  }

  lemma {:induction false} OtherBytes(c: Part, l: Loader, data: seq<byte>)
    requires ValidLoader(c, l) && |data| == l.p.dataRem as nat && l.p.addr < c.boot
    requires l.p.phase == (if |data| == 0 then Checksum else ReadData)
    requires l.p.recordType != DATA_RECORD && l.p.recordType != EXTENDED_SEGMENT && l.p.recordType != EXTENDED_LINEAR
    ensures var r := RunBytes(c, l, data);
            && r.m == l.m && r.p.phase == Checksum && r.p.recordType == l.p.recordType
            && r.p.base == l.p.base && r.p.addr == l.p.addr && r.p.run == l.p.run
            && r.p.pageStart == l.p.pageStart && r.p.dirty == l.p.dirty
            && r.p.checksum as nat == (l.p.checksum as nat + Sum(data)) % 256
    decreases |data|
  {
    hide ByteStep, AddByte;
    if |data| > 0 {
      OtherByte(c, l, data[0]);
      OtherBytes(c, ByteStep(c, l, data[0]), data[1..]);
      AddByteSum(l.p.checksum, data[0], Sum(data[1..]));
    }
  }

  /** A record of any other type below the boot section: at most the pending page
      is flushed, the base stays, and only an end-of-file record drops the flag. */
  lemma OtherRecord(c: Part, l: Loader, address: nat, kind: byte, data: seq<byte>)
    requires ValidLoader(c, l) && address < 0x10000 && |data| < 256 && l.p.base + address < c.boot
    requires kind != 0 && kind != 2 && kind != 4
    ensures var r, page := Run(c, l, Record(address, kind, data)), PageOf(l.p.base + address, c.page);
            && r.m == (if l.p.dirty && l.p.pageStart != page then Write(l.m, l.p.pageStart) else l.m)
            && r.p.base == l.p.base && r.p.run == (l.p.run && kind != 1)
  {
    hide Run, Record, TakeByte, Sum, Complement, Apply, RunBytes, PageOf;
    var h := Header(|data|, address, kind);
    var start := l.(p := l.p.(checksum := 0, addr := l.p.base, readMSB := false, phase := ByteCount));
    var l1 := start.(p := AfterHeader(start.p, |data|, address, kind));
    RunRecord(c, l, address, kind, data);
    OtherBytes(c, l1, data);
    var l2 := RunBytes(c, l1, data);
    SumAppend(h, data);
    ModSum(Sum(h), Sum(data));
    ComplementMod(Sum(h + data), l2.p.checksum as nat);
    Accepted(c, l2, Complement(Sum(h + data)));
  }

  lemma Accepted(c: Part, l: Loader, b: byte)
    requires ValidLoader(c, l) && l.p.phase == Checksum && b == Complement(l.p.checksum as nat)
    ensures var r := ByteStep(c, l, b);
            && r.m == (if l.p.dirty && l.p.pageStart != PageOf(l.p.addr, c.page) then Write(l.m, l.p.pageStart) else l.m)
            && r.p.base == l.p.base && r.p.run == (l.p.run && l.p.recordType != EOF_RECORD)
  {
    hide PageOf, Complement, Write, ExecAll;
    var w := WriteOp(l.p.pageStart);
    ExecThree(l.m, w, w, w);
  }
}
